/**
 Points are modelled as elements of an abelian group given by its operations.
 The laws are wrapped in named predicates, so that a proof uses a law only where
 it asks for it.
 */
module AbelianGroup {

  datatype Group<!G> = Group(zero: G, add: (G, G) -> G, neg: G -> G)

  ghost predicate Assoc<G(!new)>(g: Group<G>, x: G, y: G, z: G) {
    g.add(g.add(x, y), z) == g.add(x, g.add(y, z))
  }

  ghost predicate Comm<G(!new)>(g: Group<G>, x: G, y: G) {
    g.add(x, y) == g.add(y, x)
  }

  ghost predicate Unit<G(!new)>(g: Group<G>, x: G) {
    g.add(x, g.zero) == x && g.add(x, g.neg(x)) == g.zero
  }

  ghost predicate Abelian<G(!new)>(g: Group<G>) {
    && (forall x, y, z {:trigger Assoc(g, x, y, z)} :: Assoc(g, x, y, z))
    && (forall x, y {:trigger Comm(g, x, y)} :: Comm(g, x, y))
    && (forall x {:trigger Unit(g, x)} :: Unit(g, x))
  }

  /** The k-fold multiple of x, for any integer k. */
  ghost function Mul<G(!new)>(g: Group<G>, k: int, x: G): G
    decreases if k < 0 then -k else k
  {
    if k == 0 then g.zero
    else if k > 0 then g.add(Mul(g, k - 1, x), x)
    else g.add(Mul(g, k + 1, x), g.neg(x))
  }

  lemma AddZero<G(!new)>(g: Group<G>, x: G)
    requires Abelian(g)
    ensures g.add(x, g.zero) == x && g.add(g.zero, x) == x
  {
    assert Unit(g, x);
    assert Comm(g, x, g.zero);
  }

  lemma AddAssoc<G(!new)>(g: Group<G>, x: G, y: G, z: G)
    requires Abelian(g)
    ensures g.add(g.add(x, y), z) == g.add(x, g.add(y, z))
  {
    assert Assoc(g, x, y, z);
  }

  lemma AddComm<G(!new)>(g: Group<G>, x: G, y: G)
    requires Abelian(g)
    ensures g.add(x, y) == g.add(y, x)
  {
    assert Comm(g, x, y);
  }

  lemma AddNeg<G(!new)>(g: Group<G>, x: G)
    requires Abelian(g)
    ensures g.add(x, g.neg(x)) == g.zero && g.add(g.neg(x), x) == g.zero
  {
    assert Unit(g, x);
    assert Comm(g, x, g.neg(x));
  }

  /** (w + x) + (y + z) = (w + y) + (x + z) */
  lemma AddExchange<G(!new)>(g: Group<G>, w: G, x: G, y: G, z: G)
    requires Abelian(g)
    ensures g.add(g.add(w, x), g.add(y, z)) == g.add(g.add(w, y), g.add(x, z))
  {
    AddAssoc(g, w, x, g.add(y, z));
    AddAssoc(g, x, y, z);
    AddComm(g, x, y);
    AddAssoc(g, y, x, z);
    AddAssoc(g, w, y, g.add(x, z));
  }

  /** Cancellation. */
  lemma AddCancel<G(!new)>(g: Group<G>, x: G, y: G, z: G)
    requires Abelian(g)
    requires g.add(x, z) == g.add(y, z)
    ensures x == y
  {
    AddAssoc(g, x, z, g.neg(z));
    AddAssoc(g, y, z, g.neg(z));
    AddNeg(g, z);
    AddZero(g, x);
    AddZero(g, y);
  }

  lemma NoMultiple<G(!new)>(g: Group<G>, q: G)
    ensures Mul(g, 0, q) == g.zero
  {}

  lemma MulOne<G(!new)>(g: Group<G>, x: G)
    requires Abelian(g)
    ensures Mul(g, 1, x) == x
  {
    AddZero(g, x);
  }

  lemma MulStep<G(!new)>(g: Group<G>, k: int, x: G)
    requires Abelian(g)
    ensures Mul(g, k + 1, x) == g.add(Mul(g, k, x), x)
    ensures Mul(g, k - 1, x) == g.add(Mul(g, k, x), g.neg(x))
  {
    AddNeg(g, x);
    if k < 0 {
      AddAssoc(g, Mul(g, k + 1, x), g.neg(x), x);
      AddZero(g, Mul(g, k + 1, x));
    }
    if k > 0 {
      AddAssoc(g, Mul(g, k - 1, x), x, g.neg(x));
      AddZero(g, Mul(g, k - 1, x));
    }
  }

  lemma {:induction false} MulAdd<G(!new)>(g: Group<G>, j: int, k: int, x: G)
    requires Abelian(g)
    ensures Mul(g, j + k, x) == g.add(Mul(g, j, x), Mul(g, k, x))
    decreases if k < 0 then -k else k
  {
    if k == 0 {
      AddZero(g, Mul(g, j, x));
    } else if k > 0 {
      MulAdd(g, j, k - 1, x);
      MulStep(g, j + k - 1, x);
      AddAssoc(g, Mul(g, j, x), Mul(g, k - 1, x), x);
    } else {
      MulAdd(g, j, k + 1, x);
      MulStep(g, j + k + 1, x);
      AddAssoc(g, Mul(g, j, x), Mul(g, k + 1, x), g.neg(x));
    }
  }

  lemma {:induction false} MulZero<G(!new)>(g: Group<G>, k: int)
    requires Abelian(g)
    ensures Mul(g, k, g.zero) == g.zero
    decreases if k < 0 then -k else k
  {
    AddZero(g, g.zero);
    AddNeg(g, g.zero);
    AddZero(g, g.neg(g.zero));
    if k > 0 {
      MulZero(g, k - 1);
    } else if k < 0 {
      MulZero(g, k + 1);
    }
  }

  lemma NegAdd<G(!new)>(g: Group<G>, x: G, y: G)
    requires Abelian(g)
    ensures g.neg(g.add(x, y)) == g.add(g.neg(x), g.neg(y))
  {
    AddExchange(g, g.neg(x), g.neg(y), x, y);
    AddNeg(g, x);
    AddNeg(g, y);
    AddZero(g, g.zero);
    AddNeg(g, g.add(x, y));
    AddCancel(g, g.neg(g.add(x, y)), g.add(g.neg(x), g.neg(y)), g.add(x, y));
  }

  lemma {:induction false} MulDistrib<G(!new)>(g: Group<G>, k: int, x: G, y: G)
    requires Abelian(g)
    ensures Mul(g, k, g.add(x, y)) == g.add(Mul(g, k, x), Mul(g, k, y))
    decreases if k < 0 then -k else k
  {
    if k == 0 {
      AddZero(g, g.zero);
    } else if k > 0 {
      MulDistrib(g, k - 1, x, y);
      AddExchange(g, Mul(g, k - 1, x), Mul(g, k - 1, y), x, y);
    } else {
      MulDistrib(g, k + 1, x, y);
      NegAdd(g, x, y);
      AddExchange(g, Mul(g, k + 1, x), Mul(g, k + 1, y), g.neg(x), g.neg(y));
    }
  }

  lemma MulNeg<G(!new)>(g: Group<G>, k: int, x: G)
    requires Abelian(g)
    ensures Mul(g, -k, x) == g.neg(Mul(g, k, x)) == Mul(g, k, g.neg(x))
  {
    var a, b, c := Mul(g, -k, x), Mul(g, k, x), Mul(g, k, g.neg(x));
    MulAdd(g, -k, k, x);
    AddNeg(g, b);
    AddCancel(g, a, g.neg(b), b);
    MulDistrib(g, k, g.neg(x), x);
    AddNeg(g, x);
    MulZero(g, k);
    AddCancel(g, c, g.neg(b), b);
  }

  lemma {:induction false} MulMul<G(!new)>(g: Group<G>, j: int, k: int, x: G)
    requires Abelian(g)
    ensures Mul(g, j * k, x) == Mul(g, j, Mul(g, k, x))
    decreases if j < 0 then -j else j
  {
    if j == 0 {
      assert j * k == 0;
    } else if j > 0 {
      MulMul(g, j - 1, k, x);
      assert j * k == (j - 1) * k + k;
      MulAdd(g, (j - 1) * k, k, x);
    } else {
      MulMul(g, j + 1, k, x);
      assert j * k == (j + 1) * k + -k;
      MulAdd(g, (j + 1) * k, -k, x);
      MulNeg(g, k, x);
    }
  }

  /** Doubling a multiple doubles its factor. */
  lemma MulDouble<G(!new)>(g: Group<G>, k: int, x: G)
    requires Abelian(g)
    ensures g.add(Mul(g, k, x), Mul(g, k, x)) == Mul(g, 2 * k, x)
  {
    MulAdd(g, k, k, x);
  }

  /** The factor of a point whose m-fold multiple is neutral only matters modulo m. */
  lemma MulMod<G(!new)>(g: Group<G>, k: int, m: int, x: G)
    requires Abelian(g) && m > 0 && Mul(g, m, x) == g.zero
    ensures Mul(g, k % m, x) == Mul(g, k, x)
  {
    assert k == (k / m) * m + k % m;
    MulAdd(g, (k / m) * m, k % m, x);
    MulMul(g, k / m, m, x);
    MulZero(g, k / m);
    AddZero(g, Mul(g, k % m, x));
  }
}
