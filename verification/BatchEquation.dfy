/** What the scalars and points of a batch stand for. */
module BatchEquation {
  import opened Arithmetic
  import opened Limbs
  import opened AbelianGroup
  import opened MultiScalar
  import opened ScalarModm
  import opened ScalarMult

  /** The m-fold multiple of q is neutral. */
  ghost predicate Torsion<G(!new)>(g: Group<G>, q: G) {
    Mul(g, M, q) == g.zero
  }

  /** m is prime: a non-neutral element whose m-fold multiple is neutral has order m. */
  ghost predicate PrimeOrder<G(!new)>(g: Group<G>) {
    forall q {:trigger Torsion(g, q)} :: Torsion(g, q) ==> HasOrder(g, M, q)
  }

  lemma Unreduced<G(!new)>(g: Group<G>, k: int, q: G)
    requires Abelian(g) && Torsion(g, q)
    ensures Mul(g, k % M, q) == Mul(g, k, q)
  {
    MulMod(g, k, M, q);
  }

  /** The signatures of a block: random factors r, responses s, challenges h and the negated points -A and -R. */
  datatype Block<!G> = Block(r: seq<int>, s: seq<int>, h: seq<int>, a: seq<G>, b: seq<G>, base: G)

  predicate Sized<G>(k: Block<G>, n: nat) {
    n == |k.r| == |k.s| == |k.h| == |k.a| == |k.b|
  }

  /** All points of the block lie in the subgroup of order m. */
  ghost predicate InSubgroup<G(!new)>(g: Group<G>, k: Block<G>) {
    && Torsion(g, k.base)
    && (forall i :: 0 <= i < |k.a| ==> Torsion(g, k.a[i]))
    && (forall i :: 0 <= i < |k.b| ==> Torsion(g, k.b[i]))
  }

  /** s B - h A - R for signature i. */
  ghost function Term<G(!new)>(g: Group<G>, k: Block<G>, i: nat): G
    requires Sized(k, |k.r|) && i < |k.r|
  {
    g.add(Lin(g, k.h[i], k.a[i], k.s[i], k.base), k.b[i])
  }

  /** The random combination of the first n verification equations. */
  ghost function Weighted<G(!new)>(g: Group<G>, k: Block<G>, n: nat): G
    requires Sized(k, |k.r|) && n <= |k.r|
  {
    if n == 0 then g.zero else g.add(Weighted(g, k, n - 1), Mul(g, k.r[n - 1], Term(g, k, n - 1)))
  }

  ghost function Dot(r: seq<int>, s: seq<int>, n: nat): int
    requires n <= |r| && n <= |s|
  {
    if n == 0 then 0 else Dot(r, s, n - 1) + s[n - 1] * r[n - 1]
  }

  ghost function KeySum<G(!new)>(g: Group<G>, k: Block<G>, n: nat): G
    requires Sized(k, |k.r|) && n <= |k.r|
  {
    if n == 0 then g.zero else g.add(KeySum(g, k, n - 1), Mul(g, k.h[n - 1] * k.r[n - 1], k.a[n - 1]))
  }

  ghost function NonceSum<G(!new)>(g: Group<G>, k: Block<G>, n: nat): G
    requires Sized(k, |k.r|) && n <= |k.r|
  {
    if n == 0 then g.zero else g.add(NonceSum(g, k, n - 1), Mul(g, k.r[n - 1], k.b[n - 1]))
  }

  /** How the batch lays a block out in its arrays. */
  ghost predicate Encodes<G(!new)>(k: Block<G>, s: seq<int>, p: seq<G>, n: nat) {
    && Sized(k, n) && |s| == |p| && 2 * n + 1 <= |s|
    && p[0] == k.base && s[0] == Dot(k.r, k.s, n) % M
    && (forall i :: 0 <= i < n ==> p[i + 1] == k.a[i] && s[i + 1] == k.h[i] * k.r[i] % M)
    && (forall i :: 0 <= i < n ==> p[n + 1 + i] == k.b[i] && s[n + 1 + i] == k.r[i])
  }

  lemma {:induction false} CombineKeys<G(!new)>(g: Group<G>, k: Block<G>, s: seq<int>, p: seq<G>, n: nat, j: nat)
    requires Abelian(g) && InSubgroup(g, k) && Encodes(k, s, p, n) && j <= n
    ensures Combine(g, s, p, 1 + j) == g.add(Mul(g, Dot(k.r, k.s, n), k.base), KeySum(g, k, j))
  {
    hide Mul, Dot;
    var d := Mul(g, Dot(k.r, k.s, n), k.base);
    if j == 0 {
      Unreduced(g, Dot(k.r, k.s, n), k.base);
      AddZero(g, d);
    } else {
      CombineKeys(g, k, s, p, n, j - 1);
      assert p[(j - 1) + 1] == k.a[j - 1] && s[(j - 1) + 1] == k.h[j - 1] * k.r[j - 1] % M;
      Unreduced(g, k.h[j - 1] * k.r[j - 1], k.a[j - 1]);
      AddAssoc(g, d, KeySum(g, k, j - 1), Mul(g, k.h[j - 1] * k.r[j - 1], k.a[j - 1]));
    }
  }

  lemma {:induction false} CombineNonces<G(!new)>(g: Group<G>, k: Block<G>, s: seq<int>, p: seq<G>, n: nat, j: nat)
    requires Abelian(g) && Encodes(k, s, p, n) && j <= n
    ensures Combine(g, s, p, 1 + n + j) == g.add(Combine(g, s, p, 1 + n), NonceSum(g, k, j))
  {
    hide Mul, Dot;
    var c := Combine(g, s, p, 1 + n);
    if j == 0 {
      AddZero(g, c);
    } else {
      CombineNonces(g, k, s, p, n, j - 1);
      assert p[n + 1 + (j - 1)] == k.b[j - 1] && s[n + 1 + (j - 1)] == k.r[j - 1];
      AddAssoc(g, c, NonceSum(g, k, j - 1), Mul(g, k.r[j - 1], k.b[j - 1]));
    }
  }

  /** r (h a + s base + b) term by term. */
  lemma ExpandTerm<G(!new)>(g: Group<G>, r: int, h: int, a: G, s: int, base: G, b: G)
    requires Abelian(g)
    ensures Mul(g, r, g.add(Lin(g, h, a, s, base), b))
            == g.add(g.add(Mul(g, s * r, base), Mul(g, h * r, a)), Mul(g, r, b))
  {
    hide Mul;
    var x, y := Mul(g, h, a), Mul(g, s, base);
    MulDistrib(g, r, g.add(x, y), b);
    MulDistrib(g, r, x, y);
    MulMul(g, r, h, a);
    MulMul(g, r, s, base);
    assert r * h == h * r && r * s == s * r;
    AddComm(g, Mul(g, h * r, a), Mul(g, s * r, base));
  }

  /** ((d + x) + z) + ((e + y) + w) = ((d + e) + (x + y)) + (z + w) */
  lemma Regroup<G(!new)>(g: Group<G>, d: G, x: G, z: G, e: G, y: G, w: G)
    requires Abelian(g)
    ensures g.add(g.add(g.add(d, x), z), g.add(g.add(e, y), w)) == g.add(g.add(g.add(d, e), g.add(x, y)), g.add(z, w))
  {
    AddExchange(g, g.add(d, x), z, g.add(e, y), w);
    AddExchange(g, d, x, e, y);
  }

  lemma {:induction false} WeightedSplit<G(!new)>(g: Group<G>, k: Block<G>, n: nat)
    requires Abelian(g) && Sized(k, |k.r|) && n <= |k.r|
    ensures Weighted(g, k, n) == g.add(g.add(Mul(g, Dot(k.r, k.s, n), k.base), KeySum(g, k, n)), NonceSum(g, k, n))
  {
    hide Mul, Term, Abelian;
    if n == 0 {
      NoMultiple(g, k.base);
      AddZero(g, g.zero);
    } else {
      WeightedSplit(g, k, n - 1);
      SplitStep(g, k, n - 1);
    }
  }

  lemma SplitStep<G(!new)>(g: Group<G>, k: Block<G>, i: nat)
    requires Abelian(g) && Sized(k, |k.r|) && i < |k.r|
    requires Weighted(g, k, i) == g.add(g.add(Mul(g, Dot(k.r, k.s, i), k.base), KeySum(g, k, i)), NonceSum(g, k, i))
    ensures Weighted(g, k, i + 1) == g.add(g.add(Mul(g, Dot(k.r, k.s, i + 1), k.base), KeySum(g, k, i + 1)), NonceSum(g, k, i + 1))
  {
    hide Mul, Lin, Abelian;
    ExpandTerm(g, k.r[i], k.h[i], k.a[i], k.s[i], k.base, k.b[i]);
    Regroup(g, Mul(g, Dot(k.r, k.s, i), k.base), KeySum(g, k, i), NonceSum(g, k, i),
            Mul(g, k.s[i] * k.r[i], k.base), Mul(g, k.h[i] * k.r[i], k.a[i]), Mul(g, k.r[i], k.b[i]));
    MulAdd(g, Dot(k.r, k.s, i), k.s[i] * k.r[i], k.base);
  }

  /** The arrays of a batch sum up to the random combination of its verification equations. */
  lemma EncodedSum<G(!new)>(g: Group<G>, k: Block<G>, s: seq<int>, p: seq<G>, n: nat)
    requires Abelian(g) && InSubgroup(g, k) && Encodes(k, s, p, n)
    ensures Combine(g, s, p, 2 * n + 1) == Weighted(g, k, n)
  {
    hide Mul, Combine, Weighted, Dot;
    CombineKeys(g, k, s, p, n, n);
    CombineNonces(g, k, s, p, n, n);
    WeightedSplit(g, k, n);
    assert 1 + n + n == 2 * n + 1;
  }

  /** The part of the combination in the first heap: the base and key terms, and one nonce term when n is odd. */
  ghost function FirstSum<G(!new)>(g: Group<G>, k: Block<G>): G
    requires Sized(k, |k.r|)
  {
    var n := |k.r|;
    g.add(g.add(Mul(g, Dot(k.r, k.s, n), k.base), KeySum(g, k, n)), NonceSum(g, k, n % 2))
  }

  lemma FirstHeapSum<G(!new)>(g: Group<G>, k: Block<G>, s: seq<int>, p: seq<G>, n: nat)
    requires Abelian(g) && InSubgroup(g, k) && Encodes(k, s, p, n)
    ensures Combine(g, s, p, 1 + n + n % 2) == FirstSum(g, k)
  {
    hide Mul, Combine, Dot;
    CombineKeys(g, k, s, p, n, n);
    CombineNonces(g, k, s, p, n, n % 2);
  }

  /** When every equation of the block holds, so does their combination. */
  lemma {:induction false} AllHold<G(!new)>(g: Group<G>, k: Block<G>, n: nat)
    requires Abelian(g) && Sized(k, |k.r|) && n <= |k.r|
    requires forall i :: 0 <= i < n ==> Term(g, k, i) == g.zero
    ensures Weighted(g, k, n) == g.zero
  {
    if n > 0 {
      AllHold(g, k, n - 1);
      MulZero(g, k.r[n - 1]);
      AddZero(g, g.zero);
    }
  }

  /** The points of a batch in the subgroup stay there. */
  lemma LayoutAnnihilates<G(!new)>(g: Group<G>, k: Block<G>, s: seq<int>, p: seq<G>, n: nat)
    requires InSubgroup(g, k) && Encodes(k, s, p, n)
    ensures Annihilates(g, M, p, 2 * n + 1)
  {
    hide Mul, Dot;
    forall i | 0 <= i < 2 * n + 1 ensures Mul(g, M, p[i]) == g.zero {
      if 1 <= i <= n {
        assert p[(i - 1) + 1] == k.a[i - 1] && Torsion(g, k.a[i - 1]);
      } else if i > n {
        assert p[n + 1 + (i - n - 1)] == k.b[i - n - 1] && Torsion(g, k.b[i - n - 1]);
      }
    }
  }

  lemma {:induction false} SameBelow<G(!new)>(g: Group<G>, k: Block<G>, k': Block<G>, i: nat, n: nat)
    requires Sized(k, |k.r|) && n <= i < |k.r| && |k'.r| == |k.r| && k' == k.(r := k.r[i := k'.r[i]])
    ensures Weighted(g, k', n) == Weighted(g, k, n)
  {
    if n > 0 {
      SameBelow(g, k, k', i, n - 1);
    }
  }

  /** Changing one random factor adds a multiple of its equation. */
  lemma {:induction false} WeightedChange<G(!new)>(g: Group<G>, k: Block<G>, k': Block<G>, i: nat, n: nat)
    requires Abelian(g) && Sized(k, |k.r|) && i < n <= |k.r| && |k'.r| == |k.r| && k' == k.(r := k.r[i := k'.r[i]])
    ensures Weighted(g, k', n) == g.add(Weighted(g, k, n), Mul(g, k'.r[i] - k.r[i], Term(g, k, i)))
  {
    hide Mul;
    var d, w := Mul(g, k'.r[i] - k.r[i], Term(g, k, i)), Weighted(g, k, n - 1);
    var last := Mul(g, k.r[n - 1], Term(g, k, n - 1));
    assert Term(g, k', n - 1) == Term(g, k, n - 1);
    if n == i + 1 {
      SameBelow(g, k, k', i, i);
      MulAdd(g, k.r[i], k'.r[i] - k.r[i], Term(g, k, i));
      AddAssoc(g, w, last, d);
    } else {
      WeightedChange(g, k, k', i, n - 1);
      AddAssoc(g, w, d, last);
      AddComm(g, d, last);
      AddAssoc(g, w, last, d);
    }
  }

  lemma TorsionMultiple<G(!new)>(g: Group<G>, h: int, q: G)
    requires Abelian(g) && Torsion(g, q)
    ensures Torsion(g, Mul(g, h, q))
  {
    hide Mul;
    MulMul(g, M, h, q);
    MulMul(g, h, M, q);
    assert M * h == h * M;
    MulZero(g, h);
  }

  lemma TorsionSum<G(!new)>(g: Group<G>, p: G, q: G)
    requires Abelian(g) && Torsion(g, p) && Torsion(g, q)
    ensures Torsion(g, g.add(p, q))
  {
    MulDistrib(g, M, p, q);
    AddZero(g, g.zero);
  }

  lemma TermTorsion<G(!new)>(g: Group<G>, k: Block<G>, i: nat)
    requires Abelian(g) && Sized(k, |k.r|) && i < |k.r| && InSubgroup(g, k)
    ensures Torsion(g, Term(g, k, i))
  {
    hide Torsion, Mul;
    TorsionMultiple(g, k.h[i], k.a[i]);
    TorsionMultiple(g, k.s[i], k.base);
    TorsionSum(g, Mul(g, k.h[i], k.a[i]), Mul(g, k.s[i], k.base));
    TorsionSum(g, Lin(g, k.h[i], k.a[i], k.s[i], k.base), k.b[i]);
  }

  /** Two different random factors below 2^128 that both make the combination neutral force their equation. */
  lemma TwoFactorsForce<G(!new)>(g: Group<G>, k: Block<G>, k': Block<G>, i: nat)
    requires Abelian(g) && PrimeOrder(g) && Sized(k, |k.r|) && i < |k.r| && InSubgroup(g, k)
    requires |k'.r| == |k.r| && k' == k.(r := k.r[i := k'.r[i]])
    requires 0 <= k.r[i] < TWO128 && 0 <= k'.r[i] < TWO128 && k.r[i] != k'.r[i]
    requires Weighted(g, k, |k.r|) == g.zero && Weighted(g, k', |k.r|) == g.zero
    ensures Term(g, k, i) == g.zero
  {
    hide *;
    var d, t := k'.r[i] - k.r[i], Term(g, k, i);
    WeightedChange(g, k, k', i, |k.r|);
    TermTorsion(g, k, i);
    AddZero(g, Mul(g, d, t));
    AddComm(g, g.zero, Mul(g, d, t));
    OrderForces(g, d, t);
  }

  lemma OrderForces<G(!new)>(g: Group<G>, d: int, t: G)
    requires PrimeOrder(g) && Torsion(g, t) && Mul(g, d, t) == g.zero && -TWO128 < d < TWO128 && d != 0
    ensures t == g.zero
  {
    NotMultiple(d);
    hide Mul;
    assert HasOrder(g, M, t);
  }

  lemma NotMultiple(d: int)
    requires -TWO128 < d < TWO128 && d != 0
    ensures d % M != 0
  {
    if d > 0 {
      SmallMod(d, M);
    } else {
      DivModUnique(d, M, -1, d + M);
    }
  }
}
