/**
 The point formulas on limb vectors. Each method keeps its operands within the
 bounds the field operations need and returns coordinates of the sum, double or
 negation of the points it is given.
 */
module PointOps {
  import opened Arithmetic
  import opened Residues
  import opened Field51
  import opened AbelianGroup
  import opened Edwards

  /** ge25519, ge25519_p1p1, ge25519_niels and ge25519_pniels. */
  datatype Point = Point(x: Fe, y: Fe, z: Fe, t: Fe)
  datatype P1p1 = P1p1(x: Fe, y: Fe, z: Fe, t: Fe)
  datatype Niels = Niels(ysubx: Fe, xaddy: Fe, t2d: Fe)
  datatype Pniels = Pniels(ysubx: Fe, xaddy: Fe, z: Fe, t2d: Fe)

  /** f is g; named so that a proof uses the constants of the field only where it says so. */
  ghost predicate IsField(f: Field, g: Field) {
    f == g
  }

  /** The curve modulo 2^255 - 19. */
  ghost predicate Ed25519<G(!new)>(c: Curve<G>) {
    EdwardsCurve(c) && forall g {:trigger IsField(c.f, g)} :: g == F25519 ==> IsField(c.f, g)
  }

  lemma FieldIs<G(!new)>(c: Curve<G>)
    requires Ed25519(c)
    ensures EdwardsCurve(c) && c.f == F25519
  {
    assert IsField(c.f, F25519);
  }

  lemma GroupOf<G(!new)>(c: Curve<G>)
    requires Ed25519(c)
    ensures Abelian(c.group)
  {}

  /** Projective coordinates of q; the fourth coordinate is whatever was there before. */
  ghost predicate IsPartial<G(!new)>(c: Curve<G>, p: Point, q: G) {
    Carried(p.x) && Carried(p.y) && Carried(p.z) && RepPartial(c, Fv(p.x), Fv(p.y), Fv(p.z), q)
  }

  ghost predicate IsPoint<G(!new)>(c: Curve<G>, p: Point, q: G) {
    && Carried(p.x) && Carried(p.y) && Carried(p.z) && Carried(p.t)
    && RepFull(c, Fv(p.x), Fv(p.y), Fv(p.z), Fv(p.t), q)
  }

  lemma PointIsPartial<G(!new)>(c: Curve<G>, r: Point, q: G)
    requires IsPoint(c, r, q)
    ensures IsPartial(c, r, q)
  {
    FullIff(c, Fv(r.x), Fv(r.y), Fv(r.z), Fv(r.t), q);
  }

  ghost predicate IsP1p1<G(!new)>(c: Curve<G>, p: P1p1, q: G) {
    && Bounded(p.x, N54) && Bounded(p.y, N54) && Bounded(p.z, N54) && Bounded(p.t, N54)
    && RepCompleted(c, Fv(p.x), Fv(p.y), Fv(p.z), Fv(p.t), q)
  }

  /** y - x, y + x and k times the product xy; ready to be added when k is 2d. */
  ghost predicate IsEntry<G(!new)>(c: Curve<G>, p: Niels, k: int, q: G) {
    && Carried(p.ysubx) && Carried(p.xaddy) && Carried(p.t2d)
    && RepEntry(c, Fv(p.ysubx), Fv(p.xaddy), Fv(p.t2d), k, q)
  }

  ghost predicate IsNiels<G(!new)>(c: Curve<G>, p: Niels, q: G) {
    IsEntry(c, p, 2 * c.f.d, q)
  }

  lemma EntryIsNiels<G(!new)>(c: Curve<G>, p: Niels, q: G)
    requires IsEntry(c, p, 2 * c.f.d, q)
    ensures IsNiels(c, p, q)
  {}

  ghost predicate IsPniels<G(!new)>(c: Curve<G>, p: Pniels, q: G) {
    && Basic(p.ysubx) && Doubled(p.xaddy) && Carried(p.z) && Carried(p.t2d)
    && RepCached(c, Fv(p.ysubx), Fv(p.xaddy), Fv(p.z), Fv(p.t2d), q)
  }

  lemma SameCompleted<G(!new)>(c: Curve<G>, x: int, y: int, z: int, t: int, x': int, y': int, z': int, t': int, q: G)
    requires RepCompleted(c, x, y, z, t, q) && Eq(c.f, x', x) && Eq(c.f, y', y) && Eq(c.f, z', z) && Eq(c.f, t', t)
    ensures RepCompleted(c, x', y', z', t', q)
  {
    CompletedIff(c, x, y, z, t, q);
    CompletedIff(c, x', y', z', t', q);
    EqMul(c.f, c.x(q), c.x(q), z', z);
    EqMul(c.f, c.y(q), c.y(q), t', t);
  }

  lemma SameCached<G(!new)>(c: Curve<G>, m: int, p: int, z: int, t: int, m': int, p': int, z': int, t': int, q: G)
    requires RepCached(c, m, p, z, t, q) && Eq(c.f, m', m) && Eq(c.f, p', p) && Eq(c.f, z', z) && Eq(c.f, t', t)
    ensures RepCached(c, m', p', z', t', q)
  {
    var (x, y) := (c.x(q), c.y(q));
    CachedIff(c, m, p, z, t, q);
    CachedIff(c, m', p', z', t', q);
    EqMul(c.f, y - x, y - x, z', z);
    EqMul(c.f, y + x, y + x, z', z);
    EqMul(c.f, 2 * c.f.d * (x * y), 2 * c.f.d * (x * y), z', z);
  }

  lemma SameFull<G(!new)>(c: Curve<G>, x: int, y: int, z: int, t: int, x': int, y': int, z': int, t': int, q: G)
    requires RepFull(c, x, y, z, t, q) && Eq(c.f, x', x) && Eq(c.f, y', y) && Eq(c.f, z', z) && Eq(c.f, t', t)
    ensures RepFull(c, x', y', z', t', q)
  {
    FullIff(c, x, y, z, t, q);
    PartialIff(c, x, y, z, q);
    PartialIff(c, x', y', z', q);
    FullIff(c, x', y', z', t', q);
    EqMul(c.f, c.x(q), c.x(q), z', z);
    EqMul(c.f, c.y(q), c.y(q), z', z);
    EqMul(c.f, c.x(q) * c.y(q), c.x(q) * c.y(q), z', z);
  }

  /** The four products of p1p1_to_full, as residues. */
  lemma FullResidues<G(!new)>(c: Curve<G>, x: int, y: int, z: int, t: int, q: G)
    requires EdwardsCurve(c) && RepCompleted(c, x, y, z, t, q)
    ensures RepFull(c, FMul(c.f, x, t), FMul(c.f, y, z), FMul(c.f, z, t), FMul(c.f, x, y), q)
  {
    CompletedToFull(c, x, y, z, t, q);
    EqOps(c.f, x, t);
    EqOps(c.f, y, z);
    EqOps(c.f, z, t);
    EqOps(c.f, x, y);
    SameFull(c, x * t, y * z, z * t, x * y, FMul(c.f, x, t), FMul(c.f, y, z), FMul(c.f, z, t), FMul(c.f, x, y), q);
  }

  /** ge25519_p1p1_to_partial: the fourth coordinate of the destination stays as it was. */
  method P1p1ToPartial<G(!new)>(r: Point, p: P1p1, ghost c: Curve<G>, ghost q: G) returns (r': Point)
    requires Ed25519(c) && IsP1p1(c, p, q)
    ensures IsPartial(c, r', q) && r'.t == r.t
  {
    FullResidues(c, Fv(p.x), Fv(p.y), Fv(p.z), Fv(p.t), q);
    FullIff(c, FMul(c.f, Fv(p.x), Fv(p.t)), FMul(c.f, Fv(p.y), Fv(p.z)), FMul(c.f, Fv(p.z), Fv(p.t)), FMul(c.f, Fv(p.x), Fv(p.y)), q);
    FieldIs(c);
    hide Fv, FMul, Ed25519, EdwardsCurve, RepPartial, RepFull, RepCompleted;
    var x := FeMul(p.x, p.t);
    var y := FeMul(p.y, p.z);
    var z := FeMul(p.z, p.t);
    r' := Point(x, y, z, r.t);
  }

  /** ge25519_p1p1_to_full. */
  method P1p1ToFull<G(!new)>(p: P1p1, ghost c: Curve<G>, ghost q: G) returns (r: Point)
    requires Ed25519(c) && IsP1p1(c, p, q)
    ensures IsPoint(c, r, q)
  {
    FullResidues(c, Fv(p.x), Fv(p.y), Fv(p.z), Fv(p.t), q);
    FieldIs(c);
    hide Fv, FMul, Ed25519, EdwardsCurve, RepFull, RepCompleted;
    var x := FeMul(p.x, p.t);
    var y := FeMul(p.y, p.z);
    var z := FeMul(p.z, p.t);
    var t := FeMul(p.x, p.y);
    r := Point(x, y, z, t);
  }

  /** The constant 2d. */
  const EC2D: Fe := Fe(0x00069b9426b2f159, 0x00035050762add7a, 0x0003cf44c0038052, 0x0006738cc7407977, 0x0002406d9dc56dff)

  lemma EC2DValue()
    ensures Carried(EC2D) && Eq(F25519, Fv(EC2D), 2 * F25519.d)
  {}

  lemma CachedResidues<G(!new)>(c: Curve<G>, x: int, y: int, z: int, t: int, q: G, d2: int)
    requires RepFull(c, x, y, z, t, q) && Eq(c.f, d2, 2 * c.f.d)
    ensures RepCached(c, FSub(c.f, y, x), FAdd(c.f, y, x), z, FMul(c.f, t, d2), q)
  {
    EqOps(c.f, t, d2);
    EqMul(c.f, t, t, d2, 2 * c.f.d);
    EqOps(c.f, y, x);
    FullToCached(c, x, y, z, t, q, FMul(c.f, t, d2));
    SameCached(c, y - x, y + x, z, FMul(c.f, t, d2), FSub(c.f, y, x), FAdd(c.f, y, x), z, FMul(c.f, t, d2), q);
  }

  /** ge25519_full_to_pniels. */
  method FullToPniels<G(!new)>(r: Point, ghost c: Curve<G>, ghost q: G) returns (p: Pniels)
    requires Ed25519(c) && IsPoint(c, r, q)
    ensures IsPniels(c, p, q)
  {
    FieldIs(c);
    EC2DValue();
    CachedResidues(c, Fv(r.x), Fv(r.y), Fv(r.z), Fv(r.t), q, Fv(EC2D));
    hide Fv, FMul, FSub, FAdd, RepFull, RepEntry, RepCached;
    var ysubx := FeSub(r.y, r.x);
    var xaddy := FeAdd(r.y, r.x);
    var t2d := FeMul(r.t, EC2D);
    p := Pniels(ysubx, xaddy, r.z, t2d);
  }

  lemma TwiceSquare(f: Field, z: int)
    ensures Eq(f, FAdd(f, FMul(f, z, z), FMul(f, z, z)), 2 * (z * z))
  {
    var m := FMul(f, z, z);
    EqOps(f, z, z);
    EqOps(f, m, m);
    EqAdd(f, m, z * z, m, z * z);
  }

  lemma SquareOfSum(f: Field, x: int, y: int)
    ensures Eq(f, FMul(f, FAdd(f, x, y), FAdd(f, x, y)), (x + y) * (x + y))
  {
    var s := FAdd(f, x, y);
    EqOps(f, x, y);
    EqOps(f, s, s);
    EqMul(f, s, x + y, s, x + y);
  }

  lemma SubResidue(f: Field, x: int, y: int, y': int)
    requires Eq(f, y, y')
    ensures Eq(f, FSub(f, x, y), x - y')
  {
    EqOps(f, x, y);
    EqAdd(f, x, x, y, y');
  }

  /** The numerators and denominators of a doubling, as residues. */
  lemma DoubleResidues<G(!new)>(c: Curve<G>, x: int, y: int, z: int, q: G, a: int, b: int, e: int, w: int)
    requires EdwardsCurve(c) && RepPartial(c, x, y, z, q)
    requires a == FMul(c.f, x, x) && b == FMul(c.f, y, y)
    requires e == FAdd(c.f, FMul(c.f, z, z), FMul(c.f, z, z)) && w == FMul(c.f, FAdd(c.f, x, y), FAdd(c.f, x, y))
    ensures RepCompleted(c, FSub(c.f, w, FAdd(c.f, b, a)), FAdd(c.f, b, a), FSub(c.f, b, a), FSub(c.f, e, FSub(c.f, b, a)), c.group.add(q, q))
  {
    hide RepCompleted, RepPartial, EdwardsCurve, FMul, FAdd, FSub, Eq;
    EqOps(c.f, x, x);
    EqOps(c.f, y, y);
    TwiceSquare(c.f, z);
    SquareOfSum(c.f, x, y);
    DoubleCompleted(c, x, y, z, q, a, b, e, w);
    EqOps(c.f, b, a);
    SubResidue(c.f, w, FAdd(c.f, b, a), b + a);
    SubResidue(c.f, e, FSub(c.f, b, a), b - a);
    SameCompleted(c, w - (b + a), b + a, b - a, e - (b - a),
                  FSub(c.f, w, FAdd(c.f, b, a)), FAdd(c.f, b, a), FSub(c.f, b, a), FSub(c.f, e, FSub(c.f, b, a)), c.group.add(q, q));
  }

  /** ge25519_double_p1p1: reads no fourth coordinate. */
  method DoubleP1p1<G(!new)>(p: Point, ghost c: Curve<G>, ghost q: G) returns (r: P1p1)
    requires Ed25519(c) && IsPartial(c, p, q)
    ensures IsP1p1(c, r, c.group.add(q, q))
  {
    FieldIs(c);
    hide Fv, FMul, FSub, FAdd, RepPartial, RepCompleted, Ed25519, EdwardsCurve;
    var a := FeSquare(p.x);
    var b := FeSquare(p.y);
    var e := FeSquare(p.z);
    e := FeAddReduce(e, e);
    var x := FeAdd(p.x, p.y);
    x := FeSquare(x);
    DoubleResidues(c, Fv(p.x), Fv(p.y), Fv(p.z), q, Fv(a), Fv(b), Fv(e), Fv(x));
    var y := FeAdd(b, a);
    var z := FeSub(b, a);
    x := FeSubAfterBasic(x, y);
    var t := FeSubAfterBasic(e, z);
    r := P1p1(x, y, z, t);
  }

  /** The numerators and denominators of an addition, as residues. */
  lemma SumResidues<G(!new)>(c: Curve<G>, x: int, y: int, z: int, t: int, q: G,
                             m: int, p: int, z2: int, t2: int, r: G, a: int, b: int, e: int, f: int, rz: int, rt: int)
    requires EdwardsCurve(c) && RepFull(c, x, y, z, t, q) && RepCached(c, m, p, z2, t2, r)
    requires a == FMul(c.f, FSub(c.f, y, x), m) && b == FMul(c.f, FAdd(c.f, y, x), p) && Eq(c.f, e, t * t2) && Eq(c.f, f, 2 * (z * z2))
    requires Eq(c.f, rz, f + e) && Eq(c.f, rt, f - e)
    ensures RepCompleted(c, FSub(c.f, b, a), FAdd(c.f, b, a), rz, rt, c.group.add(q, r))
  {
    EqOps(c.f, y, x);
    EqOps(c.f, FSub(c.f, y, x), m);
    EqOps(c.f, FAdd(c.f, y, x), p);
    EqMul(c.f, FSub(c.f, y, x), y - x, m, m);
    EqMul(c.f, FAdd(c.f, y, x), y + x, p, p);
    AddCached(c, x, y, z, t, q, m, p, z2, t2, r, a, b, e, f);
    EqOps(c.f, b, a);
    hide RepCompleted, RepFull, RepCached, EdwardsCurve;
    SameCompleted(c, b - a, b + a, f + e, f - e, FSub(c.f, b, a), FAdd(c.f, b, a), rz, rt, c.group.add(q, r));
  }

  /** The denominator part for an addend with z = 1 or general z, and either sign. */
  lemma Denominators(f: Field, z: int, z2: int, t: int, t2: int, e: int, h: int, g: int)
    requires e == FMul(f, t, t2) && h == FAdd(f, g, g) && Eq(f, g, z * z2)
    ensures Eq(f, e, t * t2) && Eq(f, h, 2 * (z * z2))
    ensures Eq(f, FAdd(f, h, e), h + e) && Eq(f, FSub(f, h, e), h - e)
    ensures Eq(f, -e, t * -t2) && Eq(f, FSub(f, h, e), h + -e) && Eq(f, FAdd(f, h, e), h - -e)
  {
    EqOps(f, t, t2);
    EqOps(f, g, g);
    EqAdd(f, g, z * z2, g, z * z2);
    EqOps(f, h, e);
    EqAdd(f, 0, 0, e, t * t2);
  }

  /** The point a sign bit selects. */
  ghost function Signed<G(!new)>(c: Curve<G>, negative: bool, q: G): G {
    if negative then c.group.neg(q) else q
  }

  lemma SignedSum<G(!new)>(c: Curve<G>, x: int, y: int, z: int, t: int, q: G,
                           m: int, p: int, z2: int, t2: int, r: G, negative: bool, a: int, b: int, e: int, f: int, g: int)
    requires EdwardsCurve(c) && RepFull(c, x, y, z, t, q) && RepCached(c, m, p, z2, t2, r)
    requires a == FMul(c.f, FSub(c.f, y, x), if negative then p else m) && b == FMul(c.f, FAdd(c.f, y, x), if negative then m else p)
    requires e == FMul(c.f, t, t2) && f == FAdd(c.f, g, g) && Eq(c.f, g, z * z2)
    ensures RepCompleted(c, FSub(c.f, b, a), FAdd(c.f, b, a), if negative then FSub(c.f, f, e) else FAdd(c.f, f, e),
                         if negative then FAdd(c.f, f, e) else FSub(c.f, f, e), c.group.add(q, Signed(c, negative, r)))
  {
    hide RepCompleted, RepFull, RepCached, EdwardsCurve, FMul, FSub, FAdd, Eq;
    Denominators(c.f, z, z2, t, t2, e, f, g);
    if negative {
      NegCached(c, m, p, z2, t2, r);
      SumResidues(c, x, y, z, t, q, p, m, z2, -t2, c.group.neg(r), a, b, -e, f, FSub(c.f, f, e), FAdd(c.f, f, e));
    } else {
      SumResidues(c, x, y, z, t, q, m, p, z2, t2, r, a, b, e, f, FAdd(c.f, f, e), FSub(c.f, f, e));
    }
  }

  /** ge25519_pnielsadd_p1p1: the sum with q, or with its negation when the sign bit is set. */
  method PnielsAddP1p1<G(!new)>(p: Point, r: Pniels, negative: bool, ghost c: Curve<G>, ghost q: G, ghost s: G) returns (o: P1p1)
    requires Ed25519(c) && IsPoint(c, p, q) && IsPniels(c, r, s)
    ensures IsP1p1(c, o, c.group.add(q, Signed(c, negative, s)))
  {
    FieldIs(c);
    hide Fv, FMul, FSub, FAdd, RepFull, RepEntry, RepCached, RepCompleted, Ed25519, EdwardsCurve;
    var a := FeSub(p.y, p.x);
    var b := FeAdd(p.y, p.x);
    a := FeMul(a, if negative then r.xaddy else r.ysubx);
    var x := FeMul(b, if negative then r.ysubx else r.xaddy);
    var y := FeAdd(x, a);
    ghost var b' := Fv(x);
    x := FeSub(x, a);
    var e := FeMul(p.t, r.t2d);
    var t := FeMul(p.z, r.z);
    EqOps(c.f, Fv(p.z), Fv(r.z));
    ghost var g := Fv(t);
    t := FeAddReduce(t, t);
    SignedSum(c, Fv(p.x), Fv(p.y), Fv(p.z), Fv(p.t), q, Fv(r.ysubx), Fv(r.xaddy), Fv(r.z), Fv(r.t2d), s, negative,
              Fv(a), b', Fv(e), Fv(t), g);
    var plus := FeAdd(t, e);
    var minus := FeSub(t, e);
    o := P1p1(x, y, if negative then minus else plus, if negative then plus else minus);
  }

  /** ge25519_nielsadd2_p1p1: the same with z = 1. */
  method NielsAddP1p1<G(!new)>(p: Point, r: Niels, negative: bool, ghost c: Curve<G>, ghost q: G, ghost s: G) returns (o: P1p1)
    requires Ed25519(c) && IsPoint(c, p, q) && IsNiels(c, r, s)
    ensures IsP1p1(c, o, c.group.add(q, Signed(c, negative, s)))
  {
    FieldIs(c);
    hide Fv, FMul, FSub, FAdd, RepFull, RepEntry, RepCached, RepCompleted, Ed25519, EdwardsCurve;
    var a := FeSub(p.y, p.x);
    var b := FeAdd(p.y, p.x);
    a := FeMul(a, if negative then r.xaddy else r.ysubx);
    var x := FeMul(b, if negative then r.ysubx else r.xaddy);
    var y := FeAdd(x, a);
    ghost var b' := Fv(x);
    x := FeSub(x, a);
    var e := FeMul(p.t, r.t2d);
    var t := FeAddReduce(p.z, p.z);
    EntryIsCached(c, Fv(r.ysubx), Fv(r.xaddy), Fv(r.t2d), s);
    TimesOne(Fv(p.z));
    SignedSum(c, Fv(p.x), Fv(p.y), Fv(p.z), Fv(p.t), q, Fv(r.ysubx), Fv(r.xaddy), 1, Fv(r.t2d), s, negative,
              Fv(a), b', Fv(e), Fv(t), Fv(p.z));
    var plus := FeAdd(t, e);
    var minus := FeSub(t, e);
    o := P1p1(x, y, if negative then minus else plus, if negative then plus else minus);
  }

  /** ge25519_add_p1p1. */
  method AddP1p1<G(!new)>(p: Point, r: Point, ghost c: Curve<G>, ghost q: G, ghost s: G) returns (o: P1p1)
    requires Ed25519(c) && IsPoint(c, p, q) && IsPoint(c, r, s)
    ensures IsP1p1(c, o, c.group.add(q, s))
  {
    EC2DValue();
    FieldIs(c);
    hide Fv, FMul, FSub, FAdd, RepFull, RepEntry, RepCached, RepCompleted, Ed25519, EdwardsCurve;
    var a := FeSub(p.y, p.x);
    var b := FeAdd(p.y, p.x);
    var t := FeSub(r.y, r.x);
    var u := FeAdd(r.y, r.x);
    a := FeMul(a, t);
    b := FeMul(b, u);
    var e := FeMul(p.t, r.t);
    e := FeMul(e, EC2D);
    var f := FeMul(p.z, r.z);
    EqOps(c.f, Fv(p.z), Fv(r.z));
    ghost var g := Fv(f);
    f := FeAdd(f, f);
    AddResidues(c, p, r, q, s, Fv(a), Fv(b), Fv(e), Fv(f), g);
    var x := FeSub(b, a);
    var y := FeAdd(b, a);
    var z := FeAdd(f, e);
    var t3 := FeSubAfterBasic(f, e);
    o := P1p1(x, y, z, t3);
  }

  lemma AddResidues<G(!new)>(c: Curve<G>, p: Point, r: Point, q: G, s: G, a: int, b: int, e: int, f: int, g: int)
    requires Ed25519(c) && IsPoint(c, p, q) && IsPoint(c, r, s)
    requires a == FMul(c.f, FSub(c.f, Fv(p.y), Fv(p.x)), FSub(c.f, Fv(r.y), Fv(r.x)))
    requires b == FMul(c.f, FAdd(c.f, Fv(p.y), Fv(p.x)), FAdd(c.f, Fv(r.y), Fv(r.x)))
    requires e == FMul(c.f, FMul(c.f, Fv(p.t), Fv(r.t)), Fv(EC2D)) && f == FAdd(c.f, g, g) && Eq(c.f, g, Fv(p.z) * Fv(r.z))
    ensures RepCompleted(c, FSub(c.f, b, a), FAdd(c.f, b, a), FAdd(c.f, f, e), FSub(c.f, f, e), c.group.add(q, s))
  {
    FieldIs(c);
    EC2DValue();
    CachedResidues(c, Fv(r.x), Fv(r.y), Fv(r.z), Fv(r.t), s, Fv(EC2D));
    MulShuffle(c.f, Fv(p.t), Fv(r.t), Fv(EC2D));
    hide Fv, FMul, FSub, FAdd, RepFull, RepEntry, RepCached, RepCompleted, EdwardsCurve;
    SignedSum(c, Fv(p.x), Fv(p.y), Fv(p.z), Fv(p.t), q, FSub(c.f, Fv(r.y), Fv(r.x)), FAdd(c.f, Fv(r.y), Fv(r.x)), Fv(r.z),
              FMul(c.f, Fv(r.t), Fv(EC2D)), s, false, a, b, e, f, g);
  }

  lemma MulShuffle(f: Field, x: int, y: int, z: int)
    ensures FMul(f, FMul(f, x, y), z) == FMul(f, x, FMul(f, y, z))
  {
    EqOps(f, x, y);
    EqOps(f, y, z);
    EqMul(f, FMul(f, x, y), x * y, z, z);
    EqMul(f, x, x, FMul(f, y, z), y * z);
    MulAssoc(x, y, z);
  }

  /** ge25519_double_partial. */
  method DoublePartial<G(!new)>(r: Point, p: Point, ghost c: Curve<G>, ghost q: G) returns (r': Point)
    requires Ed25519(c) && IsPartial(c, p, q)
    ensures IsPartial(c, r', c.group.add(q, q)) && r'.t == r.t
  {
    FieldIs(c);
    hide IsPartial, IsP1p1, Ed25519, EdwardsCurve;
    var t := DoubleP1p1(p, c, q);
    r' := P1p1ToPartial(r, t, c, c.group.add(q, q));
  }

  /** ge25519_double. */
  method Double<G(!new)>(p: Point, ghost c: Curve<G>, ghost q: G) returns (r: Point)
    requires Ed25519(c) && IsPartial(c, p, q)
    ensures IsPoint(c, r, c.group.add(q, q))
  {
    FieldIs(c);
    hide IsPartial, IsP1p1, IsPoint, Ed25519, EdwardsCurve;
    var t := DoubleP1p1(p, c, q);
    r := P1p1ToFull(t, c, c.group.add(q, q));
  }

  /** ge25519_add. */
  method AddPoints<G(!new)>(p: Point, r: Point, ghost c: Curve<G>, ghost q: G, ghost s: G) returns (o: Point)
    requires Ed25519(c) && IsPoint(c, p, q) && IsPoint(c, r, s)
    ensures IsPoint(c, o, c.group.add(q, s))
  {
    FieldIs(c);
    hide IsP1p1, IsPoint, Ed25519, EdwardsCurve;
    var t := AddP1p1(p, r, c, q, s);
    o := P1p1ToFull(t, c, c.group.add(q, s));
  }

  /** ge25519_nielsadd2. */
  method NielsAdd2<G(!new)>(r: Point, p: Niels, ghost c: Curve<G>, ghost q: G, ghost s: G) returns (o: Point)
    requires Ed25519(c) && IsPoint(c, r, q) && IsNiels(c, p, s)
    ensures IsPoint(c, o, c.group.add(q, s))
  {
    FieldIs(c);
    hide Fv, FMul, FSub, FAdd, RepFull, RepEntry, RepCached, RepCompleted, Ed25519, EdwardsCurve;
    var a := FeSub(r.y, r.x);
    var b := FeAdd(r.y, r.x);
    a := FeMul(a, p.ysubx);
    var e := FeMul(b, p.xaddy);
    ghost var b' := Fv(e);
    var h := FeAdd(e, a);
    e := FeSub(e, a);
    var d := FeMul(r.t, p.t2d);
    var f := FeAdd(r.z, r.z);
    EntryIsCached(c, Fv(p.ysubx), Fv(p.xaddy), Fv(p.t2d), s);
    TimesOne(Fv(r.z));
    SignedSum(c, Fv(r.x), Fv(r.y), Fv(r.z), Fv(r.t), q, Fv(p.ysubx), Fv(p.xaddy), 1, Fv(p.t2d), s, false,
              Fv(a), b', Fv(d), Fv(f), Fv(r.z));
    var g := FeAdd(f, d);
    f := FeSubAfterBasic(f, d);
    o := P1p1ToFull(P1p1(e, h, g, f), c, c.group.add(q, s));
  }

  /** ge25519_pnielsadd: the sum, again in precomputed form. */
  method PnielsAdd<G(!new)>(p: Point, r: Pniels, ghost c: Curve<G>, ghost q: G, ghost s: G) returns (o: Pniels)
    requires Ed25519(c) && IsPoint(c, p, q) && IsPniels(c, r, s)
    ensures IsPniels(c, o, c.group.add(q, s))
  {
    FieldIs(c);
    hide Fv, FMul, FSub, FAdd, RepFull, RepEntry, RepCached, RepCompleted, Ed25519, EdwardsCurve;
    var a := FeSub(p.y, p.x);
    var b := FeAdd(p.y, p.x);
    a := FeMul(a, r.ysubx);
    var x := FeMul(b, r.xaddy);
    ghost var b' := Fv(x);
    var y := FeAdd(x, a);
    x := FeSub(x, a);
    var d := FeMul(p.t, r.t2d);
    var t := FeMul(p.z, r.z);
    EqOps(c.f, Fv(p.z), Fv(r.z));
    ghost var g := Fv(t);
    t := FeAdd(t, t);
    SignedSum(c, Fv(p.x), Fv(p.y), Fv(p.z), Fv(p.t), q, Fv(r.ysubx), Fv(r.xaddy), Fv(r.z), Fv(r.t2d), s, false,
              Fv(a), b', Fv(d), Fv(t), g);
    var z := FeAdd(t, d);
    t := FeSubAfterBasic(t, d);
    o := CompletedToPniels(P1p1(x, y, z, t), c, c.group.add(q, s));
  }

  method CompletedToPniels<G(!new)>(p: P1p1, ghost c: Curve<G>, ghost q: G) returns (o: Pniels)
    requires Ed25519(c) && IsP1p1(c, p, q)
    ensures IsPniels(c, o, q)
  {
    FieldIs(c);
    FullResidues(c, Fv(p.x), Fv(p.y), Fv(p.z), Fv(p.t), q);
    EC2DValue();
    CachedResidues(c, FMul(c.f, Fv(p.x), Fv(p.t)), FMul(c.f, Fv(p.y), Fv(p.z)), FMul(c.f, Fv(p.z), Fv(p.t)), FMul(c.f, Fv(p.x), Fv(p.y)), q, Fv(EC2D));
    hide Fv, FMul, FSub, FAdd, RepFull, RepEntry, RepCached, RepCompleted, Ed25519, EdwardsCurve;
    var xaddy := FeMul(p.x, p.t);
    var ysubx := FeMul(p.y, p.z);
    var z := FeMul(p.z, p.t);
    var t2d := FeMul(p.x, p.y);
    var y := ysubx;
    ysubx := FeSub(ysubx, xaddy);
    FAddComm(c.f, Fv(xaddy), Fv(y));
    xaddy := FeAdd(xaddy, y);
    t2d := FeMul(t2d, EC2D);
    o := Pniels(ysubx, xaddy, z, t2d);
  }

  lemma FAddComm(f: Field, x: int, y: int)
    ensures FAdd(f, x, y) == FAdd(f, y, x)
  {}
}
