/**
 The curve -x^2 + y^2 = 1 + d x^2 y^2 as an abelian group whose elements have
 affine coordinates, and the coordinate forms the point formulas work on. That the
 points form a group and that the denominators of the addition law never vanish
 are hypotheses here, as is the primality of the modulus.
 */
module Edwards {
  import opened Arithmetic
  import opened Residues
  import opened Field51
  import opened AbelianGroup

  lemma Field25519()
    ensures Suitable(F25519) && (121666 * D + 121665) % P == 0
  {}

  /** A group of points with their affine coordinates, and the point at given coordinates. */
  datatype Curve<!G> = Curve(group: Group<G>, x: G -> int, y: G -> int, at: (int, int) -> G, f: Field)

  /** The curve equation. */
  ghost predicate Solves(f: Field, x: int, y: int) {
    Eq(f, y * y - x * x, 1 + f.d * ((x * x) * (y * y)))
  }

  ghost predicate OnCurve<G(!new)>(c: Curve<G>, q: G) {
    Solves(c.f, c.x(q), c.y(q))
  }

  /** The product d x1 x2 y1 y2 of the addition law. */
  ghost function Delta(f: Field, x1: int, y1: int, x2: int, y2: int): int {
    f.d * ((x1 * x2) * (y1 * y2))
  }

  /** The addition law of section 5.1.4 of RFC 8032, with its denominators multiplied out. */
  ghost predicate AddLaw<G(!new)>(c: Curve<G>, q: G, r: G) {
    var s := c.group.add(q, r);
    var e := Delta(c.f, c.x(q), c.y(q), c.x(r), c.y(r));
    && Nonzero(c.f, 1 + e) && Nonzero(c.f, 1 - e)
    && Eq(c.f, c.x(s) * (1 + e), c.x(q) * c.y(r) + c.x(r) * c.y(q))
    && Eq(c.f, c.y(s) * (1 - e), c.y(q) * c.y(r) + c.x(q) * c.x(r))
  }

  ghost predicate NegLaw<G(!new)>(c: Curve<G>, q: G) {
    Eq(c.f, c.x(c.group.neg(q)), -c.x(q)) && Eq(c.f, c.y(c.group.neg(q)), c.y(q))
  }

  ghost predicate EdwardsCurve<G(!new)>(c: Curve<G>) {
    && Abelian(c.group) && PrimeField(c.f)
    && (forall q {:trigger OnCurve(c, q)} :: OnCurve(c, q))
    && (forall q, r {:trigger AddLaw(c, q, r)} :: AddLaw(c, q, r))
    && (forall q {:trigger NegLaw(c, q)} :: NegLaw(c, q))
    && Eq(c.f, c.x(c.group.zero), 0) && Eq(c.f, c.y(c.group.zero), 1)
  }

  /** Solutions of the curve equation are points. */
  ghost predicate PointAt<G(!new)>(c: Curve<G>, x: int, y: int) {
    Solves(c.f, x, y) ==> Eq(c.f, c.x(c.at(x, y)), x) && Eq(c.f, c.y(c.at(x, y)), y)
  }

  /** Points are determined by their coordinates. */
  ghost predicate SamePoint<G(!new)>(c: Curve<G>, q: G, r: G) {
    Eq(c.f, c.x(q), c.x(r)) && Eq(c.f, c.y(q), c.y(r)) ==> q == r
  }

  ghost predicate EveryPoint<G(!new)>(c: Curve<G>) {
    && (forall x, y {:trigger PointAt(c, x, y)} :: PointAt(c, x, y))
    && (forall q, r {:trigger SamePoint(c, q, r)} :: SamePoint(c, q, r))
  }

  /** v is z times w, coordinate by coordinate. */
  ghost predicate Scaled(f: Field, v: seq<int>, w: seq<int>, z: int) {
    |v| == |w| && forall i :: 0 <= i < |v| ==> Eq(f, v[i], w[i] * z)
  }

  lemma ScaledPair(f: Field, x: int, y: int, u: int, v: int, z: int)
    ensures Scaled(f, [x, y], [u, v], z) <==> Eq(f, x, u * z) && Eq(f, y, v * z)
  {
    hide Eq;
    assert [x, y][0] == x && [x, y][1] == y && [u, v][0] == u && [u, v][1] == v;
  }

  lemma ScaledTriple(f: Field, x: int, y: int, t: int, u: int, v: int, w: int, z: int)
    ensures Scaled(f, [x, y, t], [u, v, w], z) <==> Eq(f, x, u * z) && Eq(f, y, v * z) && Eq(f, t, w * z)
  {
    hide Eq;
    assert [x, y, t][0] == x && [x, y, t][1] == y && [x, y, t][2] == t;
    assert [u, v, w][0] == u && [u, v, w][1] == v && [u, v, w][2] == w;
  }

  /** Projective coordinates of q. */
  ghost predicate RepPartial<G(!new)>(c: Curve<G>, x: int, y: int, z: int, q: G) {
    Nonzero(c.f, z) && Scaled(c.f, [x, y], [c.x(q), c.y(q)], z)
  }

  /** Extended coordinates: also T = XY/Z. */
  ghost predicate RepFull<G(!new)>(c: Curve<G>, x: int, y: int, z: int, t: int, q: G) {
    Nonzero(c.f, z) && Scaled(c.f, [x, y, t], [c.x(q), c.y(q), c.x(q) * c.y(q)], z)
  }

  /** Completed coordinates: q = (X/Z, Y/T). */
  ghost predicate RepCompleted<G(!new)>(c: Curve<G>, x: int, y: int, z: int, t: int, q: G) {
    Nonzero(c.f, z) && Nonzero(c.f, t) && Scaled(c.f, [x], [c.x(q)], z) && Scaled(c.f, [y], [c.y(q)], t)
  }

  /** The precomputed form of an addend. */
  ghost predicate RepCached<G(!new)>(c: Curve<G>, ysubx: int, xaddy: int, z: int, t2d: int, q: G) {
    && Nonzero(c.f, z)
    && Scaled(c.f, [ysubx, xaddy, t2d], [c.y(q) - c.x(q), c.y(q) + c.x(q), 2 * c.f.d * (c.x(q) * c.y(q))], z)
  }

  /** The precomputed form with z = 1, and k times the product xy. */
  ghost predicate RepEntry<G(!new)>(c: Curve<G>, ysubx: int, xaddy: int, t: int, k: int, q: G) {
    Scaled(c.f, [ysubx, xaddy, t], [c.y(q) - c.x(q), c.y(q) + c.x(q), k * (c.x(q) * c.y(q))], 1)
  }

  lemma PartialIff<G(!new)>(c: Curve<G>, x: int, y: int, z: int, q: G)
    ensures RepPartial(c, x, y, z, q) <==> Nonzero(c.f, z) && Eq(c.f, x, c.x(q) * z) && Eq(c.f, y, c.y(q) * z)
  {
    ScaledPair(c.f, x, y, c.x(q), c.y(q), z);
  }

  lemma FullIff<G(!new)>(c: Curve<G>, x: int, y: int, z: int, t: int, q: G)
    ensures RepFull(c, x, y, z, t, q) <==> RepPartial(c, x, y, z, q) && Eq(c.f, t, (c.x(q) * c.y(q)) * z)
  {
    ScaledPair(c.f, x, y, c.x(q), c.y(q), z);
    ScaledTriple(c.f, x, y, t, c.x(q), c.y(q), c.x(q) * c.y(q), z);
  }

  lemma CompletedIff<G(!new)>(c: Curve<G>, x: int, y: int, z: int, t: int, q: G)
    ensures RepCompleted(c, x, y, z, t, q) <==> Nonzero(c.f, z) && Nonzero(c.f, t) && Eq(c.f, x, c.x(q) * z) && Eq(c.f, y, c.y(q) * t)
  {
    ScaledPair(c.f, x, x, c.x(q), c.x(q), z);
    assert [x][0] == x && [y][0] == y && [c.x(q)][0] == c.x(q) && [c.y(q)][0] == c.y(q);
  }

  lemma CachedIff<G(!new)>(c: Curve<G>, ysubx: int, xaddy: int, z: int, t2d: int, q: G)
    ensures RepCached(c, ysubx, xaddy, z, t2d, q) <==>
            && Nonzero(c.f, z)
            && Eq(c.f, ysubx, (c.y(q) - c.x(q)) * z) && Eq(c.f, xaddy, (c.y(q) + c.x(q)) * z)
            && Eq(c.f, t2d, (2 * c.f.d * (c.x(q) * c.y(q))) * z)
  {
    ScaledTriple(c.f, ysubx, xaddy, t2d, c.y(q) - c.x(q), c.y(q) + c.x(q), 2 * c.f.d * (c.x(q) * c.y(q)), z);
  }

  lemma EntryIff<G(!new)>(c: Curve<G>, ysubx: int, xaddy: int, t: int, k: int, q: G)
    ensures RepEntry(c, ysubx, xaddy, t, k, q) <==>
            Eq(c.f, ysubx, c.y(q) - c.x(q)) && Eq(c.f, xaddy, c.y(q) + c.x(q)) && Eq(c.f, t, k * (c.x(q) * c.y(q)))
  {
    ScaledTriple(c.f, ysubx, xaddy, t, c.y(q) - c.x(q), c.y(q) + c.x(q), k * (c.x(q) * c.y(q)), 1);
    TimesOne(c.y(q) - c.x(q));
    TimesOne(c.y(q) + c.x(q));
    TimesOne(k * (c.x(q) * c.y(q)));
  }

  lemma TimesOne(x: int)
    ensures x * 1 == x
  {}

  lemma EntryIsCached<G(!new)>(c: Curve<G>, ysubx: int, xaddy: int, t: int, q: G)
    requires RepEntry(c, ysubx, xaddy, t, 2 * c.f.d, q)
    ensures RepCached(c, ysubx, xaddy, 1, t, q)
  {
    SmallMod(1, c.f.p);
  }

  /** Affine coordinates with their product, over z = 1. */
  lemma AffineIsFull<G(!new)>(c: Curve<G>, x: int, y: int, q: G)
    requires Eq(c.f, x, c.x(q)) && Eq(c.f, y, c.y(q))
    ensures RepFull(c, x, y, 1, FMul(c.f, x, y), q) && RepPartial(c, x, y, 1, q)
  {
    EqOps(c.f, x, y);
    EqMul(c.f, x, c.x(q), y, c.y(q));
    TimesOne(c.x(q));
    TimesOne(c.y(q));
    TimesOne(c.x(q) * c.y(q));
    SmallMod(1, c.f.p);
    PartialIff(c, x, y, 1, q);
    FullIff(c, x, y, 1, FMul(c.f, x, y), q);
  }

  /** Extended coordinates satisfy XY = ZT. */
  lemma ExtendedRelation<G(!new)>(c: Curve<G>, x: int, y: int, z: int, t: int, q: G)
    requires RepFull(c, x, y, z, t, q)
    ensures Eq(c.f, x * y, z * t)
  {
    var (u, v) := (c.x(q), c.y(q));
    FullIff(c, x, y, z, t, q);
    PartialIff(c, x, y, z, q);
    EqMul(c.f, x, u * z, y, v * z);
    EqMul(c.f, z, z, t, (u * v) * z);
    Regroup(u, v, z);
  }

  lemma Regroup(u: int, v: int, z: int)
    ensures (u * z) * (v * z) == z * ((u * v) * z)
  {}

  /** Completed coordinates give extended ones by four products. */
  lemma CompletedToFull<G(!new)>(c: Curve<G>, x: int, y: int, z: int, t: int, q: G)
    requires PrimeField(c.f) && RepCompleted(c, x, y, z, t, q)
    ensures RepFull(c, x * t, y * z, z * t, x * y, q)
  {
    var (u, v) := (c.x(q), c.y(q));
    CompletedIff(c, x, y, z, t, q);
    PartialIff(c, x * t, y * z, z * t, q);
    FullIff(c, x * t, y * z, z * t, x * y, q);
    NonzeroMul(c.f, z, t);
    EqMul(c.f, x, u * z, t, t);
    EqMul(c.f, y, v * t, z, z);
    EqMul(c.f, x, u * z, y, v * t);
    MulAssoc(u, z, t);
    MulAssoc(v, t, z);
    Interleave(u, z, v, t);
  }

  lemma Interleave(u: int, z: int, v: int, t: int)
    ensures (u * z) * (v * t) == (u * v) * (z * t)
  {}

  /** A common factor k of numerators and denominators. */
  lemma Completed<G(!new)>(c: Curve<G>, x: int, y: int, z: int, t: int, q: G, k: int, sx: int, sy: int, dx: int, dy: int)
    requires PrimeField(c.f) && Nonzero(c.f, k) && Nonzero(c.f, dx) && Nonzero(c.f, dy)
    requires Eq(c.f, x, k * sx) && Eq(c.f, y, k * sy) && Eq(c.f, z, k * dx) && Eq(c.f, t, k * dy)
    requires Eq(c.f, c.x(q) * dx, sx) && Eq(c.f, c.y(q) * dy, sy)
    ensures RepCompleted(c, x, y, z, t, q)
  {
    CompletedIff(c, x, y, z, t, q);
    NonzeroMul(c.f, k, dx);
    NonzeroMul(c.f, k, dy);
    Quotient(c.f, x, z, k, sx, dx, c.x(q));
    Quotient(c.f, y, t, k, sy, dy, c.y(q));
  }

  lemma Quotient(f: Field, x: int, z: int, k: int, s: int, d: int, u: int)
    requires Eq(f, x, k * s) && Eq(f, z, k * d) && Eq(f, u * d, s)
    ensures Eq(f, x, u * z)
  {
    EqMul(f, k, k, u * d, s);
    EqMul(f, u, u, z, k * d);
    Swap(k, u, d);
  }

  lemma Swap(k: int, u: int, d: int)
    ensures k * (u * d) == u * (k * d)
  {}

  /** The numerators and denominators of a sum, from extended and precomputed coordinates. */
  lemma SumParts(f: Field, x1: int, y1: int, z1: int, x2: int, y2: int, z2: int)
    ensures ((y1 + x1) * z1) * ((y2 + x2) * z2) - ((y1 - x1) * z1) * ((y2 - x2) * z2) == (2 * (z1 * z2)) * (x1 * y2 + x2 * y1)
    ensures ((y1 + x1) * z1) * ((y2 + x2) * z2) + ((y1 - x1) * z1) * ((y2 - x2) * z2) == (2 * (z1 * z2)) * (y1 * y2 + x1 * x2)
    ensures ((x1 * y1) * z1) * ((2 * f.d * (x2 * y2)) * z2) == (2 * (z1 * z2)) * Delta(f, x1, y1, x2, y2)
  {}

  /** Sums and differences of the coordinates of q, over z. */
  lemma SumsOfCoordinates(f: Field, x: int, y: int, z: int, u: int, v: int)
    requires Eq(f, x, u * z) && Eq(f, y, v * z)
    ensures Eq(f, y - x, (v - u) * z) && Eq(f, y + x, (v + u) * z)
  {
    EqAdd(f, y, v * z, x, u * z);
    MulDist(v, u, z);
  }

  /**
   The addition formula: with a = (Y-X)(ysubx), b = (Y+X)(xaddy), e = T(t2d) and
   f = 2Z(z), the sum is (b - a : b + a : f + e : f - e).
   */
  lemma AddCached<G(!new)>(c: Curve<G>, x: int, y: int, z: int, t: int, q: G,
                           ysubx: int, xaddy: int, z2: int, t2d: int, r: G, a: int, b: int, e: int, f: int)
    requires EdwardsCurve(c) && RepFull(c, x, y, z, t, q) && RepCached(c, ysubx, xaddy, z2, t2d, r)
    requires Eq(c.f, a, (y - x) * ysubx) && Eq(c.f, b, (y + x) * xaddy) && Eq(c.f, e, t * t2d) && Eq(c.f, f, 2 * (z * z2))
    ensures RepCompleted(c, b - a, b + a, f + e, f - e, c.group.add(q, r))
  {
    var (x1, y1, x2, y2) := (c.x(q), c.y(q), c.x(r), c.y(r));
    var k, d := 2 * (z * z2), Delta(c.f, x1, y1, x2, y2);
    FullIff(c, x, y, z, t, q);
    PartialIff(c, x, y, z, q);
    CachedIff(c, ysubx, xaddy, z2, t2d, r);
    SumsOfCoordinates(c.f, x, y, z, x1, y1);
    EqMul(c.f, y - x, (y1 - x1) * z, ysubx, (y2 - x2) * z2);
    EqMul(c.f, y + x, (y1 + x1) * z, xaddy, (y2 + x2) * z2);
    EqMul(c.f, t, (x1 * y1) * z, t2d, (2 * c.f.d * (x2 * y2)) * z2);
    SumParts(c.f, x1, y1, z, x2, y2, z2);
    EqAdd(c.f, b, ((y1 + x1) * z) * ((y2 + x2) * z2), a, ((y1 - x1) * z) * ((y2 - x2) * z2));
    EqAdd(c.f, f, k, e, k * d);
    MulDist(1, d, k);
    assert AddLaw(c, q, r);
    TwiceNonzero(c.f, z, z2);
    hide Delta, Eq;
    Completed(c, b - a, b + a, f + e, f - e, c.group.add(q, r), k, x1 * y2 + x2 * y1, y1 * y2 + x1 * x2, 1 + d, 1 - d);
  }

  lemma TwiceNonzero(f: Field, z: int, w: int)
    requires PrimeField(f) && Nonzero(f, z) && Nonzero(f, w)
    ensures Nonzero(f, 2 * (z * w))
  {
    SmallMod(2, f.p);
    NonzeroMul(f, z, w);
    NonzeroMul(f, 2, z * w);
  }

  /** Doubling: with a = X^2, b = Y^2 and e = 2Z^2, twice q is ((X+Y)^2 - (b+a) : b + a : b - a : e - (b - a)). */
  lemma DoubleCompleted<G(!new)>(c: Curve<G>, x: int, y: int, z: int, q: G, a: int, b: int, e: int, w: int)
    requires EdwardsCurve(c) && RepPartial(c, x, y, z, q)
    requires Eq(c.f, a, x * x) && Eq(c.f, b, y * y) && Eq(c.f, e, 2 * (z * z)) && Eq(c.f, w, (x + y) * (x + y))
    ensures RepCompleted(c, w - (b + a), b + a, b - a, e - (b - a), c.group.add(q, q))
  {
    var (u, v) := (c.x(q), c.y(q));
    var k, d := z * z, Delta(c.f, u, v, u, v);
    PartialIff(c, x, y, z, q);
    SumsOfCoordinates(c.f, x, y, z, u, v);
    EqMul(c.f, x, u * z, x, u * z);
    EqMul(c.f, y, v * z, y, v * z);
    EqMul(c.f, x + y, (v + u) * z, x + y, (v + u) * z);
    SquareParts(u, v, z);
    EqAdd(c.f, b, k * (v * v), a, k * (u * u));
    EqAdd(c.f, w, k * ((v + u) * (v + u)), b + a, k * (v * v) + k * (u * u));
    assert OnCurve(c, q);
    DeltaSquare(c.f, u, v);
    EqMul(c.f, k, k, v * v - u * u, 1 + d);
    MulDist(v * v, u * u, k);
    EqAdd(c.f, e, 2 * k, b - a, k * (1 + d));
    DoubleIdentity(k, d, u, v);
    assert AddLaw(c, q, q);
    NonzeroMul(c.f, z, z);
    hide Delta, Eq;
    Completed(c, w - (b + a), b + a, b - a, e - (b - a), c.group.add(q, q), k, u * v + u * v, v * v + u * u, 1 + d, 1 - d);
  }

  lemma SquareParts(u: int, v: int, z: int)
    ensures (u * z) * (u * z) == (z * z) * (u * u) && (v * z) * (v * z) == (z * z) * (v * v)
    ensures ((v + u) * z) * ((v + u) * z) == (z * z) * ((v + u) * (v + u))
  {}

  lemma DeltaSquare(f: Field, u: int, v: int)
    ensures Delta(f, u, v, u, v) == f.d * ((u * u) * (v * v))
  {}

  lemma DoubleIdentity(k: int, d: int, u: int, v: int)
    ensures k * ((v + u) * (v + u)) - (k * (v * v) + k * (u * u)) == k * (u * v + u * v)
    ensures k * (v * v) + k * (u * u) == k * (v * v + u * u)
    ensures 2 * k - k * (1 + d) == k * (1 - d)
  {}

  /** Precomputed coordinates of the negated point: the first two swapped, the last negated. */
  lemma NegCached<G(!new)>(c: Curve<G>, ysubx: int, xaddy: int, z: int, t2d: int, q: G)
    requires EdwardsCurve(c) && RepCached(c, ysubx, xaddy, z, t2d, q)
    ensures RepCached(c, xaddy, ysubx, z, -t2d, c.group.neg(q))
  {
    var (x, y) := (c.x(q), c.y(q));
    var (u, v) := (c.x(c.group.neg(q)), c.y(c.group.neg(q)));
    CachedIff(c, ysubx, xaddy, z, t2d, q);
    CachedIff(c, xaddy, ysubx, z, -t2d, c.group.neg(q));
    assert NegLaw(c, q);
    EqAdd(c.f, v, y, u, -x);
    EqMul(c.f, v - u, y + x, z, z);
    EqMul(c.f, v + u, y - x, z, z);
    EqMul(c.f, u, -x, v, y);
    EqMul(c.f, 2 * c.f.d, 2 * c.f.d, u * v, -x * y);
    EqMul(c.f, 2 * c.f.d * (u * v), 2 * c.f.d * (-x * y), z, z);
    EqAdd(c.f, 0, 0, t2d, (2 * c.f.d * (x * y)) * z);
    NegIdentity(c.f, x, y, z);
  }

  lemma NegIdentity(f: Field, x: int, y: int, z: int)
    ensures (2 * f.d * (-x * y)) * z == 0 - (2 * f.d * (x * y)) * z
  {}

  /** The precomputed form of extended coordinates. */
  lemma FullToCached<G(!new)>(c: Curve<G>, x: int, y: int, z: int, t: int, q: G, t2d: int)
    requires RepFull(c, x, y, z, t, q) && Eq(c.f, t2d, t * (2 * c.f.d))
    ensures RepCached(c, y - x, y + x, z, t2d, q)
  {
    var (u, v) := (c.x(q), c.y(q));
    FullIff(c, x, y, z, t, q);
    PartialIff(c, x, y, z, q);
    CachedIff(c, y - x, y + x, z, t2d, q);
    SumsOfCoordinates(c.f, x, y, z, u, v);
    EqMul(c.f, t, (u * v) * z, 2 * c.f.d, 2 * c.f.d);
    CachedIdentity(c.f, u, v, z);
  }

  lemma CachedIdentity(f: Field, u: int, v: int, z: int)
    ensures ((u * v) * z) * (2 * f.d) == (2 * f.d * (u * v)) * z
  {}
}
