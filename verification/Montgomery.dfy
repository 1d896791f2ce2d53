/**
 The Montgomery ladder of the reference implementation, on residues. A pair (X : Z)
 stands for a point up to sign; how such pairs are doubled and added when their
 difference is known is a hypothesis about the curve.
 */
module Montgomery {
  import opened Arithmetic
  import opened Limbs
  import opened AbelianGroup
  import opened Field51
  import opened FieldPower
  import opened FieldEncoding
  import opened Residues
  import opened Clamping
  import Bytes = ScalarEncoding

  const A: int := 486662

  /** The curve of section 4.1 of RFC 7748, and the factor (A + 2)/4 of the code. */
  lemma CurveConstant()
    ensures A == 486662 && 4 * 121666 == A + 2
  {}

  /** Points with the pairs that stand for them and their X coordinates. */
  datatype XLine<!G> = XLine(group: Group<G>, rep: (int, int, G) -> bool, coord: G -> int, f: Field)

  /** Pairs of equal residues stand for the same points. */
  ghost predicate RepMod<G(!new)>(c: XLine<G>, x: int, z: int, x': int, z': int, q: G) {
    Eq(c.f, x, x') && Eq(c.f, z, z') && c.rep(x, z, q) ==> c.rep(x', z', q)
  }

  /** A pair with Z other than 0 has the coordinate X/Z. */
  ghost predicate CoordLaw<G(!new)>(c: XLine<G>, x: int, z: int, q: G) {
    c.rep(x, z, q) && Nonzero(c.f, z) ==> Eq(c.f, x, c.coord(q) * z)
  }

  /** Z is 0 exactly for the neutral element. */
  ghost predicate ZeroLaw<G(!new)>(c: XLine<G>, x: int, z: int, q: G) {
    c.rep(x, z, q) ==> (Nonzero(c.f, z) <==> q != c.group.zero)
  }

  /** The pairs tell the neutral element from the others. */
  ghost predicate Faithful<G(!new)>(c: XLine<G>) {
    forall x, z, q {:trigger ZeroLaw(c, x, z, q)} :: ZeroLaw(c, x, z, q)
  }

  function DoubleX(x: int, z: int): int {
    (x * x - z * z) * (x * x - z * z)
  }

  function DoubleZ(x: int, z: int): int {
    4 * (x * z) * (x * x + A * (x * z) + z * z)
  }

  /** Doubling, from section 5 of RFC 7748. */
  ghost predicate DoubleLaw<G(!new)>(c: XLine<G>, x: int, z: int, q: G) {
    c.rep(x, z, q) ==> c.rep(DoubleX(x, z), DoubleZ(x, z), c.group.add(q, q))
  }

  function SumX(x2: int, z2: int, x3: int, z3: int): int {
    4 * ((x2 * x3 - z2 * z3) * (x2 * x3 - z2 * z3))
  }

  function SumZ(x1: int, x2: int, z2: int, x3: int, z3: int): int {
    x1 * (4 * ((x3 * z2 - x2 * z3) * (x3 * z2 - x2 * z3)))
  }

  /** Adding points whose difference has the coordinate x1. */
  ghost predicate DifferentialLaw<G(!new)>(c: XLine<G>, x1: int, base: G, x2: int, z2: int, x3: int, z3: int, q: G) {
    c.rep(x2, z2, q) && c.rep(x3, z3, c.group.add(q, base)) ==>
      c.rep(SumX(x2, z2, x3, z3), SumZ(x1, x2, z2, x3, z3), c.group.add(q, c.group.add(q, base)))
  }

  /** The hypotheses about the curve and a point with coordinate x1. */
  ghost predicate MontgomeryCurve<G(!new)>(c: XLine<G>, x1: int, base: G) {
    && Abelian(c.group)
    && (forall x, z, x', z', q {:trigger RepMod(c, x, z, x', z', q)} :: RepMod(c, x, z, x', z', q))
    && (forall x, z, q {:trigger CoordLaw(c, x, z, q)} :: CoordLaw(c, x, z, q))
    && (forall x, z, q {:trigger DoubleLaw(c, x, z, q)} :: DoubleLaw(c, x, z, q))
    && (forall x2, z2, x3, z3, q {:trigger DifferentialLaw(c, x1, base, x2, z2, x3, z3, q)} ::
          DifferentialLaw(c, x1, base, x2, z2, x3, z3, q))
    && c.rep(1, 0, c.group.zero) && c.rep(x1, 1, base)
  }

  datatype Pair = Pair(x: int, z: int)

  /** The straight-line code of a ladder step. */
  method LadderStep(f: Field, x1: int, p2: Pair, p3: Pair) returns (p4: Pair, p5: Pair)
    ensures Eq(f, p4.x, DoubleX(p2.x, p2.z)) && Eq(f, p4.z, DoubleZ(p2.x, p2.z))
    ensures Eq(f, p5.x, SumX(p2.x, p2.z, p3.x, p3.z)) && Eq(f, p5.z, SumZ(x1, p2.x, p2.z, p3.x, p3.z))
  {
    var d := FSub(f, p3.x, p3.z);
    var b := FSub(f, p2.x, p2.z);
    var a := FAdd(f, p2.x, p2.z);
    var c := FAdd(f, p3.x, p3.z);
    var da := FMul(f, d, a);
    var cb := FMul(f, c, b);
    var bb := FMul(f, b, b);
    var aa := FMul(f, a, a);
    var t0 := FAdd(f, da, cb);
    var t1 := FSub(f, da, cb);
    var x4 := FMul(f, aa, bb);
    var e := FSub(f, aa, bb);
    var t2 := FMul(f, t1, t1);
    var t3 := FMul(f, 121666, e);
    var x5 := FMul(f, t0, t0);
    var t4 := FAdd(f, bb, t3);
    var z5 := FMul(f, x1, t2);
    var z4 := FMul(f, e, t4);
    p4, p5 := Pair(x4, z4), Pair(x5, z5);
    DoubledPair(f, p2.x, p2.z, a, b, aa, bb, e, t4);
    SummedPair(f, x1, p2.x, p2.z, p3.x, p3.z, a, b, c, d, da, cb, t0, t1, t2);
  }

  lemma DoubledPair(f: Field, x: int, z: int, a: int, b: int, aa: int, bb: int, e: int, t4: int)
    requires a == FAdd(f, x, z) && b == FSub(f, x, z) && aa == FMul(f, a, a) && bb == FMul(f, b, b) && e == FSub(f, aa, bb)
    requires t4 == FAdd(f, bb, FMul(f, 121666, e))
    ensures Eq(f, FMul(f, aa, bb), DoubleX(x, z)) && Eq(f, FMul(f, e, t4), DoubleZ(x, z))
  {
    var (p, m) := (x + z, x - z);
    SquareEq(f, a, p, aa, x, z);
    SquareEq(f, b, m, bb, x, z);
    EqOps(f, aa, bb);
    EqMul(f, aa, p * p, bb, m * m);
    EqAdd(f, aa, p * p, bb, m * m);
    DoubleFacts(x, z);
    EqOps(f, 121666, e);
    EqMul(f, 121666, 121666, e, 4 * (x * z));
    EqOps(f, bb, FMul(f, 121666, e));
    EqAdd(f, bb, m * m, FMul(f, 121666, e), 121666 * (4 * (x * z)));
    EqOps(f, e, t4);
    EqMul(f, e, 4 * (x * z), t4, m * m + 121666 * (4 * (x * z)));
  }

  lemma SquareEq(f: Field, a: int, p: int, aa: int, x: int, z: int)
    requires aa == FMul(f, a, a) && ((a == FAdd(f, x, z) && p == x + z) || (a == FSub(f, x, z) && p == x - z))
    ensures Eq(f, aa, p * p)
  {
    EqOps(f, x, z);
    EqOps(f, a, a);
    EqMul(f, a, p, a, p);
  }

  lemma DoubleFacts(x: int, z: int)
    ensures ((x + z) * (x + z)) * ((x - z) * (x - z)) == DoubleX(x, z)
    ensures (x + z) * (x + z) - (x - z) * (x - z) == 4 * (x * z)
    ensures (x - z) * (x - z) + 121666 * (4 * (x * z)) == x * x + A * (x * z) + z * z
  {}

  lemma SummedPair(f: Field, x1: int, x2: int, z2: int, x3: int, z3: int, a: int, b: int, c: int, d: int, da: int, cb: int, t0: int, t1: int, t2: int)
    requires a == FAdd(f, x2, z2) && b == FSub(f, x2, z2) && c == FAdd(f, x3, z3) && d == FSub(f, x3, z3)
    requires da == FMul(f, d, a) && cb == FMul(f, c, b) && t0 == FAdd(f, da, cb) && t1 == FSub(f, da, cb) && t2 == FMul(f, t1, t1)
    ensures Eq(f, FMul(f, t0, t0), SumX(x2, z2, x3, z3)) && Eq(f, FMul(f, x1, t2), SumZ(x1, x2, z2, x3, z3))
  {
    EqOps(f, x2, z2);
    EqOps(f, x3, z3);
    EqOps(f, d, a);
    EqOps(f, c, b);
    EqMul(f, d, x3 - z3, a, x2 + z2);
    EqMul(f, c, x3 + z3, b, x2 - z2);
    EqOps(f, da, cb);
    EqAdd(f, da, (x3 - z3) * (x2 + z2), cb, (x3 + z3) * (x2 - z2));
    SumFacts(x2, z2, x3, z3);
    var (s, t) := (2 * (x2 * x3 - z2 * z3), 2 * (x3 * z2 - x2 * z3));
    EqOps(f, t0, t0);
    EqMul(f, t0, s, t0, s);
    EqOps(f, t1, t1);
    EqMul(f, t1, t, t1, t);
    EqOps(f, x1, t2);
    EqMul(f, x1, x1, t2, t * t);
    TwiceSquared(x2 * x3 - z2 * z3);
    TwiceSquared(x3 * z2 - x2 * z3);
  }

  lemma SumFacts(x2: int, z2: int, x3: int, z3: int)
    ensures (x3 - z3) * (x2 + z2) + (x3 + z3) * (x2 - z2) == 2 * (x2 * x3 - z2 * z3)
    ensures (x3 - z3) * (x2 + z2) - (x3 + z3) * (x2 - z2) == 2 * (x3 * z2 - x2 * z3)
  {}

  lemma TwiceSquared(w: int)
    ensures (2 * w) * (2 * w) == 4 * (w * w)
  {}

  lemma SumSymmetric(x1: int, x2: int, z2: int, x3: int, z3: int)
    ensures SumX(x2, z2, x3, z3) == SumX(x3, z3, x2, z2) && SumZ(x1, x2, z2, x3, z3) == SumZ(x1, x3, z3, x2, z2)
  {
    var w := x3 * z2 - x2 * z3;
    assert x2 * z3 - x3 * z2 == -w && -w * -w == w * w;
  }

  ghost predicate Reps<G(!new)>(c: XLine<G>, p: Pair, q: G) {
    c.rep(p.x, p.z, q)
  }

  lemma RepsMod<G(!new)>(c: XLine<G>, x1: int, base: G, x: int, z: int, p: Pair, q: G)
    requires MontgomeryCurve(c, x1, base) && c.rep(x, z, q) && Eq(c.f, p.x, x) && Eq(c.f, p.z, z)
    ensures Reps(c, p, q)
  {
    assert RepMod(c, x, z, p.x, p.z, q);
  }

  /** Once the pending swap is undone, the pairs stand for k and k + 1 times the point. */
  ghost predicate LadderAt<G(!new)>(c: XLine<G>, base: G, p2: Pair, p3: Pair, swap: bool, k: nat) {
    && Reps(c, if swap then p3 else p2, Mul(c.group, k, base))
    && Reps(c, if swap then p2 else p3, Mul(c.group, k + 1, base))
  }

  /** The pairs a step makes of those for k and k + 1. */
  lemma StepPairs<G(!new)>(c: XLine<G>, x1: int, base: G, lo: Pair, hi: Pair, k: nat)
    requires MontgomeryCurve(c, x1, base) && Reps(c, lo, Mul(c.group, k, base)) && Reps(c, hi, Mul(c.group, k + 1, base))
    ensures c.rep(DoubleX(lo.x, lo.z), DoubleZ(lo.x, lo.z), Mul(c.group, 2 * k, base))
    ensures c.rep(DoubleX(hi.x, hi.z), DoubleZ(hi.x, hi.z), Mul(c.group, 2 * k + 2, base))
    ensures c.rep(SumX(lo.x, lo.z, hi.x, hi.z), SumZ(x1, lo.x, lo.z, hi.x, hi.z), Mul(c.group, 2 * k + 1, base))
  {
    hide DoubleX, DoubleZ, SumX, SumZ, Mul;
    var q := Mul(c.group, k, base);
    MulStep(c.group, k, base);
    MulDouble(c.group, k, base);
    MulDouble(c.group, k + 1, base);
    MulAdd(c.group, k, k + 1, base);
    assert DoubleLaw(c, lo.x, lo.z, q) && DoubleLaw(c, hi.x, hi.z, Mul(c.group, k + 1, base));
    assert DifferentialLaw(c, x1, base, lo.x, lo.z, hi.x, hi.z, q);
  }

  /** One bit: the swap is put off until the next bit says whether it is needed. */
  method Round<G(!new)>(f: Field, x1: int, p2: Pair, p3: Pair, swap: bool, b: bool, ghost c: XLine<G>, ghost base: G, ghost k: nat)
    returns (p2': Pair, p3': Pair, swap': bool)
    requires f == c.f && MontgomeryCurve(c, x1, base) && LadderAt(c, base, p2, p3, swap, k)
    ensures LadderAt(c, base, p2', p3', swap', 2 * k + if b then 1 else 0)
  {
    ghost var lo, hi := if swap then p3 else p2, if swap then p2 else p3;
    StepPairs(c, x1, base, lo, hi, k);
    SumSymmetric(x1, lo.x, lo.z, hi.x, hi.z);
    hide MontgomeryCurve, DoubleX, DoubleZ, SumX, SumZ, Mul, Eq;
    p2', p3' := p2, p3;
    if swap != b {
      p2', p3' := p3', p2';
    }
    swap' := b;
    ghost var first, second := p2', p3';
    p2', p3' := LadderStep(f, x1, p2', p3');
    RepsMod(c, x1, base, DoubleX(first.x, first.z), DoubleZ(first.x, first.z), p2', Mul(c.group, 2 * k + if b then 2 else 0, base));
    RepsMod(c, x1, base, SumX(first.x, first.z, second.x, second.z), SumZ(x1, first.x, first.z, second.x, second.z), p3', Mul(c.group, 2 * k + 1, base));
  }

  /** Bit pos of a little-endian string. */
  function BitAt(e: seq<int>, pos: nat): bool
    requires pos / 8 < |e|
  {
    e[pos / 8] / Pow2(pos % 8) % 2 == 1
  }

  lemma BitOfValue(e: seq<int>, pos: nat)
    requires Digits(256, e) && pos / 8 < |e|
    ensures BitAt(e, pos) <==> Bytes.LittleEndian(e) / Pow2(pos) % 2 == 1
  {
    hide Value, Pow2;
    var j, r := pos / 8, pos % 8;
    assert 8 * j + r == pos;
    BitOfByte(e, j, r);
  }

  lemma BitOfByte(e: seq<int>, j: nat, r: nat)
    requires Digits(256, e) && j < |e| && r < 8
    ensures Value(256, e) / Pow2(8 * j + r) % 2 == e[j] / Pow2(r) % 2
  {
    var rest := Value(256, e[j + 1..]);
    assert e[j..][1..] == e[j + 1..];
    assert Value(256, e[j..]) == e[j] + 256 * rest;
    BytePower(j, r);
    hide Value, Pow, Pow2;
    ValueDivMod(256, e, j);
    DivDiv(Value(256, e), Pow(256, j), Pow2(r));
    HalfPowers(r);
    BitInByte(e[j], rest, Pow2(r), Pow2(7 - r));
  }

  lemma BytePower(j: nat, r: nat)
    ensures Pow2(8 * j + r) == Pow(256, j) * Pow2(r)
  {
    assert Pow2(8) == 256;
    hide Pow, Pow2;
    PowOfPow2(8, j);
    Pow2Add(8 * j, r);
  }

  lemma HalfPowers(r: nat)
    requires r < 8
    ensures Pow2(r) * (2 * Pow2(7 - r)) == 256
  {
    assert Pow2(8 - r) == 2 * Pow2(7 - r) && Pow2(8) == 256;
    hide Pow2;
    Pow2Add(r, 8 - r);
  }

  /** Higher bytes do not change a bit of the lowest one. */
  lemma BitInByte(d: int, rest: int, p: int, h: int)
    requires p >= 1 && p * (2 * h) == 256
    ensures (d + 256 * rest) / p % 2 == d / p % 2
  {
    MulAssoc(p, 2 * h, rest);
    MulAssoc(2, h, rest);
    DivModShift(d, p, 2 * (h * rest));
    DivModShift(d / p, 2, h * rest);
  }

  /** The loop over the bits 254 to 0. */
  method Ladder<G(!new)>(f: Field, x1: int, e: seq<int>, ghost c: XLine<G>, ghost base: G) returns (r: Pair)
    requires f == c.f && MontgomeryCurve(c, x1, base) && |e| == 32 && Digits(256, e) && Bytes.LittleEndian(e) < TWO255
    ensures Reps(c, r, Mul(c.group, Bytes.LittleEndian(e), base))
  {
    hide *;
    ghost var n := Bytes.LittleEndian(e);
    var p2, p3, swap := Pair(1, 0), Pair(x1, 1), false;
    var pos := 254;
    Nonnegative(e);
    StartLadder(c, x1, base, n, 255);
    while pos >= 0
      invariant -1 <= pos <= 254 && n / Pow2(pos + 1) >= 0
      invariant LadderAt(c, base, p2, p3, swap, n / Pow2(pos + 1))
    {
      var b := BitAt(e, pos);
      NextBits(e, n, pos);
      p2, p3, swap := Round(f, x1, p2, p3, swap, b, c, base, n / Pow2(pos + 1));
      pos := pos - 1;
    }
    r := if swap then p3 else p2;
    EndLadder(c, base, p2, p3, swap, n);
  }

  lemma StartLadder<G(!new)>(c: XLine<G>, x1: int, base: G, n: int, bits: nat)
    requires MontgomeryCurve(c, x1, base) && 0 <= n < TWO255 && bits == 255
    ensures n / Pow2(bits) == 0 && LadderAt(c, base, Pair(1, 0), Pair(x1, 1), false, 0)
  {
    Pow255(bits);
    SmallMod(n, Pow2(bits));
    MulOne(c.group, base);
  }

  lemma Nonnegative(e: seq<int>)
    requires Digits(256, e)
    ensures Bytes.LittleEndian(e) >= 0
  {
    ValueBound(256, e);
  }

  lemma Pow255(n: nat)
    requires n == 255
    ensures Pow2(n) == TWO255
  {
    PowerOf250(250);
    assert Pow2(5) == 32;
    hide Pow2;
    Pow2Add(250, 5);
  }

  lemma NextBits(e: seq<int>, n: int, pos: nat)
    requires |e| == 32 && Digits(256, e) && n == Bytes.LittleEndian(e) && pos <= 254 && n >= 0
    ensures n / Pow2(pos) == 2 * (n / Pow2(pos + 1)) + (if BitAt(e, pos) then 1 else 0) && n / Pow2(pos) >= 0
  {
    hide Bytes.LittleEndian;
    BitOfValue(e, pos);
    DivDiv(n, Pow2(pos), 2);
    DivNonneg(n, Pow2(pos));
    assert Pow2(pos + 1) == Pow2(pos) * 2;
  }

  lemma EndLadder<G(!new)>(c: XLine<G>, base: G, p2: Pair, p3: Pair, swap: bool, n: nat)
    requires LadderAt(c, base, p2, p3, swap, n / Pow2(0))
    ensures Reps(c, if swap then p3 else p2, Mul(c.group, n, base))
  {
    assert n / Pow2(0) == n;
  }

  /**
   crypto_scalarmult_ref10: the encoding of the X coordinate of the clamped multiple,
   or of 0 when the ladder ends with Z = 0.
   */
  method ScalarMultX<G(!new)>(n: seq<int>, p: seq<int>, ghost c: XLine<G>, ghost base: G) returns (q: seq<int>, ghost r: Pair)
    requires |n| == 32 && Digits(256, n) && |p| == 32 && Digits(256, p)
    requires c.f == F25519 && MontgomeryCurve(c, Bytes.LittleEndian(p) % TWO255 % F25519.p, base)
    ensures Reps(c, r, Mul(c.group, Bytes.LittleEndian(Clamp(n)), base))
    ensures q == Encode(FMul(F25519, r.x, FPow(F25519, r.z, RecipExponent())))
    ensures Fermat(c.f) ==>
              q == Encode(if Nonzero(c.f, r.z) then c.coord(Mul(c.group, Bytes.LittleEndian(Clamp(n)), base)) % c.f.p else 0)
    ensures Fermat(c.f) && Faithful(c) ==> q == Encode(XOf(c, Mul(c.group, Bytes.LittleEndian(Clamp(n)), base)))
    ensures var v := Bytes.LittleEndian(n);
            && Reps(c, r, Mul(c.group, TWO254 + v % TWO254 - v % 8, base))
            && (Fermat(c.f) && Faithful(c) ==> q == Encode(XOf(c, Mul(c.group, TWO254 + v % TWO254 - v % 8, base))))
  {
    hide MontgomeryCurve, Bytes.LittleEndian, Mul, Encode, FPow, FMul, RecipExponent, Fermat, Faithful, Nonzero, XOf;
    var e := Clamp(n);
    ClampedRange(n, 31);
    ClampedNumber(n, 31);
    assert e[..32] == e && n[..32] == n;
    var x1 := Bytes.LittleEndian(p) % TWO255 % F25519.p;
    var pair := Ladder(F25519, x1, e, c, base);
    r := pair;
    var zi := FPow(F25519, pair.z, RecipExponent());
    q := Encode(FMul(F25519, pair.x, zi));
    if Fermat(c.f) {
      Exponents();
      Quotient(c, x1, base, r, Mul(c.group, Bytes.LittleEndian(e), base), RecipExponent());
    }
  }

  /** The X coordinate, with 0 for the neutral element. */
  ghost function XOf<G(!new)>(c: XLine<G>, q: G): int {
    if q == c.group.zero then 0 else c.coord(q) % c.f.p
  }

  /** What X times Z to the power p - 2 is. */
  lemma Quotient<G(!new)>(c: XLine<G>, x1: int, base: G, r: Pair, q: G, e: nat)
    requires MontgomeryCurve(c, x1, base) && Fermat(c.f) && Reps(c, r, q) && e == c.f.p - 2
    ensures FMul(c.f, r.x, FPow(c.f, r.z, e)) == if Nonzero(c.f, r.z) then c.coord(q) % c.f.p else 0
    ensures Faithful(c) ==> FMul(c.f, r.x, FPow(c.f, r.z, e)) == XOf(c, q)
  {
    assert CoordLaw(c, r.x, r.z, q) && (Faithful(c) ==> ZeroLaw(c, r.x, r.z, q));
    hide MontgomeryCurve, Fermat, FPow;
    if Nonzero(c.f, r.z) {
      Affine(c.f, r.x, r.z, c.coord(q), e);
    } else {
      ZeroPower(c.f, r.z, e);
      SmallMod(0, c.f.p);
    }
  }
}
