/** Multiplication of the base point by a table of its multiples. */
module BaseMult {
  import opened Arithmetic
  import opened Limbs
  import opened AbelianGroup
  import opened Edwards
  import opened PointOps
  import opened FieldEncoding
  import opened Residues
  import opened Field51
  import opened Radix16
  import opened Recoding
  import Bytes = ScalarEncoding

  /** Position 0 of the table stores 2xy, every other position 2dxy. */
  function Factor(f: Field, pos: nat): int {
    if pos == 0 then 2 else 2 * f.d
  }

  /** The j-th 32-byte number of a packed entry. */
  function Coordinate(e: seq<int>, j: nat): int
    requires |e| == 96 && j < 3
  {
    Bytes.LittleEndian(e[32 * j..32 * j + 32]) % TWO255
  }

  ghost predicate PackedEntry<G(!new)>(c: Curve<G>, e: seq<int>, k: int, q: G) {
    && |e| == 96 && Digits(256, e)
    && RepEntry(c, Coordinate(e, 0), Coordinate(e, 1), Coordinate(e, 2), k, q)
  }

  /** The multiple of the base point at position pos with digit d. */
  ghost function At<G(!new)>(g: Group<G>, pos: nat, d: int, base: G): G {
    Mul(g, d * Pow(256, pos), base)
  }

  /** Entry 8 pos + i is (i + 1) 256^pos times the base point. */
  ghost predicate TableAt<G(!new)>(c: Curve<G>, table: seq<seq<int>>, pos: nat, i: nat, base: G) {
    8 * pos + i < |table| && PackedEntry(c, table[8 * pos + i], Factor(c.f, pos), At(c.group, pos, i + 1, base))
  }

  ghost predicate BaseTable<G(!new)>(c: Curve<G>, table: seq<seq<int>>, base: G) {
    |table| == 256 && forall pos: nat, i: nat :: pos < 32 && i < 8 ==> TableAt(c, table, pos, i, base)
  }

  /** The packed neutral element: y - x = 1, y + x = 1, xy = 0. */
  const NEUTRAL_ENTRY: seq<int> := [1] + Zeros(31) + [1] + Zeros(63)

  lemma ByteOne(n: nat)
    ensures Bytes.LittleEndian([1] + Zeros(n)) == 1 && Bytes.LittleEndian(Zeros(n)) == 0
  {
    ValueZero(256, Zeros(n));
    assert ([1] + Zeros(n))[1..] == Zeros(n);
  }

  lemma NeutralEntry<G(!new)>(c: Curve<G>, k: int)
    requires EdwardsCurve(c)
    ensures PackedEntry(c, NEUTRAL_ENTRY, k, c.group.zero)
  {
    var e, z := NEUTRAL_ENTRY, c.group.zero;
    assert e[0..32] == [1] + Zeros(31) && e[32..64] == [1] + Zeros(31) && e[64..96] == Zeros(32);
    ByteOne(31);
    ByteOne(32);
    EntryIff(c, 1, 1, 0, k, z);
    EqAdd(c.f, c.y(z), 1, c.x(z), 0);
    EqMul(c.f, c.x(z), 0, c.y(z), 1);
    EqMul(c.f, k, k, c.x(z) * c.y(z), 0);
  }

  /** The loop over the eight entries of a position: the one for u, or the neutral element for 0. */
  method Select<G(!new)>(table: seq<seq<int>>, pos: nat, u: nat, ghost c: Curve<G>, ghost base: G) returns (packed: seq<int>)
    requires Ed25519(c) && BaseTable(c, table, base) && pos < 32 && u <= 8
    ensures PackedEntry(c, packed, Factor(c.f, pos), At(c.group, pos, u, base))
  {
    NeutralEntry(c, Factor(c.f, pos));
    assert Mul(c.group, 0 * Pow(256, pos), base) == c.group.zero;
    hide PackedEntry, Ed25519, EdwardsCurve, Factor, Mul, Pow;
    packed := NEUTRAL_ENTRY;
    for i := 0 to 8
      invariant i < u ==> PackedEntry(c, packed, Factor(c.f, pos), c.group.zero)
      invariant i >= u ==> PackedEntry(c, packed, Factor(c.f, pos), At(c.group, pos, u, base))
    {
      if u == i + 1 {
        assert TableAt(c, table, pos, i, base);
        packed := table[8 * pos + i];
      }
    }
  }

  method ExpandEntry(e: seq<int>) returns (t: Niels)
    requires |e| == 96 && Digits(256, e)
    ensures Carried(t.ysubx) && Carried(t.xaddy) && Carried(t.t2d)
    ensures Fv(t.ysubx) == Coordinate(e, 0) % F25519.p && Fv(t.xaddy) == Coordinate(e, 1) % F25519.p
    ensures Fv(t.t2d) == Coordinate(e, 2) % F25519.p
  {
    var ysubx := Expand(e[0..32]);
    var xaddy := Expand(e[32..64]);
    var t2d := Expand(e[64..96]);
    t := Niels(ysubx, xaddy, t2d);
  }

  lemma EntryResidues<G(!new)>(c: Curve<G>, ysubx: int, xaddy: int, t: int, k: int, q: G)
    requires RepEntry(c, ysubx, xaddy, t, k, q)
    ensures RepEntry(c, ysubx % c.f.p, xaddy % c.f.p, t % c.f.p, k, q)
  {
    EntryIff(c, ysubx, xaddy, t, k, q);
    EntryIff(c, ysubx % c.f.p, xaddy % c.f.p, t % c.f.p, k, q);
    ModSelf(ysubx, c.f.p);
    ModSelf(xaddy, c.f.p);
    ModSelf(t, c.f.p);
  }

  lemma NegEntry<G(!new)>(c: Curve<G>, ysubx: int, xaddy: int, t: int, k: int, q: G)
    requires EdwardsCurve(c) && RepEntry(c, ysubx, xaddy, t, k, q)
    ensures RepEntry(c, xaddy, ysubx, FSub(c.f, 0, t), k, c.group.neg(q))
  {
    var (x, y) := (c.x(q), c.y(q));
    var (u, v) := (c.x(c.group.neg(q)), c.y(c.group.neg(q)));
    EntryIff(c, ysubx, xaddy, t, k, q);
    EntryIff(c, xaddy, ysubx, FSub(c.f, 0, t), k, c.group.neg(q));
    assert NegLaw(c, q);
    EqAdd(c.f, v, y, u, -x);
    EqMul(c.f, u, -x, v, y);
    EqMul(c.f, k, k, u * v, -x * y);
    EqOps(c.f, 0, t);
    EqAdd(c.f, 0, 0, t, k * (x * y));
    NegProduct(k, x, y);
  }

  lemma NegProduct(k: int, x: int, y: int)
    ensures k * (-x * y) == 0 - k * (x * y)
  {}

  /** ge25519_scalarmult_base_choose_niels: the entry for a signed digit. */
  method ChooseNiels<G(!new)>(table: seq<seq<int>>, pos: nat, b: int, ghost c: Curve<G>, ghost base: G) returns (t: Niels)
    requires Ed25519(c) && BaseTable(c, table, base) && pos < 32 && -8 <= b <= 8
    ensures IsEntry(c, t, Factor(c.f, pos), At(c.group, pos, b, base))
  {
    FieldIs(c);
    var u := if b < 0 then -b else b;
    ghost var q := At(c.group, pos, u, base);
    var packed := Select(table, pos, u, c, base);
    EntryResidues(c, Coordinate(packed, 0), Coordinate(packed, 1), Coordinate(packed, 2), Factor(c.f, pos), q);
    t := ExpandEntry(packed);
    var neg := FeNeg(t.t2d);
    if b < 0 {
      NegEntry(c, Fv(t.ysubx), Fv(t.xaddy), Fv(t.t2d), Factor(c.f, pos), q);
      NegAt(c.group, pos, u, base);
      t := Niels(t.xaddy, t.ysubx, neg);
    }
  }

  lemma NegAt<G(!new)>(g: Group<G>, pos: nat, u: int, base: G)
    requires Abelian(g)
    ensures At(g, pos, -u, base) == g.neg(At(g, pos, u, base))
  {
    var p := Pow(256, pos);
    assert -u * p == -(u * p);
    MulNeg(g, u * p, base);
  }

  /** The first n digits of one parity, weighted by powers of 256. */
  ghost function Alternate(b: seq<int>, parity: nat, n: nat): int
    requires parity <= 1 && 2 * n <= |b|
  {
    if n == 0 then 0 else Alternate(b, parity, n - 1) + b[2 * (n - 1) + parity] * Pow(256, n - 1)
  }

  /** A radix-16 number is its even digits and 16 times its odd digits, in radix 256. */
  lemma {:induction false} AlternateSum(b: seq<int>, n: nat)
    requires 2 * n <= |b|
    ensures Value(16, b[..2 * n]) == Alternate(b, 0, n) + 16 * Alternate(b, 1, n)
  {
    if n > 0 {
      var k := 2 * (n - 1);
      hide *;
      AlternateSum(b, n - 1);
      AlternateNext(b, 0, n - 1);
      AlternateNext(b, 1, n - 1);
      EvenPower(n - 1);
      ValueSnoc(16, b, k);
      ValueSnoc(16, b, k + 1);
      TwoDigits(b[k], b[k + 1], Pow(256, n - 1), Pow(16, k), Pow(16, k + 1));
    }
  }

  lemma AlternateNext(b: seq<int>, parity: nat, n: nat)
    requires parity <= 1 && 2 * n + 2 <= |b|
    ensures Alternate(b, parity, n + 1) == Alternate(b, parity, n) + b[2 * n + parity] * Pow(256, n)
  {}

  lemma TwoDigits(x: int, y: int, p: int, q: int, r: int)
    requires q == p && r == 16 * p
    ensures q * x + r * y == x * p + 16 * (y * p)
  {}

  lemma EvenPower(n: nat)
    ensures Pow(16, 2 * n) == Pow(256, n) && Pow(16, 2 * n + 1) == 16 * Pow(256, n)
  {
    assert Pow(16, 2) == 256;
    PowMul(16, 2, n);
  }

  lemma AddDigit<G(!new)>(g: Group<G>, a: int, d: int, pos: nat, base: G)
    requires Abelian(g)
    ensures g.add(Mul(g, a, base), At(g, pos, d, base)) == Mul(g, a + d * Pow(256, pos), base)
  {
    MulAdd(g, a, d * Pow(256, pos), base);
  }

  /** The constant d. */
  const ECD: Fe := Fe(0x00034dca135978a3, 0x0001a8283b156ebd, 0x0005e7a26001c029, 0x000739c663a03cbb, 0x00052036cee2b6ff)

  lemma ECDValue()
    ensures Carried(ECD) && Fv(ECD) == F25519.d
  {}

  /** Multiplying the last coordinate by d makes an entry of position 0 ready as well. */
  lemma RawTimesD<G(!new)>(c: Curve<G>, ysubx: int, xaddy: int, t: int, q: G)
    requires RepEntry(c, ysubx, xaddy, t, 2, q)
    ensures RepEntry(c, ysubx, xaddy, FMul(c.f, t, c.f.d), 2 * c.f.d, q)
  {
    var xy := c.x(q) * c.y(q);
    EntryIff(c, ysubx, xaddy, t, 2, q);
    EntryIff(c, ysubx, xaddy, FMul(c.f, t, c.f.d), 2 * c.f.d, q);
    EqOps(c.f, t, c.f.d);
    EqMul(c.f, t, 2 * xy, c.f.d, c.f.d);
    assert (2 * xy) * c.f.d == (2 * c.f.d) * xy;
  }

  /** An entry of position 0, doubled throughout, is a point with Z = 2. */
  method StartFrom<G(!new)>(t: Niels, ghost c: Curve<G>, ghost q: G) returns (r: Point)
    requires Ed25519(c) && IsEntry(c, t, 2, q)
    ensures IsPoint(c, r, q)
  {
    FieldIs(c);
    EntryToFull(c, Fv(t.ysubx), Fv(t.xaddy), Fv(t.t2d), q);
    assert Fv(Fe(2, 0, 0, 0, 0)) == 2;
    hide Fv, FSub, FAdd, RepEntry, RepFull;
    var x := FeSubReduce(t.xaddy, t.ysubx);
    var y := FeAddReduce(t.xaddy, t.ysubx);
    r := Point(x, y, Fe(2, 0, 0, 0, 0), t.t2d);
  }

  lemma EntryToFull<G(!new)>(c: Curve<G>, ysubx: int, xaddy: int, t: int, q: G)
    requires RepEntry(c, ysubx, xaddy, t, 2, q)
    ensures RepFull(c, FSub(c.f, xaddy, ysubx), FAdd(c.f, xaddy, ysubx), 2, t, q)
  {
    var (x, y) := (c.x(q), c.y(q));
    var (a, b) := (FSub(c.f, xaddy, ysubx), FAdd(c.f, xaddy, ysubx));
    EntryIff(c, ysubx, xaddy, t, 2, q);
    PartialIff(c, a, b, 2, q);
    FullIff(c, a, b, 2, t, q);
    SmallMod(2, c.f.p);
    EqOps(c.f, xaddy, ysubx);
    EqAdd(c.f, xaddy, y + x, ysubx, y - x);
  }

  /** The even digits' first addition, at position 0. */
  method AddRaw<G(!new)>(r: Point, t: Niels, ghost c: Curve<G>, ghost q: G, ghost s: G) returns (r': Point)
    requires Ed25519(c) && IsPoint(c, r, q) && IsEntry(c, t, 2, s)
    ensures IsPoint(c, r', c.group.add(q, s))
  {
    ECDValue();
    FieldIs(c);
    RawTimesD(c, Fv(t.ysubx), Fv(t.xaddy), Fv(t.t2d), s);
    hide Fv, FMul, RepEntry, IsPoint, Ed25519, EdwardsCurve;
    var t2d := FeMul(t.t2d, ECD);
    r' := NielsAdd2(r, Niels(t.ysubx, t.xaddy, t2d), c, q, s);
  }

  /** Adds the remaining digits of one parity. */
  method AddRest<G(!new)>(r: Point, b: seq<int>, parity: nat, table: seq<seq<int>>, ghost c: Curve<G>, ghost a: int, ghost base: G) returns (r': Point)
    requires Ed25519(c) && BaseTable(c, table, base) && parity <= 1 && SignedDigits(b)
    requires IsPoint(c, r, Mul(c.group, a + Alternate(b, parity, 1), base))
    ensures IsPoint(c, r', Mul(c.group, a + Alternate(b, parity, 32), base))
  {
    hide IsPoint, Ed25519, EdwardsCurve, BaseTable, Mul, Pow;
    r' := r;
    var i := 2 + parity;
    ghost var pos := 1;
    while i < 64
      invariant i == 2 * pos + parity && 1 <= pos <= 32
      invariant IsPoint(c, r', Mul(c.group, a + Alternate(b, parity, pos), base))
    {
      r' := AddOne(r', b, parity, i, table, c, a, base);
      i := i + 2;
      pos := pos + 1;
    }
  }

  ghost predicate SignedDigits(b: seq<int>) {
    |b| == 64 && forall i :: 0 <= i < 64 ==> -8 <= b[i] <= 8
  }

  method AddOne<G(!new)>(r: Point, b: seq<int>, parity: nat, i: nat, table: seq<seq<int>>, ghost c: Curve<G>, ghost a: int, ghost base: G) returns (r': Point)
    requires Ed25519(c) && BaseTable(c, table, base) && parity <= 1 && SignedDigits(b) && |b| == 64 && 2 <= i < 64 && i % 2 == parity
    requires IsPoint(c, r, Mul(c.group, a + Alternate(b, parity, i / 2), base))
    ensures IsPoint(c, r', Mul(c.group, a + Alternate(b, parity, i / 2 + 1), base))
  {
    hide *;
    ghost var pos := i / 2;
    ghost var before := a + Alternate(b, parity, pos);
    GroupOf(c);
    AddDigit(c.group, before, b[i], pos, base);
    NextAlternate(c.f, b, parity, i, pos);
    var t := ChooseNiels(table, i / 2, b[i], c, base);
    EntryIsNiels(c, t, At(c.group, pos, b[i], base));
    r' := NielsAdd2(r, t, c, Mul(c.group, before, base), At(c.group, pos, b[i], base));
  }

  lemma NextAlternate(f: Field, b: seq<int>, parity: nat, i: nat, pos: nat)
    requires SignedDigits(b) && parity <= 1 && 2 <= i < 64 && i == 2 * pos + parity
    ensures |b| == 64 && -8 <= b[i] <= 8 && Factor(f, pos) == 2 * f.d
    ensures Alternate(b, parity, pos + 1) == Alternate(b, parity, pos) + b[i] * Pow(256, pos)
  {
    AlternateNext(b, parity, pos);
  }

  /** Four doublings, the last of which restores the fourth coordinate. */
  method TimesSixteen<G(!new)>(r: Point, ghost c: Curve<G>, ghost k: int, ghost base: G) returns (r': Point)
    requires Ed25519(c) && IsPoint(c, r, Mul(c.group, k, base))
    ensures IsPoint(c, r', Mul(c.group, 16 * k, base))
  {
    hide *;
    ghost var g := c.group;
    GroupOf(c);
    MulDouble(g, k, base);
    MulDouble(g, 2 * k, base);
    MulDouble(g, 4 * k, base);
    MulDouble(g, 8 * k, base);
    PointIsPartial(c, r, Mul(g, k, base));
    r' := DoublePartial(r, r, c, Mul(g, k, base));
    r' := DoublePartial(r', r', c, Mul(g, 2 * k, base));
    r' := DoublePartial(r', r', c, Mul(g, 4 * k, base));
    r' := Double(r', c, Mul(g, 8 * k, base));
  }

  /** ge25519_scalarmult_base_niels: s times the base point. */
  method ScalarMultBase<G(!new)>(l: Layout, s: seq<int>, table: seq<seq<int>>, ghost c: Curve<G>, ghost base: G) returns (r: Point)
    requires Known(l) && Recodable(l, s) && Ed25519(c) && BaseTable(c, table, base)
    ensures IsPoint(c, r, Mul(c.group, Val(l, s), base))
  {
    hide *;
    var b := QuadDigits(l, s);
    r := TableSum(b, table, c, base);
  }

  method QuadDigits(l: Layout, s: seq<int>) returns (b: seq<int>)
    requires Known(l) && Recodable(l, s)
    ensures SignedDigits(b) && Alternate(b, 0, 32) + 16 * Alternate(b, 1, 32) == Val(l, s)
  {
    hide Known, Recodable, Value, Alternate;
    var digits := new int[QUADS];
    ContractWindow4(l, digits, s);
    b := digits[..];
    AlternateSum(b, 32);
    assert b[..64] == b;
  }

  lemma DigitsInRange(f: Field, b: seq<int>)
    requires SignedDigits(b)
    ensures |b| == 64 && -8 <= b[0] <= 8 && -8 <= b[1] <= 8 && Factor(f, 0) == 2
  {}

  lemma FirstDigit<G(!new)>(g: Group<G>, a: int, b: seq<int>, parity: nat, base: G)
    requires Abelian(g) && parity <= 1 && |b| >= 2
    ensures At(g, 0, b[parity], base) == Mul(g, Alternate(b, parity, 1), base)
    ensures g.add(Mul(g, a, base), At(g, 0, b[parity], base)) == Mul(g, a + Alternate(b, parity, 1), base)
  {
    assert b[parity] * Pow(256, 0) == b[parity] == Alternate(b, parity, 1);
    MulAdd(g, a, b[parity], base);
  }

  method TableSum<G(!new)>(b: seq<int>, table: seq<seq<int>>, ghost c: Curve<G>, ghost base: G) returns (r: Point)
    requires Ed25519(c) && BaseTable(c, table, base) && SignedDigits(b)
    ensures IsPoint(c, r, Mul(c.group, Alternate(b, 0, 32) + 16 * Alternate(b, 1, 32), base))
  {
    hide *;
    DigitsInRange(c.f, b);
    ghost var g := c.group;
    ghost var odd := 16 * Alternate(b, 1, 32);
    GroupOf(c);
    FirstDigit(g, 0, b, 1, base);
    FirstDigit(g, odd, b, 0, base);
    var t := ChooseNiels(table, 0, b[1], c, base);
    r := StartFrom(t, c, At(g, 0, b[1], base));
    r := AddRest(r, b, 1, table, c, 0, base);
    r := TimesSixteen(r, c, Alternate(b, 1, 32), base);
    t := ChooseNiels(table, 0, b[0], c, base);
    r := AddRaw(r, t, c, Mul(g, odd, base), At(g, 0, b[0], base));
    r := AddRest(r, b, 0, table, c, odd, base);
  }
}
