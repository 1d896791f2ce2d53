/** The two scalar multiplications, on limb vectors and digit arrays. */
module ScalarMult {
  import opened Arithmetic
  import opened Limbs
  import opened AbelianGroup
  import opened Edwards
  import opened PointOps
  import Field51
  import opened SlidingWindow
  import opened Recoding

  /** a q + b r. */
  ghost function Lin<G(!new)>(g: Group<G>, a: int, q: G, b: int, r: G): G {
    g.add(Mul(g, a, q), Mul(g, b, r))
  }

  /** One step of the scheme of Horner: double, then add a multiple of each point. */
  ghost function Step<G(!new)>(g: Group<G>, acc: G, a: int, q: G, b: int, r: G): G {
    g.add(g.add(g.add(acc, acc), Mul(g, a, q)), Mul(g, b, r))
  }

  lemma LinStep<G(!new)>(g: Group<G>, a: int, q: G, b: int, r: G, d: int, e: int)
    requires Abelian(g)
    ensures Step(g, Lin(g, a, q, b, r), d, q, e, r) == Lin(g, 2 * a + d, q, 2 * b + e, r)
  {
    var (x, y) := (Mul(g, a, q), Mul(g, b, r));
    AddExchange(g, x, y, x, y);
    MulDouble(g, a, q);
    MulDouble(g, b, r);
    var (x2, y2) := (Mul(g, 2 * a, q), Mul(g, 2 * b, r));
    AddAssoc(g, g.add(x2, y2), Mul(g, d, q), Mul(g, e, r));
    AddExchange(g, x2, y2, Mul(g, d, q), Mul(g, e, r));
    MulAdd(g, 2 * a, d, q);
    MulAdd(g, 2 * b, e, r);
  }

  /** The table of odd multiples of a point. */
  ghost predicate OddMultiples<G(!new)>(c: Curve<G>, pre: seq<Pniels>, q: G) {
    forall i :: 0 <= i < |pre| ==> IsPniels(c, pre[i], Mul(c.group, 2 * i + 1, q))
  }

  ghost predicate OddNiels<G(!new)>(c: Curve<G>, table: seq<Niels>, q: G) {
    forall i :: 0 <= i < |table| ==> IsNiels(c, table[i], Mul(c.group, 2 * i + 1, q))
  }

  /** A window digit as the index of its table entry and its sign. */
  lemma DigitMultiple<G(!new)>(c: Curve<G>, d: int, m: int, q: G)
    requires Abelian(c.group) && WindowDigit(d, m) && d != 0
    ensures 0 <= Abs(d) / 2 && 2 * (Abs(d) / 2) < m
    ensures Signed(c, d < 0, Mul(c.group, 2 * (Abs(d) / 2) + 1, q)) == Mul(c.group, d, q)
  {
    OddHalf(d, m);
    hide Mul, WindowDigit;
    MulNeg(c.group, Abs(d), q);
  }

  lemma OddHalf(d: int, m: int)
    requires WindowDigit(d, m) && d != 0
    ensures 2 * (Abs(d) / 2) + 1 == Abs(d) <= m
  {}

  /** The odd multiples q, 3q, ..., (2n - 1)q, each from the one before by adding 2q. */
  method Precompute<G(!new)>(p: Point, n: nat, ghost c: Curve<G>, ghost q: G) returns (pre: seq<Pniels>)
    requires Ed25519(c) && IsPoint(c, p, q) && n >= 1
    ensures |pre| == n && OddMultiples(c, pre, q)
  {
    hide IsPniels, IsPoint, IsPartial, Ed25519, EdwardsCurve, Mul;
    PointIsPartial(c, p, q);
    GroupOf(c);
    MulOne(c.group, q);
    var d := Double(p, c, q);
    var first := FullToPniels(p, c, q);
    pre := [first];
    for i := 0 to n - 1
      invariant |pre| == i + 1 && OddMultiples(c, pre, q)
    {
      var next := PnielsAdd(d, pre[i], c, c.group.add(q, q), Mul(c.group, 2 * i + 1, q));
      NextOdd(c.group, i, q);
      pre := pre + [next];
    }
  }

  lemma NextOdd<G(!new)>(g: Group<G>, i: nat, q: G)
    requires Abelian(g)
    ensures g.add(g.add(q, q), Mul(g, 2 * i + 1, q)) == Mul(g, 2 * (i + 1) + 1, q)
  {
    MulOne(g, q);
    MulDouble(g, 1, q);
    MulAdd(g, 2, 2 * i + 1, q);
  }

  method AddFirst<G(!new)>(r: Point, t: P1p1, d: int, pre: seq<Pniels>, ghost c: Curve<G>, ghost acc: G, ghost q: G) returns (r': Point, t': P1p1)
    requires Ed25519(c) && IsP1p1(c, t, acc) && OddMultiples(c, pre, q) && |pre| == 8 && WindowDigit(d, 15)
    ensures IsP1p1(c, t', c.group.add(acc, Mul(c.group, d, q)))
  {
    assert Abelian(c.group);
    r', t' := r, t;
    if d == 0 {
      AddZero(c.group, acc);
    } else {
      DigitMultiple(c, d, 15, q);
      hide IsPniels, IsPoint, IsP1p1, Ed25519, EdwardsCurve, Mul, Signed;
      r' := P1p1ToFull(t, c, acc);
      t' := PnielsAddP1p1(r', pre[Abs(d) / 2], d < 0, c, acc, Mul(c.group, 2 * (Abs(d) / 2) + 1, q));
    }
  }

  method AddSecond<G(!new)>(r: Point, t: P1p1, d: int, table: seq<Niels>, ghost c: Curve<G>, ghost acc: G, ghost q: G) returns (r': Point, t': P1p1)
    requires Ed25519(c) && IsP1p1(c, t, acc) && OddNiels(c, table, q) && |table| == 32 && WindowDigit(d, 63)
    ensures IsP1p1(c, t', c.group.add(acc, Mul(c.group, d, q)))
  {
    assert Abelian(c.group);
    r', t' := r, t;
    if d == 0 {
      AddZero(c.group, acc);
    } else {
      DigitMultiple(c, d, 63, q);
      hide IsNiels, IsPoint, IsP1p1, Ed25519, EdwardsCurve, Mul, Signed;
      r' := P1p1ToFull(t, c, acc);
      t' := NielsAddP1p1(r', table[Abs(d) / 2], d < 0, c, acc, Mul(c.group, 2 * (Abs(d) / 2) + 1, q));
    }
  }

  /** One bit of both scalars. */
  method Round<G(!new)>(r: Point, d1: int, d2: int, pre: seq<Pniels>, table: seq<Niels>,
                        ghost c: Curve<G>, ghost acc: G, ghost q: G, ghost base: G) returns (r': Point)
    requires Ed25519(c) && IsPartial(c, r, acc)
    requires OddMultiples(c, pre, q) && |pre| == 8 && OddNiels(c, table, base) && |table| == 32
    requires WindowDigit(d1, 15) && WindowDigit(d2, 63)
    ensures IsPartial(c, r', Step(c.group, acc, d1, q, d2, base))
  {
    hide IsP1p1, IsPartial, IsPniels, IsNiels, Ed25519, EdwardsCurve, OddMultiples, OddNiels, WindowDigit, Mul;
    var g := c.group;
    var t := DoubleP1p1(r, c, acc);
    r', t := AddFirst(r, t, d1, pre, c, g.add(acc, acc), q);
    r', t := AddSecond(r', t, d2, table, c, g.add(g.add(acc, acc), Mul(g, d1, q)), base);
    r' := P1p1ToPartial(r', t, c, Step(g, acc, d1, q, d2, base));
  }

  const NEUTRAL: Point := Point(Field51.Fe(0, 0, 0, 0, 0), Field51.Fe(1, 0, 0, 0, 0), Field51.Fe(1, 0, 0, 0, 0), Field51.Fe(0, 0, 0, 0, 0))

  lemma NeutralLimbs()
    ensures Field51.Fv(NEUTRAL.x) == 0 && Field51.Fv(NEUTRAL.y) == 1
  {}

  lemma NeutralPoint<G(!new)>(c: Curve<G>)
    requires Ed25519(c)
    ensures IsPoint(c, NEUTRAL, c.group.zero) && IsPartial(c, NEUTRAL, c.group.zero)
  {
    var z := c.group.zero;
    AffineIsFull(c, 0, 1, z);
    SmallMod(0, c.f.p);
    NeutralLimbs();
  }

  lemma TopDigitStep(s: seq<int>, i: nat)
    requires i < |s|
    ensures Value(2, s[i..]) == s[i] + 2 * Value(2, s[i + 1..])
  {
    assert s[i..][1..] == s[i + 1..];
  }

  /** ge25519_double_scalarmult_vartime: s1 q + s2 base. */
  method DoubleScalarMult<G(!new)>(l: Layout, p: Point, s1: seq<int>, s2: seq<int>, table: seq<Niels>,
                                   ghost c: Curve<G>, ghost q: G, ghost base: G) returns (r: Point)
    requires RecodeLayout(l) && Recodable(l, s1) && Recodable(l, s2)
    requires Ed25519(c) && IsPoint(c, p, q) && OddNiels(c, table, base) && |table| == 32
    ensures IsPartial(c, r, Lin(c.group, Val(l, s1), q, Val(l, s2), base))
  {
    hide *;
    var slide1 := SlideDigits(l, s1, 5, 15);
    var slide2 := SlideDigits(l, s2, 7, 63);
    var pre := Precompute(p, 8, c, q);
    r := Horner(slide1, slide2, pre, table, c, q, base);
  }

  ghost predicate WindowDigits(d: seq<int>, m: int) {
    forall i :: 0 <= i < |d| ==> WindowDigit(d[i], m)
  }

  /** The digits of a scalar for one of the two window sizes in use. */
  method SlideDigits(l: Layout, s: seq<int>, windowsize: nat, ghost m: int) returns (d: seq<int>)
    requires RecodeLayout(l) && Recodable(l, s)
    requires (windowsize == 5 && m == 15) || (windowsize == 7 && m == 63)
    ensures |d| == SOPLEN && WindowDigits(d, m) && Value(2, d) == Val(l, s)
  {
    var slide := new int[SOPLEN];
    assert Pow2(4) == 16 && Pow2(6) == 64;
    hide WindowDigit, Value, Recode, RecodeLayout, Recodable, Pow2;
    ContractSlidingWindow(l, slide, s, windowsize);
    d := slide[..];
  }

  /** r holds what the digits from position i on stand for. */
  ghost predicate Accumulated<G(!new)>(c: Curve<G>, r: Point, d1: seq<int>, d2: seq<int>, i: nat, q: G, base: G)
    requires i <= |d1| == |d2|
  {
    IsPartial(c, r, Partial(c, d1, d2, i, q, base))
  }

  method Horner<G(!new)>(d1: seq<int>, d2: seq<int>, pre: seq<Pniels>, table: seq<Niels>,
                         ghost c: Curve<G>, ghost q: G, ghost base: G) returns (r: Point)
    requires |d1| == |d2|
    requires Ed25519(c) && OddMultiples(c, pre, q) && |pre| == 8 && OddNiels(c, table, base) && |table| == 32
    requires WindowDigits(d1, 15) && WindowDigits(d2, 63)
    ensures IsPartial(c, r, Lin(c.group, Value(2, d1), q, Value(2, d2), base))
  {
    hide *;
    var i := SkipZeros(d1, d2);
    r := NEUTRAL;
    StartHorner(c, d1, d2, i + 1, q, base);
    while i >= 0
      invariant -1 <= i < |d1| && Accumulated(c, r, d1, d2, i + 1, q, base)
    {
      r := HornerRound(r, d1, d2, i, pre, table, c, q, base);
      i := i - 1;
    }
    EndHorner(c, r, d1, d2, q, base);
  }

  lemma StartHorner<G(!new)>(c: Curve<G>, d1: seq<int>, d2: seq<int>, i: nat, q: G, base: G)
    requires Ed25519(c) && i <= |d1| == |d2| && ZerosFrom(d1, i) && ZerosFrom(d2, i)
    ensures Accumulated(c, NEUTRAL, d1, d2, i, q, base)
  {
    NeutralPoint(c);
    ValueZero(2, d1[i..]);
    ValueZero(2, d2[i..]);
    ZeroLin(c.group, q, base);
  }

  lemma EndHorner<G(!new)>(c: Curve<G>, r: Point, d1: seq<int>, d2: seq<int>, q: G, base: G)
    requires |d1| == |d2| && Accumulated(c, r, d1, d2, 0, q, base)
    ensures IsPartial(c, r, Lin(c.group, Value(2, d1), q, Value(2, d2), base))
  {
    assert d1[0..] == d1 && d2[0..] == d2;
  }

  method HornerRound<G(!new)>(r: Point, d1: seq<int>, d2: seq<int>, i: nat, pre: seq<Pniels>, table: seq<Niels>,
                              ghost c: Curve<G>, ghost q: G, ghost base: G) returns (r': Point)
    requires i < |d1| == |d2| && Accumulated(c, r, d1, d2, i + 1, q, base)
    requires Ed25519(c) && OddMultiples(c, pre, q) && |pre| == 8 && OddNiels(c, table, base) && |table| == 32
    requires WindowDigits(d1, 15) && WindowDigits(d2, 63)
    ensures Accumulated(c, r', d1, d2, i, q, base)
  {
    hide *;
    ghost var acc := NextHorner(c, r, d1, d2, i, q, base);
    r' := Round(r, d1[i], d2[i], pre, table, c, acc, q, base);
    EnterHorner(c, r', d1, d2, i, q, base, acc);
  }

  ghost function Partial<G(!new)>(c: Curve<G>, d1: seq<int>, d2: seq<int>, i: nat, q: G, base: G): G
    requires i <= |d1| == |d2|
  {
    Lin(c.group, Value(2, d1[i..]), q, Value(2, d2[i..]), base)
  }

  lemma NextHorner<G(!new)>(c: Curve<G>, r: Point, d1: seq<int>, d2: seq<int>, i: nat, q: G, base: G) returns (acc: G)
    requires i < |d1| == |d2| && Accumulated(c, r, d1, d2, i + 1, q, base) && Ed25519(c)
    requires WindowDigits(d1, 15) && WindowDigits(d2, 63)
    ensures IsPartial(c, r, acc) && WindowDigit(d1[i], 15) && WindowDigit(d2[i], 63)
    ensures Step(c.group, acc, d1[i], q, d2[i], base) == Partial(c, d1, d2, i, q, base)
  {
    hide Mul, Step, Lin, Value, WindowDigit;
    acc := Partial(c, d1, d2, i + 1, q, base);
    TopDigitStep(d1, i);
    TopDigitStep(d2, i);
    LinStep(c.group, Value(2, d1[i + 1..]), q, Value(2, d2[i + 1..]), base, d1[i], d2[i]);
  }

  lemma EnterHorner<G(!new)>(c: Curve<G>, r: Point, d1: seq<int>, d2: seq<int>, i: nat, q: G, base: G, acc: G)
    requires i < |d1| == |d2| && IsPartial(c, r, Step(c.group, acc, d1[i], q, d2[i], base))
    requires Step(c.group, acc, d1[i], q, d2[i], base) == Partial(c, d1, d2, i, q, base)
    ensures Accumulated(c, r, d1, d2, i, q, base)
  {}

  ghost predicate ZerosFrom(d: seq<int>, i: nat) {
    forall k :: i <= k < |d| ==> d[k] == 0
  }

  /** The highest position where either recoding has a digit, or -1. */
  method SkipZeros(d1: seq<int>, d2: seq<int>) returns (i: int)
    requires |d1| == |d2|
    ensures -1 <= i < |d1| && (i >= 0 ==> d1[i] != 0 || d2[i] != 0)
    ensures ZerosFrom(d1, i + 1) && ZerosFrom(d2, i + 1)
  {
    i := |d1| - 1;
    while i >= 0 && d1[i] == 0 && d2[i] == 0
      invariant -1 <= i < |d1| && ZerosFrom(d1, i + 1) && ZerosFrom(d2, i + 1)
    {
      i := i - 1;
    }
  }

  lemma ZeroLin<G(!new)>(g: Group<G>, q: G, r: G)
    requires Abelian(g)
    ensures Lin(g, 0, q, 0, r) == g.zero
  {
    AddZero(g, g.zero);
  }
}
