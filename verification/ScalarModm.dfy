/**
 Scalar arithmetic modulo the group order m: conditional subtraction, Barrett
 reduction with a truncated product, addition and multiplication. One model
 covers both limb layouts; each loop stands for the unrolled lines of the C code.
 */
module ScalarModm {
  import opened Arithmetic
  import opened Limbs
  import opened ScalarBatch
  import opened Columns

  /** The group order, and the Barrett constant floor(2^512 / m). */
  const M: int := 0x1000000000000000000000000000000014def9dea2f79cd65812631a5cf5d3ed
  const MU: int := 0xfffffffffffffffffffffffffffffffeb2106215d086329a7ed9ce5a30a2c131b

  const TWO243: int := 0x8000000000000000000000000000000000000000000000000000000000000
  const TWO248: int := 0x100000000000000000000000000000000000000000000000000000000000000
  const TWO256: int := 0x10000000000000000000000000000000000000000000000000000000000000000
  const TWO264: int := 0x1000000000000000000000000000000000000000000000000000000000000000000
  const TWO510: int := TWO248 * TWO264 / 4
  const TWO512: int := TWO248 * TWO264

  /** m is 2^252 + 27742317777372353535851937790883648493, and mu the quotient of 2^512 by it. */
  lemma OrderIs()
    ensures M == TWO256 / 16 + 27742317777372353535851937790883648493 && MU == TWO512 / M
  {}

  function Modulus(l: Layout): seq<int> {
    if l.word == 64 then
      [0x12631a5cf5d3ed, 0xf9dea2f79cd658, 0x000000000014de, 0x00000000000000, 0x00000010000000]
    else
      [0x1cf5d3ed, 0x20498c69, 0x2f79cd65, 0x37be77a8, 0x00000014, 0x00000000, 0x00000000, 0x00000000, 0x00001000]
  }

  function BarrettMu(l: Layout): seq<int> {
    if l.word == 64 then
      [0x9ce5a30a2c131b, 0x215d086329a7ed, 0xffffffffeb2106, 0xffffffffffffff, 0x00000fffffffff]
    else
      [0x0a2c131b, 0x3673968c, 0x06329a7e, 0x01885742, 0x3fffeb21, 0x3fffffff, 0x3fffffff, 0x3fffffff, 0x000fffff]
  }

  /** How many of the top limb's bits lie below bit 264, 256 and 248. */
  function Top264(l: Layout): nat { if l.word == 64 then 40 else 24 }
  function Top256(l: Layout): nat { if l.word == 64 then 32 else 16 }
  function Top248(l: Layout): nat { if l.word == 64 then 24 else 8 }

  /** The powers of two at which the code cuts its numbers. */
  datatype Marks = Marks(b243: int, b248: int, b256: int, b264: int)

  const MARKS := Marks(TWO243, TWO248, TWO256, TWO264)

  /** How the limb boundaries of a layout fall. */
  ghost predicate LayoutPowers(l: Layout, w: Marks) {
    && Sane(l) && 3 <= l.limbs <= 9
    && Top264(l) < l.bits
    && Pow(Base(l), l.limbs - 1) * Pow2(Top264(l)) == w.b264
    && Pow(Base(l), l.limbs - 1) * Pow2(Top256(l)) == w.b256
    && Pow(Base(l), l.limbs - 1) * Pow2(Top248(l)) == w.b248
    && 8 * Pow(Base(l), l.limbs - 1) <= w.b243
  }

  /** Column sums fit a double word. */
  ghost predicate DoubleWord(l: Layout) {
    Sane(l) && l.limbs * (Base(l) * Base(l)) <= Pow2(l.word) * Pow2(l.word)
  }

  /** Where the last column of a product ends. */
  ghost predicate LayoutTop(l: Layout) {
    && l.limbs >= 1
    && (l.word == 64 ==> Pow(Base(l), 2 * l.limbs - 1) * Pow2(Top248(l)) >= TWO512)
    && (l.word != 64 ==> Pow(Base(l), 2 * l.limbs - 1) == TWO510)
  }

  /** The constant arrays spell out m and mu. */
  ghost predicate LayoutConstants(l: Layout) {
    && Sane(l) && Top256(l) < Top264(l) < l.bits
    && IsScalar(l, Modulus(l)) && Val(l, Modulus(l)) == M
    && IsScalar(l, BarrettMu(l)) && Val(l, BarrettMu(l)) == MU
  }

  lemma ValueCons(b: int, s: seq<int>, k: nat)
    requires k < |s|
    ensures Value(b, s[k..]) == s[k] + b * Value(b, s[k + 1..])
  {
    assert s[k..][1..] == s[k + 1..];
  }

  lemma Value5(b: int, s: seq<int>, k: nat)
    requires k + 5 == |s|
    ensures Value(b, s[k..]) == s[k] + b * (s[k + 1] + b * (s[k + 2] + b * (s[k + 3] + b * s[k + 4])))
  {
    ValueCons(b, s, k);
    ValueCons(b, s, k + 1);
    ValueCons(b, s, k + 2);
    ValueCons(b, s, k + 3);
    ValueCons(b, s, k + 4);
  }

  lemma Value9(b: int, s: seq<int>)
    requires |s| == 9
    ensures Value(b, s) == s[0] + b * (s[1] + b * (s[2] + b * (s[3] + b * (s[4] + b * (s[5] + b * (s[6] + b * (s[7] + b * s[8])))))))
  {
    assert s[0..] == s;
    ValueCons(b, s, 0);
    ValueCons(b, s, 1);
    ValueCons(b, s, 2);
    ValueCons(b, s, 3);
    Value5(b, s, 4);
  }

  lemma Pow2Words()
    ensures Pow2(8) == 0x100 && Pow2(16) == 0x10000 && Pow2(24) == 0x1000000
    ensures Pow2(30) == 0x40000000 && Pow2(32) == 0x100000000 && Pow2(40) == 0x10000000000
    ensures Pow2(56) == 0x100000000000000 && Pow2(64) == 0x10000000000000000
  {
    assert Pow2(8) == 0x100;
    Pow2Add(8, 8);
    Pow2Add(8, 16);
    Pow2Add(24, 6);
    Pow2Add(16, 16);
    Pow2Add(16, 24);
    Pow2Add(32, 24);
    Pow2Add(32, 32);
  }

  lemma RadixPowers64(b: int)
    requires b == 0x100000000000000
    ensures Pow(b, 4) == 0x100000000000000000000000000000000000000000000000000000000
    ensures Pow(b, 9) == TWO510 / 64
  {
    PowSquare(b, 1, b);
    PowSquare(b, 2, 0x10000000000000000000000000000);
    PowSquare(b, 4, 0x100000000000000000000000000000000000000000000000000000000);
    assert Pow(b, 9) == b * Pow(b, 8);
  }

  lemma RadixPowers32(b: int)
    requires b == 0x40000000
    ensures Pow(b, 8) == 0x1000000000000000000000000000000000000000000000000000000000000
    ensures Pow(b, 17) == TWO510
  {
    PowSquare(b, 1, b);
    PowSquare(b, 2, 0x1000000000000000);
    PowSquare(b, 4, 0x1000000000000000000000000000000);
    PowSquare(b, 8, 0x1000000000000000000000000000000000000000000000000000000000000);
    assert Pow(b, 17) == b * Pow(b, 16);
  }

  lemma Powers64()
    ensures LayoutPowers(L64, MARKS) && DoubleWord(L64) && LayoutTop(L64)
  {
    hide Pow;
    Pow2Words();
    RadixPowers64(Pow2(56));
  }

  lemma Powers32()
    ensures LayoutPowers(L32, MARKS) && DoubleWord(L32) && LayoutTop(L32)
  {
    hide Pow;
    Pow2Words();
    RadixPowers32(Pow2(30));
  }

  lemma Constants64()
    ensures LayoutConstants(L64)
  {
    var b := Pow2(56);
    Pow2Words();
    Value5(b, Modulus(L64), 0);
    Value5(b, BarrettMu(L64), 0);
    assert Modulus(L64)[0..] == Modulus(L64) && BarrettMu(L64)[0..] == BarrettMu(L64);
  }

  lemma Modulus32()
    ensures IsScalar(L32, Modulus(L32)) && Val(L32, Modulus(L32)) == M
  {
    Pow2Words();
    Value9(Pow2(30), Modulus(L32));
  }

  lemma Mu32()
    ensures IsScalar(L32, BarrettMu(L32)) && Val(L32, BarrettMu(L32)) == MU
  {
    Pow2Words();
    Value9(Pow2(30), BarrettMu(L32));
  }

  /** Both layouts meet all of it. */
  lemma KnownPowers(l: Layout)
    requires Known(l)
    ensures LayoutPowers(l, MARKS) && DoubleWord(l)
  {
    Powers64();
    Powers32();
    hide LayoutPowers, DoubleWord;
  }

  lemma KnownTop(l: Layout)
    requires Known(l)
    ensures LayoutTop(l)
  {
    Powers64();
    Powers32();
    hide LayoutTop;
  }

  lemma KnownConstants(l: Layout)
    requires Known(l)
    ensures LayoutConstants(l)
  {
    Constants64();
    Modulus32();
    Mu32();
  }

  /** The quotient estimate is at most two too small, however the low columns were rounded. */
  lemma BarrettEstimate(x: int, q1: int, t: int, q3: int)
    requires 0 <= x < TWO512 && q1 == x / TWO248
    requires MU * q1 - TWO243 <= t <= MU * q1 && q3 == t / TWO264
    ensures 0 <= x - q3 * M < 3 * M
  {}

  /**
   a - b limb by limb with a running borrow; a final borrow is paid back as 2^top
   in the last limb.
   */
  method SubtractLimbs(l: Layout, a: seq<int>, b: seq<int>, top: nat) returns (t: seq<int>, borrow: nat)
    requires Sane(l) && IsScalar(l, a) && IsScalar(l, b) && top < l.bits
    ensures borrow == if Val(l, a) < Val(l, b) then 1 else 0
    ensures borrow == 0 ==> IsScalar(l, t) && Val(l, t) == Val(l, a) - Val(l, b)
    ensures a[l.limbs - 1] < Pow2(top) && b[l.limbs - 1] < Pow2(top) ==>
              IsScalar(l, t) && t[l.limbs - 1] < Pow2(top)
              && Val(l, t) == Val(l, a) - Val(l, b) + borrow * (Pow(Base(l), l.limbs - 1) * Pow2(top))
  {
    hide Value, Borrow;
    var n := l.limbs - 1;
    t, borrow := SubtractLow(l, a, b);
    var d := a[n] - (b[n] + borrow);
    WordBorrow(l, d);
    NegativeTop(l, a, b, d, borrow);
    ghost var before, was := t, borrow;
    borrow := TopBit(l, Word(l, d));
    t := t[n := Word(l, d + borrow * Pow2(top))];
    if borrow == 0 {
      SubtractedExactly(l, before, t, a, b, was);
    }
    if a[n] < Pow2(top) && b[n] < Pow2(top) {
      TopPaidBack(l, d, top, borrow);
      SubLast(l, before, t, a, b, top, was, borrow);
    }
  }

  /** The last difference is negative exactly when a < b. */
  lemma NegativeTop(l: Layout, a: seq<int>, b: seq<int>, d: int, borrow: int)
    requires Sane(l) && IsScalar(l, a) && IsScalar(l, b) && borrow == Borrow(l, a, b, l.limbs - 1)
    requires d == a[l.limbs - 1] - (b[l.limbs - 1] + borrow) && -(Base(l) as int) <= d < Base(l)
    ensures d < 0 <==> Val(l, a) < Val(l, b)
  {
    WordBorrow(l, d);
    BorrowCompares(l, a, b, l.limbs);
    assert a[..l.limbs] == a && b[..l.limbs] == b;
  }

  lemma SubtractedExactly(l: Layout, before: seq<int>, t: seq<int>, a: seq<int>, b: seq<int>, was: int)
    requires Sane(l) && |before| == |t| == |a| == |b| == l.limbs && before[l.limbs - 1..] == a[l.limbs - 1..]
    requires var n := l.limbs - 1;
             && t == before[n := a[n] - b[n] - was]
             && Val(l, before[..n]) == Val(l, a[..n]) - Val(l, b[..n]) + was * Pow(Base(l), n)
    ensures Val(l, t) == Val(l, a) - Val(l, b)
  {
    hide Value, Pow;
    var n := l.limbs - 1;
    SubStep(Base(l), before, t, a, b, n, was, 0);
    assert a[..n + 1] == a && b[..n + 1] == b && t[..n + 1] == t;
  }

  /** All limbs but the last. */
  method SubtractLow(l: Layout, a: seq<int>, b: seq<int>) returns (t: seq<int>, borrow: nat)
    requires Sane(l) && IsScalar(l, a) && IsScalar(l, b)
    ensures IsScalar(l, t) && t[l.limbs - 1..] == a[l.limbs - 1..]
    ensures borrow <= 1 && borrow == Borrow(l, a, b, l.limbs - 1)
    ensures var n := l.limbs - 1;
            Val(l, t[..n]) == Val(l, a[..n]) - Val(l, b[..n]) + borrow * Pow(Base(l), n)
  {
    var base := Base(l);
    t := a;
    borrow := 0;
    for i := 0 to l.limbs - 1
      invariant IsScalar(l, t) && t[i..] == a[i..] && borrow <= 1
      invariant borrow == Borrow(l, a, b, i)
      invariant Val(l, t[..i]) == Val(l, a[..i]) - Val(l, b[..i]) + borrow * Pow(base, i)
    {
      var d := a[i] - (b[i] + borrow);
      WordBorrow(l, d);
      ghost var before, was := t, borrow;
      borrow := TopBit(l, Word(l, d));
      PaidBack(l, d, borrow);
      t := t[i := Word(l, d + borrow * base)];
      SubStep(base, before, t, a, b, i, was, borrow);
    }
  }

  /** A negative difference plus the radix is the wrapped difference. */
  lemma PaidBack(l: Layout, d: int, borrow: int)
    requires Sane(l) && -(Base(l) as int) <= d < Base(l) && borrow == if d < 0 then 1 else 0
    ensures Word(l, d + borrow * Base(l)) == d + borrow * Base(l)
    ensures 0 <= d + borrow * Base(l) < Base(l)
  {
    WordBorrow(l, d + borrow * Base(l));
  }

  lemma TopPaidBack(l: Layout, d: int, top: nat, borrow: int)
    requires Sane(l) && top < l.bits && -(Pow2(top) as int) <= d < Pow2(top) && borrow == if d < 0 then 1 else 0
    ensures Word(l, d + borrow * Pow2(top)) == d + borrow * Pow2(top)
    ensures 0 <= d + borrow * Pow2(top) < Pow2(top) <= Base(l)
  {
    Pow2Mono(top, l.bits);
    WordBorrow(l, d + borrow * Pow2(top));
  }

  lemma SubLast(l: Layout, before: seq<int>, t: seq<int>, a: seq<int>, b: seq<int>, top: nat, was: int, borrow: int)
    requires Sane(l) && |before| == |t| == |a| == |b| == l.limbs
    requires var n := l.limbs - 1;
             && t == before[n := a[n] - b[n] - was + borrow * Pow2(top)]
             && Val(l, before[..n]) == Val(l, a[..n]) - Val(l, b[..n]) + was * Pow(Base(l), n)
    ensures Val(l, t) == Val(l, a) - Val(l, b) + borrow * (Pow(Base(l), l.limbs - 1) * Pow2(top))
  {
    hide Value, Pow;
    var n := l.limbs - 1;
    ValueSnoc(Base(l), a, n);
    ValueSnoc(Base(l), b, n);
    ValueSnoc(Base(l), t, n);
    assert t[..n] == before[..n];
    assert a[..n + 1] == a && b[..n + 1] == b && t[..n + 1] == t;
    DistributeTop(Pow(Base(l), n), a[n], b[n], was, borrow, Pow2(top));
  }

  lemma DistributeTop(p: int, x: int, y: int, was: int, borrow: int, e: int)
    ensures p * (x - y - was + borrow * e) == p * x - p * y - was * p + borrow * (p * e)
  {
    MulDist(x - y - was, borrow * e, p);
    MulDist(x - y, was, p);
    MulDist(x, y, p);
    MulAssoc(borrow, p, e);
    MulAssoc(p, borrow, e);
  }

  /** r - m if that is not negative, else r. */
  method Reduce(l: Layout, r: seq<int>) returns (r': seq<int>)
    requires Known(l) && IsScalar(l, r)
    ensures IsScalar(l, r') && Val(l, r') == if Val(l, r) < M then Val(l, r) else Val(l, r) - M
  {
    KnownConstants(l);
    hide Known, Value, Modulus, BarrettMu;
    Pow2Mono(Top256(l), l.bits);
    var t, b := SubtractLimbs(l, r, Modulus(l), Top256(l));
    r' := if b == 0 then t else r;
  }

  /**
   Columns first..stop-1 of the product x*y, carried into limbs; c is the carry
   out. The sums are taken in a double word and never overflow it.
   */
  method CarryColumns(l: Layout, x: seq<int>, y: seq<int>, first: int, stop: int, carry: int)
    returns (d: seq<int>, c: int)
    requires DoubleWord(l) && IsScalar(l, x) && IsScalar(l, y) && first <= stop
    requires 0 <= carry < l.limbs * Base(l)
    ensures |d| == stop - first && Digits(Base(l), d) && 0 <= c < l.limbs * Base(l)
    ensures Val(l, d) + Pow(Base(l), stop - first) * c == carry + ColSum(Base(l), x, y, first, stop)
  {
    var b := Base(l);
    d, c := [], carry;
    for k := first to stop
      invariant |d| == k - first && Digits(b, d) && 0 <= c < l.limbs * b
      invariant Value(b, d) + Pow(b, k - first) * c == carry + ColSum(b, x, y, first, k)
    {
      ColumnFits(l, x, y, k, c);
      var sum := (c + Conv(x, y, k)) % (Pow2(l.word) * Pow2(l.word));
      ColumnStep(b, x, y, first, k, d, c, carry);
      d, c := d + [sum % b], sum / b;
    }
  }

  lemma ColumnFits(l: Layout, x: seq<int>, y: seq<int>, k: int, c: int)
    requires DoubleWord(l) && IsScalar(l, x) && IsScalar(l, y) && 0 <= c < l.limbs * Base(l)
    ensures var sum := c + Conv(x, y, k);
            && 0 <= sum && sum % (Pow2(l.word) * Pow2(l.word)) == sum
            && 0 <= sum / Base(l) < l.limbs * Base(l)
  {
    var b, sum := Base(l), c + Conv(x, y, k);
    ConvBound(b, x, y, k);
    ColumnBound(l.limbs, b, c, Conv(x, y, k));
    DivModUnique(sum, Pow2(l.word) * Pow2(l.word), 0, sum);
    DivNonneg(sum, b);
  }

  lemma ColumnBound(n: int, b: int, c: int, conv: int)
    requires n >= 1 && b >= 1 && 0 <= c < n * b && 0 <= conv <= n * ((b - 1) * (b - 1))
    ensures c + conv < n * (b * b) && (c + conv) / b < n * b
  {
    assert (b - 1) * (b - 1) == b * b - 2 * b + 1;
    MulDist(b * b, 2 * b - 1, n);
    MulDist(2 * b, 1, n);
    MulMono(1, b, n);
    assert n * (2 * b) == 2 * (n * b);
    if (c + conv) / b >= n * b {
      MulMono(n * b, (c + conv) / b, b);
      MulAssoc(n, b, b);
    }
  }

  lemma ColumnStep(b: int, x: seq<int>, y: seq<int>, first: int, k: int, d: seq<int>, c: int, carry: int)
    requires b >= 1 && first <= k && |d| == k - first
    requires Value(b, d) + Pow(b, k - first) * c == carry + ColSum(b, x, y, first, k)
    ensures var sum := c + Conv(x, y, k);
            Value(b, d + [sum % b]) + Pow(b, k + 1 - first) * (sum / b) == carry + ColSum(b, x, y, first, k + 1)
  {
    var sum, p := c + Conv(x, y, k), Pow(b, k - first);
    ValueConcat(b, d, [sum % b]);
    assert Value(b, [sum % b]) == sum % b + b * Value(b, []);
    ColSumSplit(b, x, y, first, k, k + 1);
    assert ColSum(b, x, y, k, k + 1) == Conv(x, y, k) + b * ColSum(b, x, y, k + 1, k + 1);
    assert ColSum(b, x, y, k + 1, k + 1) == 0;
    assert Pow(b, k + 1 - first) == b * p;
    hide Value, Conv, ColSum, Pow;
    MulDist(c, Conv(x, y, k), p);
    CarryArith(p, b, sum);
  }

  lemma CarryArith(p: int, b: int, x: int)
    requires b >= 1
    ensures p * (x % b) + (b * p) * (x / b) == p * x
  {
    assert x == x % b + b * (x / b);
    MulDist(x % b, b * (x / b), p);
    MulAssoc(p, b, x / b);
  }

  /** Masking the top limb to e = 2^top keeps the value modulo B^(n-1) * e. */
  lemma TruncateTop(l: Layout, d: seq<int>, top: nat)
    requires Sane(l) && IsScalar(l, d) && top < l.bits
    ensures var n := l.limbs - 1; var t := d[n := d[n] % Pow2(top)];
            && IsScalar(l, t) && t[n] < Pow2(top)
            && Pow(Base(l), n) * Pow2(top) > 0
            && Val(l, t) == Val(l, d) % (Pow(Base(l), n) * Pow2(top))
            && Val(l, t) < Pow(Base(l), n) * Pow2(top)
  {
    var n, e, p := l.limbs - 1, Pow2(top), Pow(Base(l), l.limbs - 1);
    var t := d[n := d[n] % e];
    Pow2Mono(top, l.bits);
    ValueSnoc(Base(l), d, n);
    ValueSnoc(Base(l), t, n);
    assert t[..n] == d[..n] && d[..n + 1] == d && t[..n + 1] == t;
    ValueBound(Base(l), d[..n]);
    TruncateArith(Val(l, d[..n]), p, d[n], e);
  }

  lemma TruncateArith(x: int, p: int, d: int, e: int)
    requires 0 <= x < p && e >= 1 && d >= 0
    ensures p * e > 0 && x + p * (d % e) == (x + p * d) % (p * e) && x + p * (d % e) < p * e
  {
    MulMono(1, e, p);
    assert d == e * (d / e) + d % e;
    MulDist(e * (d / e), d % e, p);
    MulAssoc(p, e, d / e);
    MulMono(d % e, e - 1, p);
    MulMono(0, d % e, p);
    MulDist(e, 1, p);
    DivModSplit(x + p * d, p * e, d / e, x + p * (d % e));
  }

  /** q3: the columns of mu * q1 from n-2 up, shifted down to bit 264; t is what they stand for. */
  method EstimateQuotient(l: Layout, mu: seq<int>, q1: seq<int>, ghost w: Marks) returns (q3: seq<int>, ghost t: int)
    requires LayoutPowers(l, w) && DoubleWord(l) && IsScalar(l, mu) && IsScalar(l, q1)
    requires w.b264 >= 1 && Val(l, mu) * Val(l, q1) < w.b264 * w.b264
    ensures IsScalar(l, q3) && Val(l, q3) == t / w.b264
    ensures Val(l, mu) * Val(l, q1) - w.b243 <= t <= Val(l, mu) * Val(l, q1)
  {
    var b, n := Base(l), l.limbs;
    ColumnFits(l, mu, q1, n - 2, 0);
    var low := Conv(mu, q1, n - 2) % (Pow2(l.word) * Pow2(l.word));
    var d, c := CarryColumns(l, mu, q1, n - 1, 2 * n - 1, low / b);
    t := EstimateCorrect(l, w, mu, q1, d, c);
    q3 := ShiftRight(d + [c], Pow2(Top264(l)), Pow2(l.bits - Top264(l)));
  }

  lemma EstimateCorrect(l: Layout, w: Marks, mu: seq<int>, q1: seq<int>, d: seq<int>, c: int) returns (t: int)
    requires LayoutPowers(l, w) && IsScalar(l, mu) && IsScalar(l, q1) && |d| == l.limbs && Digits(Base(l), d) && 0 <= c
    requires w.b264 >= 1 && Val(l, mu) * Val(l, q1) < w.b264 * w.b264
    requires Val(l, d) + Pow(Base(l), l.limbs) * c
             == Conv(mu, q1, l.limbs - 2) / Base(l) + ColSum(Base(l), mu, q1, l.limbs - 1, 2 * l.limbs - 1)
    ensures Val(l, mu) * Val(l, q1) - w.b243 <= t <= Val(l, mu) * Val(l, q1)
    ensures var e, f := Pow2(Top264(l)), Pow2(l.bits - Top264(l));
            && e * f == Base(l)
            && IsScalar(l, ShiftRight(d + [c], e, f))
            && Val(l, ShiftRight(d + [c], e, f)) == t / w.b264
  {
    hide Value, Conv, ColSum, Pow;
    var N := Val(l, d) + Pow(Base(l), l.limbs) * c;
    t := Pow(Base(l), l.limbs - 1) * N;
    TruncatedProduct(l, w, mu, q1, N);
    TopCarry(l, w, d, c, Val(l, mu) * Val(l, q1));
    ShiftedDigits(l, d, c, Top264(l));
    CancelFactor(N, Pow(Base(l), l.limbs - 1), Pow2(Top264(l)));
  }

  lemma SplitRadix(l: Layout, top: nat)
    requires top <= l.bits
    ensures Pow2(top) * Pow2(l.bits - top) == Base(l)
  {
    Pow2Add(top, l.bits - top);
  }

  /** What the truncated columns miss of mu * q1. */
  lemma TruncatedProduct(l: Layout, w: Marks, mu: seq<int>, q1: seq<int>, N: int)
    requires LayoutPowers(l, w) && IsScalar(l, mu) && IsScalar(l, q1)
    requires N == Conv(mu, q1, l.limbs - 2) / Base(l) + ColSum(Base(l), mu, q1, l.limbs - 1, 2 * l.limbs - 1)
    ensures Val(l, mu) * Val(l, q1) - w.b243 <= Pow(Base(l), l.limbs - 1) * N <= Val(l, mu) * Val(l, q1)
  {
    hide Value, Conv;
    var b, n := Base(l), l.limbs;
    var low, mid, high := ColSum(b, mu, q1, 0, n - 2), Conv(mu, q1, n - 2), ColSum(b, mu, q1, n - 1, 2 * n - 1);
    ColSumProduct(b, mu, q1, 2 * n - 1);
    ColSumSplit(b, mu, q1, 0, n - 2, 2 * n - 1);
    assert ColSum(b, mu, q1, n - 2, 2 * n - 1) == mid + b * high;
    LowColumnsBound(b, mu, q1, n - 2);
    TruncatedArith(b, n, Pow(b, n - 2), low, mid, high);
    assert Pow(b, n - 1) == b * Pow(b, n - 2);
    MulMono(n - 1, 8, Pow(b, n - 1));
  }

  lemma TruncatedArith(b: int, n: int, p: int, low: int, mid: int, high: int)
    requires b >= 1 && n >= 2 && p >= 1 && 0 <= low <= (n - 2) * (b * p)
    ensures var all, kept := low + p * (mid + b * high), (b * p) * (mid / b + high);
            all - (n - 1) * (b * p) <= kept <= all
  {
    var q := b * p;
    assert mid == b * (mid / b) + mid % b;
    MulDist(mid, b * high, p);
    MulDist(b * (mid / b), mid % b, p);
    MulAssoc(p, b, mid / b);
    MulAssoc(p, b, high);
    MulDist(mid / b, high, q);
    MulMono(0, mid % b, p);
    MulMono(mid % b, b, p);
    MulDist(n - 2, 1, q);
  }

  /** The carry out of the last column fits the shifted top limb. */
  lemma TopCarry(l: Layout, w: Marks, d: seq<int>, c: int, v: int)
    requires LayoutPowers(l, w) && |d| == l.limbs && Digits(Base(l), d) && 0 <= c && w.b264 >= 1
    requires Pow(Base(l), l.limbs - 1) * (Val(l, d) + Pow(Base(l), l.limbs) * c) <= v < w.b264 * w.b264
    ensures c < Pow2(Top264(l))
  {
    var b, n, e := Base(l), l.limbs, Pow2(Top264(l));
    ValueBound(b, d);
    if c >= e {
      Pow2Mono(Top264(l), l.bits);
      TopCarryArith(b, Pow(b, n - 1), Val(l, d), c, e, w.b264);
      assert false;
    }
  }

  lemma TopCarryArith(b: int, p: int, v: int, c: int, e: int, t: int)
    requires b >= 1 && p >= 1 && v >= 0 && 1 <= e <= b && c >= e && p * e == t
    ensures p * (v + (b * p) * c) >= t * t
  {
    MulMono(e, c, b * p);
    MulMono(e, b, p);
    MulMono(t, b * p, e);
    MulMono(t * e, v + (b * p) * c, p);
    MulAssoc(t, e, p);
  }

  lemma ShiftedDigits(l: Layout, d: seq<int>, c: int, top: nat)
    requires Sane(l) && top < l.bits && d != [] && Digits(Base(l), d) && 0 <= c < Pow2(top)
    ensures var e, f := Pow2(top), Pow2(l.bits - top);
            && e * f == Base(l)
            && |ShiftRight(d + [c], e, f)| == |d| && Digits(Base(l), ShiftRight(d + [c], e, f))
            && Val(l, ShiftRight(d + [c], e, f)) == (Val(l, d) + Pow(Base(l), |d|) * c) / e
  {
    var e, f := Pow2(top), Pow2(l.bits - top);
    SplitRadix(l, top);
    Pow2Mono(top, l.bits);
    ShiftRightValue(d + [c], e, f);
    ValueConcat(Base(l), d, [c]);
    assert Val(l, [c]) == c + Base(l) * Val(l, []);
  }

  lemma CancelFactor(x: int, p: int, e: int)
    requires p >= 1 && e >= 1
    ensures p * e >= 1 && (p * x) / (p * e) == x / e
  {
    MulMono(1, e, p);
    assert x == e * (x / e) + x % e;
    MulDist(e * (x / e), x % e, p);
    MulAssoc(p, e, x / e);
    MulMono(0, x % e, p);
    MulMono(x % e, e - 1, p);
    MulDist(e, 1, p);
    DivModSplit(p * x, p * e, x / e, p * (x % e));
  }

  /** r2 = q3 * m modulo 2^264: only the low columns, the top limb masked. */
  method LowProduct(l: Layout, m: seq<int>, q3: seq<int>, ghost w: Marks) returns (r2: seq<int>)
    requires LayoutPowers(l, w) && DoubleWord(l) && IsScalar(l, m) && IsScalar(l, q3) && w.b264 >= 1
    ensures IsScalar(l, r2) && r2[l.limbs - 1] < Pow2(Top264(l))
    ensures Val(l, r2) == (Val(l, m) * Val(l, q3)) % w.b264
  {
    var n := l.limbs;
    var d, c := CarryColumns(l, m, q3, 0, n, 0);
    TruncateTop(l, d, Top264(l));
    LowProductMod(l, w, m, q3, d, c);
    r2 := d[n - 1 := d[n - 1] % Pow2(Top264(l))];
  }

  /** Everything from limb n up is a multiple of 2^264. */
  lemma AboveTop(l: Layout, w: Marks, x: int, y: int)
    requires LayoutPowers(l, w) && w.b264 >= 1
    ensures (x + Pow(Base(l), l.limbs) * y) % w.b264 == x % w.b264
  {
    var n, f := l.limbs, Pow2(l.bits - Top264(l));
    SplitRadix(l, Top264(l));
    assert Pow(Base(l), n) == Base(l) * Pow(Base(l), n - 1);
    AboveTopArith(Pow(Base(l), n - 1), Pow2(Top264(l)), f, y);
    DivModShift(x, w.b264, f * y);
  }

  lemma AboveTopArith(p: int, e: int, f: int, y: int)
    ensures ((e * f) * p) * y == (f * y) * (p * e)
  {
    MulAssoc(e * f, p, y);
    MulAssoc(e, f, p * y);
    MulAssoc(f, y, p * e);
    assert f * (p * y) == (f * y) * p by {
      MulAssoc(f, y, p);
    }
    MulAssoc(f * y, p, e);
    MulAssoc(f, p, y);
  }

  lemma LowProductMod(l: Layout, w: Marks, m: seq<int>, q3: seq<int>, d: seq<int>, c: int)
    requires LayoutPowers(l, w) && w.b264 >= 1 && IsScalar(l, m) && IsScalar(l, q3) && |d| == l.limbs
    requires Val(l, d) + Pow(Base(l), l.limbs) * c == ColSum(Base(l), m, q3, 0, l.limbs)
    ensures Val(l, d) % w.b264 == (Val(l, m) * Val(l, q3)) % w.b264
  {
    var b, n := Base(l), l.limbs;
    var high := ColSum(b, m, q3, n, 2 * n - 1);
    ColSumProduct(b, m, q3, 2 * n - 1);
    ColSumSplit(b, m, q3, 0, n, 2 * n - 1);
    MulDist(c, high, Pow(b, n));
    AboveTop(l, w, Val(l, d), c + high);
  }

  /**
   Barrett reduction. x itself never appears: q1 is x >> 248 and r1 is x mod 2^264,
   both already cut into limbs.
   */
  method BarrettReduce(l: Layout, q1: seq<int>, r1: seq<int>, ghost x: int) returns (r: seq<int>)
    requires Known(l) && 0 <= x < TWO512
    requires IsScalar(l, q1) && Val(l, q1) == x / TWO248
    requires IsScalar(l, r1) && r1[l.limbs - 1] < Pow2(Top264(l)) && Val(l, r1) == x % TWO264
    ensures IsScalar(l, r) && Val(l, r) == x % M
  {
    KnownPowers(l);
    KnownConstants(l);
    TopPower(l, MARKS);
    hide Known, LayoutPowers, DoubleWord, Value, Modulus, BarrettMu, Pow, Pow2;
    QuotientFits(x, Val(l, q1));
    var q3, t := EstimateQuotient(l, BarrettMu(l), q1, MARKS);
    BarrettEstimate(x, Val(l, q1), t, Val(l, q3));
    var r2 := LowProduct(l, Modulus(l), q3, MARKS);
    var b;
    r, b := SubtractLimbs(l, r1, r2, Top264(l));
    WrappedDifference(x, M * Val(l, q3), Val(l, r1), Val(l, r2), b);
    r := Reduce(l, r);
    r := Reduce(l, r);
    ReducedTwice(x, Val(l, q3));
  }

  lemma TopPower(l: Layout, w: Marks)
    requires LayoutPowers(l, w)
    ensures Pow(Base(l), l.limbs - 1) * Pow2(Top264(l)) == w.b264
  {}

  lemma QuotientFits(x: int, q1: int)
    requires 0 <= x < TWO512 && q1 == x / TWO248
    ensures MU * q1 < TWO264 * TWO264
  {}

  lemma WrappedDifference(x: int, y: int, r1: int, r2: int, b: int)
    requires r1 == x % TWO264 && r2 == y % TWO264 && b == (if r1 < r2 then 1 else 0) && 0 <= x - y < TWO264
    ensures r1 - r2 + b * TWO264 == x - y
  {}

  lemma ReducedTwice(x: int, q: int)
    requires 0 <= x - M * q < 3 * M
    ensures var y := x - M * q;
            x % M == if y < M then y else if y < 2 * M then y - M else y - 2 * M
  {
    var y := x - M * q;
    var k := if y < M then 0 else if y < 2 * M then 1 else 2;
    DivModUnique(x, M, q + k, y - k * M);
  }

  /** x + y modulo m, for reduced x and y. */
  method Add(l: Layout, x: seq<int>, y: seq<int>) returns (r: seq<int>)
    requires Known(l) && IsScalar(l, x) && IsScalar(l, y) && Val(l, x) < M && Val(l, y) < M
    ensures IsScalar(l, r) && Val(l, r) == (Val(l, x) + Val(l, y)) % M
  {
    hide *;
    AddFacts(l, x, y, MARKS);
    r := AddLimbs(l, x, y, MARKS);
    r := Reduce(l, r);
  }

  lemma AddFacts(l: Layout, x: seq<int>, y: seq<int>, w: Marks)
    requires Known(l) && w == MARKS && IsScalar(l, x) && IsScalar(l, y) && Val(l, x) < M && Val(l, y) < M
    ensures LayoutPowers(l, w) && Val(l, x) + Val(l, y) < w.b264
    ensures var s := Val(l, x) + Val(l, y); s % M == if s < M then s else s - M
  {
    hide *;
    KnownPowers(l);
    ScalarNonnegative(l, x);
    ScalarNonnegative(l, y);
    SumOfReduced(Val(l, x), Val(l, y), w);
  }

  lemma ScalarNonnegative(l: Layout, s: seq<int>)
    requires IsScalar(l, s)
    ensures Val(l, s) >= 0
  {
    ValueBound(Base(l), s);
  }

  lemma SumOfReduced(x: int, y: int, w: Marks)
    requires 0 <= x < M && 0 <= y < M && w == MARKS
    ensures x + y < w.b264 && (x + y) % M == if x + y < M then x + y else x + y - M
  {
    ReducedTwice(x + y, 0);
  }

  method AddLimbs(l: Layout, x: seq<int>, y: seq<int>, ghost w: Marks) returns (r: seq<int>)
    requires LayoutPowers(l, w) && IsScalar(l, x) && IsScalar(l, y) && Val(l, x) + Val(l, y) < w.b264
    ensures IsScalar(l, r) && Val(l, r) == Val(l, x) + Val(l, y)
  {
    var b, n := Base(l), l.limbs - 1;
    var c := 0;
    r := [];
    for i := 0 to n
      invariant |r| == i && Digits(b, r) && 0 <= c <= 1
      invariant Value(b, r) + Pow(b, i) * c == Value(b, x[..i]) + Value(b, y[..i])
    {
      AddFits(l, c + x[i] + y[i]);
      AddStep(b, x, y, r, c, i);
      var sum := Word(l, c + x[i] + y[i]);
      r, c := r + [sum % b], sum / b;
    }
    AddTop(l, w, x, y, r, c);
    r := r + [Word(l, c + x[n] + y[n])];
  }

  lemma AddFits(l: Layout, sum: int)
    requires Sane(l) && 0 <= sum <= 2 * Base(l) - 1
    ensures Word(l, sum) == sum && 0 <= sum / Base(l) <= 1
  {
    Pow2StrictMono(l.bits, l.word);
    DivModUnique(sum, Pow2(l.word), 0, sum);
    if sum < Base(l) {
      DivModUnique(sum, Base(l), 0, sum);
    } else {
      DivModUnique(sum, Base(l), 1, sum - Base(l));
    }
  }

  lemma AddStep(b: int, x: seq<int>, y: seq<int>, r: seq<int>, c: int, i: nat)
    requires b >= 1 && i < |x| && i < |y| && |r| == i
    requires Value(b, r) + Pow(b, i) * c == Value(b, x[..i]) + Value(b, y[..i])
    ensures var sum := c + x[i] + y[i];
            Value(b, r + [sum % b]) + Pow(b, i + 1) * (sum / b) == Value(b, x[..i + 1]) + Value(b, y[..i + 1])
  {
    var sum, p := c + x[i] + y[i], Pow(b, i);
    ValueSnoc(b, x, i);
    ValueSnoc(b, y, i);
    ValueConcat(b, r, [sum % b]);
    assert Value(b, [sum % b]) == sum % b + b * Value(b, []);
    assert Value(b, []) == 0 && Pow(b, i + 1) == b * p;
    hide Value, Pow;
    MulDist(c + x[i], y[i], p);
    MulDist(c, x[i], p);
    CarryArith(p, b, sum);
  }

  /** The last limb of a sum of reduced scalars needs no mask. */
  lemma AddTop(l: Layout, w: Marks, x: seq<int>, y: seq<int>, r: seq<int>, c: int)
    requires LayoutPowers(l, w) && IsScalar(l, x) && IsScalar(l, y) && Val(l, x) + Val(l, y) < w.b264
    requires |r| == l.limbs - 1 && Digits(Base(l), r) && 0 <= c <= 1
    requires var n := l.limbs - 1;
             Val(l, r) + Pow(Base(l), n) * c == Val(l, x[..n]) + Val(l, y[..n])
    ensures var n := l.limbs - 1; var top := c + x[n] + y[n];
            && Word(l, top) == top && IsScalar(l, r + [top])
            && Val(l, r + [top]) == Val(l, x) + Val(l, y)
  {
    var b, n := Base(l), l.limbs - 1;
    var top, p := c + x[n] + y[n], Pow(b, n);
    assert Value(b, [top]) == top + b * Value(b, []);
    assert Value(b, []) == 0;
    hide Value, Pow;
    ValueSnoc(b, x, n);
    ValueSnoc(b, y, n);
    assert x[..n + 1] == x && y[..n + 1] == y;
    ValueConcat(b, r, [top]);
    MulDist(c + x[n], y[n], p);
    MulDist(c, x[n], p);
    ValueBound(b, r);
    Pow2Mono(Top264(l), l.bits);
    TopFits(Value(b, r), p, top, Pow2(Top264(l)), w.b264);
    AddFits(l, top);
  }

  /** What is left of a product: the 30-bit layout drops its bits from 510 on. */
  function Kept(l: Layout, xy: int): int {
    if l.word == 64 then xy else xy % TWO510
  }

  /**
   x * y modulo m, for all scalars of the 30-bit layout as far as the product is
   kept, and for products below 2^512 of the 56-bit layout.
   */
  method Multiply(l: Layout, x: seq<int>, y: seq<int>) returns (r: seq<int>)
    requires Known(l) && IsScalar(l, x) && IsScalar(l, y) && (l.word == 64 ==> Val(l, x) * Val(l, y) < TWO512)
    ensures IsScalar(l, r) && Val(l, r) == Kept(l, Val(l, x) * Val(l, y)) % M
    ensures Val(l, r) == Val(l, x) * Val(l, y) % M <==> l.word == 64 || Val(l, x) * Val(l, y) < TWO510
  {
    hide Known, LayoutPowers, DoubleWord, Value, Kept, Pow, Pow2, IsScalar;
    ghost var xy := Val(l, x) * Val(l, y);
    ProductRange(l, x, y);
    KeptExactly(l, xy);
    KnownPowers(l);
    LimbCount(l, x, y);
    var n := l.limbs;
    var d, c := CarryColumns(l, x, y, 0, 2 * n - 1, 0);
    ColSumProduct(Base(l), x, y, 2 * n - 1);
    var hi := if l.word == 64 then c else 0;
    ProductTop(l, d, c, xy);
    var q1, r1 := CutProduct(l, d, hi, MARKS, Kept(l, xy));
    r := BarrettReduce(l, q1, r1, Kept(l, xy));
  }

  lemma LimbCount(l: Layout, x: seq<int>, y: seq<int>)
    requires Known(l) && IsScalar(l, x) && IsScalar(l, y)
    ensures Sane(l) && |x| == |y| == l.limbs && Base(l) >= 1
  {}

  /** The product's part from bit 248 on and its part below bit 264, as scalars. */
  method CutProduct(l: Layout, d: seq<int>, hi: int, ghost w: Marks, ghost xy: int) returns (q1: seq<int>, r1: seq<int>)
    requires LayoutPowers(l, w) && w.b264 >= 1 && w.b248 >= 1 && |d| == 2 * l.limbs - 1 && Digits(Base(l), d) && 0 <= hi < Pow2(Top248(l))
    requires Val(l, d) + Pow(Base(l), 2 * l.limbs - 1) * hi == xy
    ensures IsScalar(l, q1) && Val(l, q1) == xy / w.b248
    ensures IsScalar(l, r1) && r1[l.limbs - 1] < Pow2(Top264(l)) && Val(l, r1) == xy % w.b264
  {
    ProductParts(l, w, d, hi, xy);
    hide Value;
    var n, top := l.limbs, Top248(l);
    r1 := d[..n];
    TruncateTop(l, r1, Top264(l));
    r1 := r1[n - 1 := r1[n - 1] % Pow2(Top264(l))];
    SplitRadix(l, top);
    ShiftedDigits(l, d[n - 1..], hi, top);
    q1 := ShiftRight(d[n - 1..] + [hi], Pow2(top), Pow2(l.bits - top));
  }

  /** What the columns of a product add up to once its top carry is kept or dropped. */
  lemma ProductTop(l: Layout, d: seq<int>, c: int, xy: int)
    requires Known(l) && |d| == 2 * l.limbs - 1 && Digits(Base(l), d) && 0 <= c
    requires Val(l, d) + Pow(Base(l), 2 * l.limbs - 1) * c == xy && (l.word == 64 ==> xy < TWO512)
    ensures var hi := if l.word == 64 then c else 0;
            && 0 <= hi < Pow2(Top248(l)) && 0 <= Kept(l, xy) < TWO512
            && Val(l, d) + Pow(Base(l), 2 * l.limbs - 1) * hi == Kept(l, xy)
  {
    KnownTop(l);
    hide Known;
    var p := Pow(Base(l), 2 * l.limbs - 1);
    ValueBound(Base(l), d);
    if l.word == 64 {
      TopFits(Val(l, d), p, c, Pow2(Top248(l)), TWO512);
    } else {
      hide Value;
      DivModUnique(xy, TWO510, c, Val(l, d));
    }
  }

  /** The inverse of 2^510 modulo m. */
  const INVERSE510: int := 0x5a7315198668b4dbc64f93ff9db605a6484e5817adfdbc886f5e803873ef5c1

  /** A product of two 30-bit scalars, below 2^540, is reduced exactly iff nothing is dropped. */
  lemma KeptExactly(l: Layout, xy: int)
    requires l.word != 64 ==> 0 <= xy && xy / TWO510 < 0x40000000
    ensures Kept(l, xy) % M == xy % M <==> l.word == 64 || xy < TWO510
  {
    InverseOf510();
    if l.word != 64 {
      DroppedIff(xy, TWO510, INVERSE510, M);
    }
  }

  lemma InverseOf510()
    ensures TWO510 * INVERSE510 % M == 1
  {}

  /** Reducing modulo a unit t first changes nothing iff the number is below t, as long as the quotient is below m. */
  lemma DroppedIff(xy: int, t: int, inverse: int, m: int)
    requires m > 1 && t >= 1 && t * inverse % m == 1 && 0 <= xy && xy / t < m
    ensures xy % t % m == xy % m <==> xy < t
  {
    var q := xy / t;
    assert xy == xy % t + t * q;
    DivNonneg(xy, t);
    CancelUnit(t, inverse, xy % t, q, m);
    SmallMod(q, m);
    if xy < t {
      DivModUnique(xy, t, 0, xy);
    }
  }

  lemma ProductRange(l: Layout, x: seq<int>, y: seq<int>)
    requires Known(l) && IsScalar(l, x) && IsScalar(l, y)
    ensures l.word != 64 ==> 0 <= Val(l, x) * Val(l, y) && Val(l, x) * Val(l, y) / TWO510 < 0x40000000
  {
    if l.word != 64 {
      var b, n := Base(l), l.limbs;
      Pow2Words();
      KnownTop(l);
      hide Known, Value;
      ValueBound(b, x);
      ValueBound(b, y);
      PowAdd(b, n, n);
      assert Pow(b, 2 * n) == b * Pow(b, 2 * n - 1);
      hide Pow;
      BelowSquare(Val(l, x), Val(l, y), Pow(b, n));
      QuotientBelow(Val(l, x) * Val(l, y), Pow(b, 2 * n - 1), b);
    }
  }

  lemma BelowSquare(x: int, y: int, p: int)
    requires 0 <= x < p && 0 <= y < p
    ensures 0 <= x * y < p * p
  {
    MulMono(0, x, y);
    MulMono(x, p, y);
    MulMono(y, p - 1, p);
    MulDist(p, 1, p);
  }

  /** Adding a unit times q changes nothing modulo m iff m divides q. */
  lemma CancelUnit(t: int, inverse: int, x: int, q: int, m: int)
    requires m > 1 && t * inverse % m == 1
    ensures (x + t * q) % m == x % m <==> q % m == 0
  {
    DivModUnique(0, m, 0, 0);
    DivModUnique(1, m, 0, 1);
    if q % m == 0 {
      CongMul(t, t, q, 0, m);
      CongAdd(x, x, t * q, 0, m);
    }
    if (x + t * q) % m == x % m {
      CongAdd(x + t * q, x, x, x, m);
      CongMul(t * q, 0, inverse, inverse, m);
      CongMul(t * inverse, 1, q, q, m);
      Rearranged(t, q, inverse);
    }
  }

  lemma Rearranged(t: int, q: int, inverse: int)
    ensures (t * q) * inverse == (t * inverse) * q
  {}

  /** 2^255 times itself is lost altogether in the 30-bit layout. */
  lemma LostProduct(x: seq<int>)
    requires x == Zeros(8) + [0x8000]
    ensures IsScalar(L32, x) && Val(L32, x) * Val(L32, x) == TWO510
    ensures Kept(L32, Val(L32, x) * Val(L32, x)) % M == 0 != Val(L32, x) * Val(L32, x) % M
  {
    Pow2Words();
    hide Pow2;
    ScalarOf255(x, Pow2(30));
  }

  lemma ScalarOf255(x: seq<int>, b: int)
    requires x == Zeros(8) + [0x8000] && b == 0x40000000
    ensures |x| == 9 && Digits(b, x) && Value(b, x) * Value(b, x) == TWO510
  {
    hide Pow, Value;
    RadixPowers32(b);
    ValueConcat(b, Zeros(8), [0x8000]);
    ValueZero(b, Zeros(8));
    OneDigit(b, 0x8000);
  }

  lemma OneDigit(b: int, d: int)
    ensures Value(b, [d]) == d
  {
    assert Value(b, [d]) == d + b * Value(b, []);
  }

  lemma TopFits(v: int, p: int, c: int, e: int, bound: int)
    requires 0 <= v && 0 <= c && p >= 1 && v + p * c < bound
    ensures 0 <= v + p * c && (p * e >= bound ==> c < e)
  {
    MulMono(0, c, p);
    if c >= e {
      MulMono(e, c, p);
    }
  }

  lemma ProductParts(l: Layout, w: Marks, d: seq<int>, c: int, xy: int)
    requires LayoutPowers(l, w) && w.b264 >= 1 && w.b248 >= 1 && |d| == 2 * l.limbs - 1 && Digits(Base(l), d) && 0 <= c
    requires Val(l, d) + Pow(Base(l), 2 * l.limbs - 1) * c == xy
    ensures Val(l, d[..l.limbs]) % w.b264 == xy % w.b264
    ensures (Val(l, d[l.limbs - 1..]) + Pow(Base(l), l.limbs) * c) / Pow2(Top248(l)) == xy / w.b248
  {
    hide Value, Pow;
    var b, n := Base(l), l.limbs;
    SplitProduct(b, d, n, c);
    AboveTop(l, w, Val(l, d[..n]), Val(l, d[n..]) + Pow(b, n - 1) * c);
    SplitProduct(b, d, n - 1, c);
    ValueBound(b, d[..n - 1]);
    DivModSplit(xy, Pow(b, n - 1), Val(l, d[n - 1..]) + Pow(b, n) * c, Val(l, d[..n - 1]));
    DivDiv(xy, Pow(b, n - 1), Pow2(Top248(l)));
  }

  lemma SplitProduct(b: int, d: seq<int>, k: nat, c: int)
    requires k <= |d|
    ensures Value(b, d) + Pow(b, |d|) * c == Value(b, d[..k]) + Pow(b, k) * (Value(b, d[k..]) + Pow(b, |d| - k) * c)
  {
    ValueSplit(b, d, k);
    PowAdd(b, k, |d| - k);
    MulAssoc(Pow(b, k), Pow(b, |d| - k), c);
    MulDist(Value(b, d[k..]), Pow(b, |d| - k) * c, Pow(b, k));
  }
}
