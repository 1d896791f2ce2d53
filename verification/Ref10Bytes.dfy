/** The reference implementation's encoding of field elements, in ten limbs of alternately 26 and 25 bits. */
module Ref10Bytes {
  import opened Arithmetic
  import opened Limbs
  import opened Field51
  import opened FieldEncoding
  import opened ScalarModm

  newtype i32 = x: int | -0x80000000 <= x < 0x80000000

  const E26: int := 0x4000000
  const E25: int := 0x2000000
  const E230: int := E26 * E25 * E26 * E25 * E26 * E25 * E26 * E25 * E26

  datatype Fe10 = Fe10(h0: i32, h1: i32, h2: i32, h3: i32, h4: i32, h5: i32, h6: i32, h7: i32, h8: i32, h9: i32)

  function Low5(a: int, b: int, c: int, d: int, e: int): int {
    a + E26 * (b + E25 * (c + E26 * (d + E25 * e)))
  }

  function High5(a: int, b: int, c: int, d: int, e: int): int {
    a + E25 * (b + E26 * (c + E25 * (d + E26 * e)))
  }

  const TWO127: int := 0x80000000000000000000000000000000

  function Eval10(h: Fe10): int {
    Low5(h.h0 as int, h.h1 as int, h.h2 as int, h.h3 as int, h.h4 as int)
    + TWO128 * High5(h.h5 as int, h.h6 as int, h.h7 as int, h.h8 as int, h.h9 as int)
  }

  predicate Near(x: i32, n: int) {
    -11 * n <= 10 * x as int <= 11 * n
  }

  /** Limbs at most 1.1 times their nominal range. */
  predicate Loose(h: Fe10) {
    && Near(h.h0, E26) && Near(h.h1, E25) && Near(h.h2, E26) && Near(h.h3, E25) && Near(h.h4, E26)
    && Near(h.h5, E25) && Near(h.h6, E26) && Near(h.h7, E25) && Near(h.h8, E26) && Near(h.h9, E25)
  }

  /** The part below the top limb. */
  function Rest(h: Fe10): int {
    Eval10(h) - E230 * h.h9 as int
  }

  lemma RestBound(h: Fe10)
    requires Loose(h)
    ensures -2 * E230 <= Rest(h) <= 2 * E230
  {}

  /** The floor estimate is exact: 19 h9 / 2^25 rounded stands in for 19 times the quotient. */
  lemma EstimateExact(v: int, rest: int, h9: int, q0: int, q: int, rem: int)
    requires v == rest + E230 * h9 && -2 * E230 <= rest <= 2 * E230 && -2 * E25 <= h9 <= 2 * E25
    requires E25 * q0 <= 19 * h9 + E25 / 2 < E25 * q0 + E25
    requires v + q0 == TWO255 * q + rem && 0 <= rem < TWO255
    ensures v / P == q && v % P == v - q * P
  {
    var t, r := v / P, v % P;
    SmallDefect(v, rest, h9, q0, t, r);
    DivModUnique(v + q0, TWO255, t, r + q0 - 19 * t);
    DivModUnique(v + q0, TWO255, q, rem);
  }

  lemma SmallDefect(v: int, rest: int, h9: int, q0: int, t: int, r: int)
    requires v == rest + E230 * h9 && -2 * E230 <= rest <= 2 * E230 && -2 * E25 <= h9 <= 2 * E25
    requires E25 * q0 <= 19 * h9 + E25 / 2 < E25 * q0 + E25
    requires v == t * P + r && 0 <= r < P
    ensures 0 <= q0 - 19 * t <= 19
  {
    assert -8 <= t <= 8;
  }

  /** A limb with its carry in, as its digit and its carry out. */
  method Split26(x: i32, c: i32) returns (r: i32, q: i32)
    requires Near(x, E26) && -0x1000 <= c <= 0x1000
    ensures x as int + c as int == r as int + E26 * q as int && 0 <= r as int < E26 && -0x1000 <= q <= 0x1000
  {
    q := (x + c) / 0x4000000;
    r := x + c - q * 0x4000000;
  }

  method Split25(x: i32, c: i32) returns (r: i32, q: i32)
    requires Near(x, E25) && -0x1000 <= c <= 0x1000
    ensures x as int + c as int == r as int + E25 * q as int && 0 <= r as int < E25 && -0x1000 <= q <= 0x1000
  {
    q := (x + c) / 0x2000000;
    r := x + c - q * 0x2000000;
  }

  predicate LowDigits(t: Fe10) {
    && 0 <= t.h0 as int < E26 && 0 <= t.h1 as int < E25 && 0 <= t.h2 as int < E26 && 0 <= t.h3 as int < E25 && 0 <= t.h4 as int < E26
  }

  predicate HighDigits(t: Fe10) {
    && 0 <= t.h5 as int < E25 && 0 <= t.h6 as int < E26 && 0 <= t.h7 as int < E25 && 0 <= t.h8 as int < E26 && 0 <= t.h9 as int < E25
  }

  function LowValue(t: Fe10): int {
    Low5(t.h0 as int, t.h1 as int, t.h2 as int, t.h3 as int, t.h4 as int)
  }

  function HighValue(t: Fe10): int {
    High5(t.h5 as int, t.h6 as int, t.h7 as int, t.h8 as int, t.h9 as int)
  }

  method ChainLow(h: Fe10, c: i32) returns (t: Fe10, q: i32)
    requires Loose(h) && -0x1000 <= c <= 0x1000
    ensures LowDigits(t) && t == h.(h0 := t.h0, h1 := t.h1, h2 := t.h2, h3 := t.h3, h4 := t.h4)
    ensures LowValue(h) + c as int == LowValue(t) + TWO128 * q as int && -0x1000 <= q <= 0x1000
  {
    var r0, q0 := Split26(h.h0, c);
    var r1, q1 := Split25(h.h1, q0);
    var r2, q2 := Split26(h.h2, q1);
    var r3, q3 := Split25(h.h3, q2);
    var r4, q4 := Split26(h.h4, q3);
    t, q := h.(h0 := r0, h1 := r1, h2 := r2, h3 := r3, h4 := r4), q4;
  }

  method ChainHigh(h: Fe10, c: i32) returns (t: Fe10, q: i32)
    requires Near(h.h5, E25) && Near(h.h6, E26) && Near(h.h7, E25) && Near(h.h8, E26) && Near(h.h9, E25) && -0x1000 <= c <= 0x1000
    ensures HighDigits(t) && t == h.(h5 := t.h5, h6 := t.h6, h7 := t.h7, h8 := t.h8, h9 := t.h9)
    ensures HighValue(h) + c as int == HighValue(t) + TWO127 * q as int && -0x1000 <= q <= 0x1000
  {
    var r5, q5 := Split25(h.h5, c);
    var r6, q6 := Split26(h.h6, q5);
    var r7, q7 := Split25(h.h7, q6);
    var r8, q8 := Split26(h.h8, q7);
    var r9, q9 := Split25(h.h9, q8);
    t, q := h.(h5 := r5, h6 := r6, h7 := r7, h8 := r8, h9 := r9), q9;
  }

  /** A pass along all ten limbs: digits in range and what leaves the top. */
  method Chain(h: Fe10, c: i32) returns (t: Fe10, q: i32)
    requires Loose(h) && -0x1000 <= c <= 0x1000
    ensures LowDigits(t) && HighDigits(t) && Eval10(h) + c as int == Eval10(t) + TWO255 * q as int
  {
    hide Low5, High5;
    var low, mid := ChainLow(h, c);
    t, q := ChainHigh(low, mid);
  }

  lemma DigitsBound(t: Fe10)
    requires LowDigits(t) && HighDigits(t)
    ensures 0 <= LowValue(t) < TWO128 && 0 <= HighValue(t) < TWO127 && 0 <= Eval10(t) < TWO255
  {}

  /** The least residue in ten digits: the first pass finds the quotient by P, the second takes it off. */
  method Freeze10(h: Fe10) returns (t: Fe10)
    requires Loose(h)
    ensures LowDigits(t) && HighDigits(t) && Eval10(t) == Eval10(h) % P
  {
    var q0 := (19 * h.h9 + 0x1000000) / 0x2000000;
    var digits, q := Chain(h, q0);
    DigitsBound(digits);
    RestBound(h);
    EstimateExact(Eval10(h), Rest(h), h.h9 as int, q0 as int, q as int, Eval10(digits));
    hide Low5, High5, Rest;
    t := TakeOff(h, q);
  }

  lemma Unwrapped(v: int, t: int, q: int, top: int)
    requires v % P == v - q * P && v + 19 * q == t + TWO255 * top && 0 <= t < TWO255
    ensures t == v % P
  {
    DivModUnique(v + 19 * q, TWO255, q, v % P);
    DivModUnique(v + 19 * q, TWO255, top, t);
  }

  method TakeOff(h: Fe10, q: i32) returns (t: Fe10)
    requires Loose(h) && q as int == Eval10(h) / P && Eval10(h) % P == Eval10(h) - q as int * P && -8 <= q <= 8
    ensures LowDigits(t) && HighDigits(t) && Eval10(t) == Eval10(h) % P
  {
    hide Eval10, Near;
    var top;
    t, top := Chain(h, 19 * q);
    DigitsBound(t);
    Unwrapped(Eval10(h), Eval10(t), q as int, top as int);
  }

  /** A limb as the bits that complete a byte, two whole bytes and the bits left over. */
  lemma Pieces(x: int, k: int)
    requires k >= 1
    ensures x == x % k + k * (x / k % 256 + 256 * (x / (256 * k) % 256 + 256 * (x / (65536 * k))))
  {
    var y := x / k;
    DivDiv(x, k, 256);
    DivDiv(x, k, 65536);
    ThreeBytes(y, x / (256 * k), x / (65536 * k));
    assert x == x % k + k * y;
  }

  lemma ThreeBytes(y: int, y1: int, y2: int)
    requires y1 == y / 256 && y2 == y / 65536
    ensures y == y % 256 + 256 * (y1 % 256 + 256 * y2)
  {}

  /** A byte shared by two limbs: the top of one below the bottom of the next, whose overflow is lost. */
  function Shared(top: int, x: int, shift: int): int {
    top + x * shift % 256
  }

  lemma SharedByte(top: int, x: int, shift: int, k: int)
    requires 0 <= top < shift && shift * k == 256 && 0 <= x && k >= 1
    ensures Shared(top, x, shift) == top + shift * (x % k) && 0 <= Shared(top, x, shift) < 256
  {
    ScaledSplit(x, k, x / k, x % k, shift);
    LowPart(0, shift, x % k, k);
    DivModUnique(x * shift, 256, x / k, shift * (x % k));
    LowPart(top, shift, x % k, k);
  }

  function Horner16(s: seq<int>): int
    requires |s| == 16
  {
    s[0] + 256 * (s[1] + 256 * (s[2] + 256 * (s[3] + 256 * (s[4] + 256 * (s[5] + 256 * (s[6] + 256 * (s[7]
    + 256 * (s[8] + 256 * (s[9] + 256 * (s[10] + 256 * (s[11] + 256 * (s[12] + 256 * (s[13] + 256 * (s[14] + 256 * s[15]))))))))))))))
  }

  /** The first sixteen bytes, from the limbs of bits 0 to 127. */
  function LowBytes(a: int, b: int, c: int, d: int, e: int): seq<int> {
    [a % 256, a / 0x100 % 256, a / 0x10000 % 256, Shared(a / 0x1000000, b, 4),
     b / 0x40 % 256, b / 0x4000 % 256, Shared(b / 0x400000, c, 8),
     c / 0x20 % 256, c / 0x2000 % 256, Shared(c / 0x200000, d, 32),
     d / 0x8 % 256, d / 0x800 % 256, Shared(d / 0x80000, e, 64),
     e / 0x4 % 256, e / 0x400 % 256, e / 0x40000]
  }

  lemma LowBytesValue(a: int, b: int, c: int, d: int, e: int)
    requires 0 <= a < E26 && 0 <= b < E25 && 0 <= c < E26 && 0 <= d < E25 && 0 <= e < E26
    ensures Horner16(LowBytes(a, b, c, d, e)) == Low5(a, b, c, d, e)
  {
    Pieces(a, 256);
    Pieces(b, 64);
    Pieces(c, 32);
    Pieces(d, 8);
    Pieces(e, 4);
    SharedByte(a / 0x1000000, b, 4, 64);
    SharedByte(b / 0x400000, c, 8, 32);
    SharedByte(c / 0x200000, d, 32, 8);
    SharedByte(d / 0x80000, e, 64, 4);
    hide Shared;
  }

  lemma LowBytesRange(a: int, b: int, c: int, d: int, e: int)
    requires 0 <= a < E26 && 0 <= b < E25 && 0 <= c < E26 && 0 <= d < E25 && 0 <= e < E26
    ensures Digits(256, LowBytes(a, b, c, d, e))
  {
    SharedByte(a / 0x1000000, b, 4, 64);
    SharedByte(b / 0x400000, c, 8, 32);
    SharedByte(c / 0x200000, d, 32, 8);
    SharedByte(d / 0x80000, e, 64, 4);
    hide Shared;
  }

  /** The last sixteen bytes, from the limbs of bits 128 to 254. */
  function HighBytes(a: int, b: int, c: int, d: int, e: int): seq<int> {
    [a % 256, a / 0x100 % 256, a / 0x10000 % 256, Shared(a / 0x1000000, b, 2),
     b / 0x80 % 256, b / 0x8000 % 256, Shared(b / 0x800000, c, 8),
     c / 0x20 % 256, c / 0x2000 % 256, Shared(c / 0x200000, d, 16),
     d / 0x10 % 256, d / 0x1000 % 256, Shared(d / 0x100000, e, 64),
     e / 0x4 % 256, e / 0x400 % 256, e / 0x40000]
  }

  lemma HighBytesValue(a: int, b: int, c: int, d: int, e: int)
    requires 0 <= a < E25 && 0 <= b < E26 && 0 <= c < E25 && 0 <= d < E26 && 0 <= e < E25
    ensures Horner16(HighBytes(a, b, c, d, e)) == High5(a, b, c, d, e)
  {
    Pieces(a, 256);
    Pieces(b, 128);
    Pieces(c, 32);
    Pieces(d, 16);
    Pieces(e, 4);
    SharedByte(a / 0x1000000, b, 2, 128);
    SharedByte(b / 0x800000, c, 8, 32);
    SharedByte(c / 0x200000, d, 16, 16);
    SharedByte(d / 0x100000, e, 64, 4);
    hide Shared;
  }

  lemma HighBytesRange(a: int, b: int, c: int, d: int, e: int)
    requires 0 <= a < E25 && 0 <= b < E26 && 0 <= c < E25 && 0 <= d < E26 && 0 <= e < E25
    ensures Digits(256, HighBytes(a, b, c, d, e))
  {
    SharedByte(a / 0x1000000, b, 2, 128);
    SharedByte(b / 0x800000, c, 8, 32);
    SharedByte(c / 0x200000, d, 16, 16);
    SharedByte(d / 0x100000, e, 64, 4);
    hide Shared;
  }

  lemma Value16(s: seq<int>)
    requires |s| == 16
    ensures Value(256, s) == Horner16(s)
  {
    hide Value;
    ValueCons(256, s, 0);
    ValueCons(256, s, 1);
    ValueCons(256, s, 2);
    ValueCons(256, s, 3);
    ValueCons(256, s, 4);
    ValueCons(256, s, 5);
    ValueCons(256, s, 6);
    ValueCons(256, s, 7);
    ValueCons(256, s, 8);
    ValueCons(256, s, 9);
    ValueCons(256, s, 10);
    ValueCons(256, s, 11);
    ValueCons(256, s, 12);
    ValueCons(256, s, 13);
    ValueCons(256, s, 14);
    ValueCons(256, s, 15);
    assert s[0..] == s && s[16..] == [];
    EmptyValue();
  }

  lemma EmptyValue()
    ensures Value(256, []) == 0
  {}

  lemma TwoHalves(low: seq<int>, high: seq<int>, n: nat)
    requires |low| == |high| == n == 16 && Digits(256, low) && Digits(256, high)
    ensures |low + high| == 32 && Digits(256, low + high)
    ensures Value(256, low + high) == Horner16(low) + TWO128 * Horner16(high)
  {
    hide Value, Horner16;
    ValueConcat(256, low, high);
    SixteenBytes(n);
    Value16(low);
    Value16(high);
  }

  /** fe_tobytes: the same bytes as curve25519_contract for the same residue. */
  method ToBytes(h: Fe10) returns (s: seq<int>)
    requires Loose(h)
    ensures s == Encode(Eval10(h) % P)
  {
    var t := Freeze10(h);
    ghost var v := Eval10(h) % P;
    var low := LowBytes(t.h0 as int, t.h1 as int, t.h2 as int, t.h3 as int, t.h4 as int);
    var high := HighBytes(t.h5 as int, t.h6 as int, t.h7 as int, t.h8 as int, t.h9 as int);
    LowBytesValue(t.h0 as int, t.h1 as int, t.h2 as int, t.h3 as int, t.h4 as int);
    HighBytesValue(t.h5 as int, t.h6 as int, t.h7 as int, t.h8 as int, t.h9 as int);
    LowBytesRange(t.h0 as int, t.h1 as int, t.h2 as int, t.h3 as int, t.h4 as int);
    HighBytesRange(t.h5 as int, t.h6 as int, t.h7 as int, t.h8 as int, t.h9 as int);
    hide Low5, High5, LowBytes, HighBytes, Horner16, Encode;
    TwoHalves(low, high, 16);
    s := low + high;
    EncodeUnique(s, v);
  }

  /** Limbs within their bounds can stand for a number above P. */
  lemma LooseAboveP(h: Fe10)
    requires h == Fe10(0, 0, 0, 0, 0, 0, 0, 0, 0, 36000000)
    ensures Loose(h) && Eval10(h) > P
  {}
}
