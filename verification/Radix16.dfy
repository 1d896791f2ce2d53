/** Signed radix-16 recoding: 64 digits from -8 to 8. */
module Radix16 {
  import opened Arithmetic
  import opened Limbs
  import opened DigitCutting
  import opened ScalarModm
  import opened ScalarEncoding
  import opened Recoding

  const QUADS: nat := 64

  /** The carry out of a digit: its nearest multiple of 16. */
  function Carry16(x: int): int {
    (x + 8) / 16
  }

  /** The carry into digit i. */
  function CarryAt(e: seq<int>, i: nat): int
    requires i <= |e|
  {
    if i == 0 then 0 else Carry16(e[i - 1] + CarryAt(e, i - 1))
  }

  /** Each digit takes its carry in and gives 16 times its carry out; the last keeps what it has. */
  function SignedDigit(e: seq<int>, i: nat): int
    requires i < |e|
  {
    if i == |e| - 1 then e[i] + CarryAt(e, i) else e[i] + CarryAt(e, i) - 16 * CarryAt(e, i + 1)
  }

  function Signed(e: seq<int>): (r: seq<int>)
    ensures |r| == |e|
  {
    seq(|e|, i requires 0 <= i < |e| => SignedDigit(e, i))
  }

  /** The carry pass moves value between digits and keeps the sum. */
  lemma {:induction false} SignedValue(e: seq<int>, i: nat)
    requires i < |e|
    ensures Value(16, Signed(e)[i..]) == Value(16, e[i..]) + CarryAt(e, i)
    decreases |e| - i
  {
    var r := Signed(e);
    assert e[i..][1..] == e[i + 1..] && r[i..][1..] == r[i + 1..];
    if i == |e| - 1 {
      assert r[i + 1..] == [] && e[i + 1..] == [];
    } else {
      SignedValue(e, i + 1);
    }
  }

  /** From digits 0..15, carries are 0 or 1. */
  lemma {:induction false} CarryRange(e: seq<int>, i: nat)
    requires i <= |e| && Digits(16, e)
    ensures 0 <= CarryAt(e, i) <= 1
  {
    if i > 0 {
      CarryRange(e, i - 1);
    }
  }

  /** Every digit comes out in [-8, 7] but the last, which keeps its carry. */
  lemma SignedRange(e: seq<int>, i: nat)
    requires i < |e| && Digits(16, e)
    ensures i < |e| - 1 ==> -8 <= Signed(e)[i] <= 7
    ensures i == |e| - 1 ==> e[i] <= Signed(e)[i] <= e[i] + 1
  {
    CarryRange(e, i);
  }

  /** The recoding of x: 64 digits whose weighted sum is x, all within [-8, 8]. */
  function Signed16(x: int): seq<int> {
    Signed(DigitsOf(16, x, QUADS))
  }

  lemma QuadRange(n: nat)
    requires n == QUADS
    ensures Pow(16, n) == TWO256 && 16 * Pow(16, n - 1) == TWO256
  {
    BytePow(32);
    assert Pow(16, 2) == 256;
    PowMul(16, 2, 32);
  }

  lemma Signed16Correct(x: int)
    requires 0 <= x && 2 * x < TWO256
    ensures var r := Signed16(x);
            && |r| == QUADS && Value(16, r) == x
            && (forall k :: 0 <= k < QUADS ==> -8 <= r[k] <= 8)
            && (forall k :: 0 <= k < QUADS - 1 ==> r[k] <= 7)
  {
    var n := QUADS;
    var e := DigitsOf(16, x, n);
    QuadRange(n);
    DigitsOfValue(16, x, n);
    SmallMod(x, TWO256);
    SignedValue(e, 0);
    assert e[0..] == e && Signed(e)[0..] == Signed(e);
    TopQuad(e, x, n);
    hide Signed, DigitsOf;
    forall k | 0 <= k < n ensures -8 <= Signed(e)[k] <= 8 && (k < n - 1 ==> Signed(e)[k] <= 7) {
      SignedRange(e, k);
    }
  }

  /** All digits but the last from -8 to 7. */
  ghost predicate Balanced(r: seq<int>) {
    forall k :: 0 <= k < |r| - 1 ==> -8 <= r[k] <= 7
  }

  /** The sum and these bounds determine the digits. */
  lemma {:induction false} BalancedUnique(a: seq<int>, b: seq<int>)
    requires |a| == |b| && Balanced(a) && Balanced(b) && Value(16, a) == Value(16, b)
    ensures a == b
    decreases |a|
  {
    if a != [] {
      assert a == [a[0]] + a[1..] && b == [b[0]] + b[1..];
      if |a| > 1 {
        assert Balanced(a[1..]) && Balanced(b[1..]);
        BalancedUnique(a[1..], b[1..]);
      }
    }
  }

  /** Below 2^255 the top digit is at most 7, so it can take a carry. */
  lemma TopQuad(e: seq<int>, x: int, n: nat)
    requires n == QUADS && |e| == n && Digits(16, e) && Value(16, e) == x && 2 * x < TWO256
    ensures e[n - 1] <= 7
  {
    QuadRange(n);
    ValueSnoc(16, e, n - 1);
    assert e[..n] == e;
    ValueBound(16, e[..n - 1]);
    hide Value, Pow;
    if e[n - 1] >= 8 {
      MulMono(8, e[n - 1], Pow(16, n - 1));
    }
  }

  lemma SignedStep(e: seq<int>, i: nat)
    requires i + 1 < |e|
    ensures CarryAt(e, i + 1) == Carry16(e[i] + CarryAt(e, i))
    ensures Signed(e)[i] == e[i] + CarryAt(e, i) - 16 * CarryAt(e, i + 1)
  {
    hide Carry16;
  }

  lemma SignedLast(e: seq<int>)
    requires e != []
    ensures Signed(e)[|e| - 1] == e[|e| - 1] + CarryAt(e, |e| - 1)
  {
    hide Carry16, CarryAt;
  }

  /**
   Donna's carry pass. A digit of 16 passes its overflow to the next digit at once
   and its carry is then zero, so no digit ever exceeds 16.
   */
  method MakeSigned(r: array<int>)
    requires r.Length == QUADS && Digits(16, r[..])
    modifies r
    ensures r[..] == Signed(old(r[..]))
  {
    ghost var e := r[..];
    var carry := 0;
    assert CarryAt(e, 0) == 0;
    hide Signed, Carry16, CarryAt;
    for i := 0 to r.Length - 1
      invariant forall k :: 0 <= k < i ==> r[k] == Signed(e)[k]
      invariant r[i] + carry == e[i] + CarryAt(e, i)
      invariant forall k :: i < k < r.Length ==> r[k] == e[k]
    {
      CarryRange(e, i);
      SignedStep(e, i);
      var digit, bump;
      digit, bump, carry := WrapDigit(r[i] + carry);
      r[i], r[i + 1] := digit, r[i + 1] + bump;
    }
    SignedLast(e);
    r[r.Length - 1] := r[r.Length - 1] + carry;
  }

  /** Donna splits the carry in two: the overflow past 15 and the sign of what is left. */
  method WrapDigit(x: int) returns (digit: int, bump: int, carry: int)
    requires 0 <= x <= 16
    ensures bump + carry == Carry16(x) && digit == x - 16 * Carry16(x)
  {
    bump := x / 16;
    digit := x % 16;
    carry := digit / 8;
    digit := digit - 16 * carry;
  }

  /** ref10's carry pass. */
  method MakeSignedRef(r: array<int>)
    requires r.Length == QUADS
    modifies r
    ensures r[..] == Signed(old(r[..]))
  {
    ghost var e := r[..];
    var carry := 0;
    assert CarryAt(e, 0) == 0;
    hide Signed, Carry16, CarryAt;
    for i := 0 to r.Length - 1
      invariant forall k :: 0 <= k < i ==> r[k] == Signed(e)[k]
      invariant carry == CarryAt(e, i)
      invariant forall k :: i <= k < r.Length ==> r[k] == e[k]
    {
      SignedStep(e, i);
      r[i], carry := SplitDigit(r[i] + carry);
    }
    SignedLast(e);
    r[r.Length - 1] := r[r.Length - 1] + carry;
  }

  /** A digit and its carry, rounding to the nearest multiple of 16. */
  method SplitDigit(x: int) returns (digit: int, carry: int)
    ensures carry == Carry16(x) && digit == x - 16 * carry && -8 <= digit <= 7
  {
    carry := (x + 8) / 16;
    digit := x - 16 * carry;
  }

  /**
   The nibbles of a scalar. The 64-bit layout takes fourteen from each limb; the
   32-bit layout takes fifteen from each pair of limbs, seven from the first and
   eight from what is left of it joined with the second.
   */
  method Nibbles(l: Layout, r: array<int>, s: seq<int>)
    requires Known(l) && Recodable(l, s) && r.Length == QUADS
    modifies r
    ensures r[..] == DigitsOf(16, Val(l, s), QUADS)
  {
    if l.word == 64 {
      NibblePowers();
      EmitGroups(r, 16, s, 14, 8);
      GroupsAreDigits(16, s, 14, 8, r.Length);
    } else {
      Nibbles32(r, s);
    }
  }

  lemma NibblePowers()
    ensures Pow(16, 14) == Pow2(56) && Pow(16, 8) == Pow2(32) && Pow(16, 15) == Pow2(60)
    ensures Pow(16, 7) == Pow2(28) && Pow(16, 4) == Pow2(16)
  {
    assert Pow2(4) == 16;
    PowOfPow2(4, 14);
    PowOfPow2(4, 8);
    PowOfPow2(4, 15);
    PowOfPow2(4, 7);
    PowOfPow2(4, 4);
  }

  lemma {:induction false} DigitsOfSplit(b: int, x: int, n: nat, k: nat)
    requires b >= 1
    ensures DigitsOf(b, x, n + k) == DigitsOf(b, x, n) + DigitsOf(b, x / Pow(b, n), k)
    decreases n
  {
    if n > 0 {
      DigitsOfSplit(b, x / b, n - 1, k);
      DivDiv(x, b, Pow(b, n - 1));
    }
  }

  lemma DigitsOfCong(b: int, x: int, y: int, n: nat)
    requires b >= 1 && x % Pow(b, n) == y % Pow(b, n)
    ensures DigitsOf(b, x, n) == DigitsOf(b, y, n)
  {
    DigitsOfValue(b, x, n);
    DigitsOfValue(b, y, n);
    ValueInjective(b, DigitsOf(b, x, n), DigitsOf(b, y, n));
  }

  /** Two 30-bit limbs as one 60-bit digit. */
  function Joined30(x: int, y: int): int {
    x + 0x40000000 * y
  }

  /** Seven nibbles of the first limb, eight of its two top bits joined with the second. */
  lemma PairNibbles(x: int, y: int)
    requires 0 <= x < 0x40000000 && 0 <= y
    ensures DigitsOf(16, x, 7) + DigitsOf(16, x / 0x10000000 + 4 * y, 8) == DigitsOf(16, Joined30(x, y), 15)
  {
    assert Pow(16, 7) == 0x10000000;
    hide DigitsOf, Pow;
    var p := Joined30(x, y);
    assert p / 0x10000000 == x / 0x10000000 + 4 * y && p % 0x10000000 == x % 0x10000000;
    hide Joined30;
    DigitsOfSplit(16, p, 7, 8);
    DigitsOfCong(16, p, x, 7);
  }

  function Pairs(s: seq<int>): seq<int>
    requires |s| == 9
  {
    [Joined30(s[0], s[1]), Joined30(s[2], s[3]), Joined30(s[4], s[5]), Joined30(s[6], s[7]), s[8]]
  }

  lemma PairsValue(s: seq<int>)
    requires |s| == 9
    ensures Value(0x1000000000000000, Pairs(s)) == Value(0x40000000, s)
  {
    hide Value;
    Value9(0x40000000, s);
    Value5(0x1000000000000000, Pairs(s), 0);
    assert Pairs(s)[0..] == Pairs(s);
  }

  method Nibbles32(r: array<int>, s: seq<int>)
    requires IsScalar(L32, s) && s[8] < Pow2(16) && r.Length == QUADS
    modifies r
    ensures r[..] == DigitsOf(16, Val(L32, s), QUADS)
  {
    Pow2Words();
    NibblePowers();
    PairsValue(s);
    ghost var p := Pairs(s);
    hide DigitsOf, Spread, Value, Pow, Pairs;
    WholePairs(r, s);
    ghost var before := r[..60];
    var _ := Emit(r, 60, 16, s[8], 4);
    PairAt(s, 4);
    assert r[..] == before + DigitsOf(16, s[8], 4);
    PairsBound(s);
    GroupsAreDigits(16, p, 15, 4, r.Length);
  }

  /** The first eight limbs, two at a time. */
  method WholePairs(r: array<int>, s: seq<int>)
    requires |s| == 9 && Digits(0x40000000, s) && r.Length == QUADS
    modifies r
    ensures |Pairs(s)| == 5 && r[..60] == Spread(16, Pairs(s)[..4], 15)
  {
    NoPairs(s);
    hide *;
    for i := 0 to 4
      invariant |Pairs(s)| == 5 && r[..15 * i] == Spread(16, Pairs(s)[..i], 15)
    {
      OnePair(r, s, i);
    }
  }

  lemma NoPairs(s: seq<int>)
    requires |s| == 9
    ensures |Pairs(s)| == 5 && Spread(16, Pairs(s)[..0], 15) == []
  {
    PairAt(s, 0);
  }

  method OnePair(r: array<int>, s: seq<int>, i: nat)
    requires |s| == 9 && Digits(0x40000000, s) && r.Length == QUADS && i < 4
    requires |Pairs(s)| == 5 && r[..15 * i] == Spread(16, Pairs(s)[..i], 15)
    modifies r
    ensures r[..15 * (i + 1)] == Spread(16, Pairs(s)[..i + 1], 15)
  {
    hide DigitsOf, Spread, Pairs, Joined30;
    ghost var p, before := Pairs(s), r[..15 * i];
    EmitPair(r, 15 * i, s[2 * i], s[2 * i + 1]);
    PairAt(s, i);
    assert p[..i + 1] == p[..i] + [p[i]];
    SpreadSnoc(16, p[..i], 15, p[i]);
    assert r[..15 * (i + 1)] == before + DigitsOf(16, p[i], 15);
  }

  lemma PairAt(s: seq<int>, i: nat)
    requires |s| == 9 && i <= 4
    ensures |Pairs(s)| == 5 && Pairs(s)[i] == if i == 4 then s[8] else Joined30(s[2 * i], s[2 * i + 1])
  {}

  lemma PairsBound(s: seq<int>)
    requires |s| == 9 && Digits(0x40000000, s) && s[8] < 0x10000
    ensures Digits(0x1000000000000000, Pairs(s)) && Pairs(s)[4] < 0x10000
  {}

  method EmitPair(r: array<int>, pos: nat, x: int, y: int)
    requires pos + 15 <= r.Length && 0 <= x < 0x40000000 && 0 <= y
    modifies r
    ensures r[..] == old(r[..pos]) + DigitsOf(16, Joined30(x, y), 15) + old(r[pos + 15..])
  {
    assert Pow(16, 7) == 0x10000000;
    PairNibbles(x, y);
    hide DigitsOf;
    ghost var lo, hi := r[..pos], r[pos + 15..];
    var v := Emit(r, pos, 16, x, 7);
    assert r[..pos + 7] == lo + DigitsOf(16, x, 7) && r[pos + 15..] == hi;
    v := v + 4 * y;
    var _ := Emit(r, pos + 7, 16, v, 8);
    Concat4(lo, DigitsOf(16, x, 7), DigitsOf(16, v, 8), hi);
  }

  lemma Concat4(a: seq<int>, b: seq<int>, c: seq<int>, d: seq<int>)
    ensures (a + b) + c + d == a + (b + c) + d
  {}

  /** contract256_window4_modm. */
  method ContractWindow4(l: Layout, r: array<int>, s: seq<int>)
    requires Known(l) && Recodable(l, s) && r.Length == QUADS
    modifies r
    ensures r[..] == Signed16(Val(l, s)) && Value(16, r[..]) == Val(l, s)
    ensures forall k :: 0 <= k < QUADS ==> -8 <= r[k] <= 8
    ensures forall k :: 0 <= k < QUADS - 1 ==> r[k] <= 7
  {
    ValueBound(Base(l), s);
    Nibbles(l, r, s);
    DigitsOfValue(16, Val(l, s), QUADS);
    MakeSigned(r);
    Signed16Correct(Val(l, s));
  }

  /** The digits ref10 makes of the same number, from its 32 bytes. */
  method Window4Ref(r: array<int>, a: seq<int>)
    requires r.Length == QUADS && |a| == 32 && Digits(256, a)
    modifies r
    ensures r[..] == Signed16(LittleEndian(a))
    ensures 2 * LittleEndian(a) < TWO256 ==> Value(16, r[..]) == LittleEndian(a) && forall k :: 0 <= k < QUADS - 1 ==> -8 <= r[k] <= 7
  {
    assert Pow(16, 2) == 256;
    EmitGroups(r, 16, a, 2, 2);
    GroupsAreDigits(16, a, 2, 2, r.Length);
    MakeSignedRef(r);
    ValueBound(256, a);
    if 2 * LittleEndian(a) < TWO256 {
      Signed16Correct(LittleEndian(a));
    }
  }
}
