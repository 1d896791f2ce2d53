/**
 Numbers as sequences of digits, least significant first, and the two limb
 layouts of the scalar arithmetic: five 56-bit limbs in 64-bit words and nine
 30-bit limbs in 32-bit words.
 */
module Limbs {
  import opened Arithmetic

  function Zeros(n: nat): (r: seq<int>)
    ensures |r| == n
  {
    seq(n, _ => 0)
  }

  const TWO128: int := 0x100000000000000000000000000000000

  lemma SixteenBytes(n: nat)
    requires n == 16
    ensures Pow(256, n) == TWO128
  {
    assert Pow(256, 4) == 0x100000000;
    PowSquare(256, 4, 0x100000000);
    PowSquare(256, 8, 0x10000000000000000);
  }

  datatype Layout = Layout(bits: nat, limbs: nat, word: nat)

  const L64 := Layout(56, 5, 64)
  const L32 := Layout(30, 9, 32)

  predicate Known(l: Layout) {
    l == L64 || l == L32
  }

  /** All that most proofs need to know of a layout. */
  predicate Sane(l: Layout) {
    1 <= l.bits && l.bits + 2 <= l.word && 1 <= l.limbs
  }

  function Base(l: Layout): nat {
    Pow2(l.bits)
  }

  /** Every digit lies in [0, b). */
  predicate Digits(b: int, s: seq<int>) {
    forall i :: 0 <= i < |s| ==> 0 <= s[i] < b
  }

  /** A properly carried number in layout l. */
  predicate IsScalar(l: Layout, s: seq<int>) {
    |s| == l.limbs && Digits(Base(l), s)
  }

  /** The sum of s[i] * b^i; digits may be negative. */
  function Value(b: int, s: seq<int>): int
    decreases |s|
  {
    if s == [] then 0 else s[0] + b * Value(b, s[1..])
  }

  /** The integer a scalar stands for. */
  function Val(l: Layout, s: seq<int>): int {
    Value(Base(l), s)
  }

  lemma {:induction false} ValueConcat(b: int, s: seq<int>, t: seq<int>)
    ensures Value(b, s + t) == Value(b, s) + Pow(b, |s|) * Value(b, t)
    decreases |s|
  {
    if s == [] {
      assert s + t == t;
    } else {
      ValueConcat(b, s[1..], t);
      assert (s + t)[1..] == s[1..] + t;
      MulDist(Value(b, s[1..]), Pow(b, |s| - 1) * Value(b, t), b);
      MulAssoc(b, Pow(b, |s| - 1), Value(b, t));
    }
  }

  lemma ValueSplit(b: int, s: seq<int>, k: nat)
    requires k <= |s|
    ensures Value(b, s) == Value(b, s[..k]) + Pow(b, k) * Value(b, s[k..])
  {
    ValueConcat(b, s[..k], s[k..]);
    assert s[..k] + s[k..] == s;
  }

  lemma ValueSnoc(b: int, s: seq<int>, k: nat)
    requires k < |s|
    ensures Value(b, s[..k + 1]) == Value(b, s[..k]) + Pow(b, k) * s[k]
  {
    assert s[..k + 1] == s[..k] + [s[k]];
    ValueConcat(b, s[..k], [s[k]]);
    assert Value(b, [s[k]]) == s[k] + b * Value(b, []);
  }

  lemma {:induction false} ValueBound(b: int, s: seq<int>)
    requires b >= 1 && Digits(b, s)
    ensures 0 <= Value(b, s) < Pow(b, |s|)
    decreases |s|
  {
    if s != [] {
      ValueBound(b, s[1..]);
      OneMoreDigit(b, s[0], Value(b, s[1..]), Pow(b, |s| - 1));
    }
  }

  lemma OneMoreDigit(b: int, d: int, v: int, p: int)
    requires 0 <= d < b && 0 <= v < p
    ensures 0 <= d + b * v < b * p
  {
    MulMono(v, p - 1, b);
    MulMono(0, v, b);
    MulDist(p, 1, b);
  }

  /** The digits from k on are the quotient by b^k, those below k the remainder. */
  lemma ValueDivMod(b: int, s: seq<int>, k: nat)
    requires b >= 1 && Digits(b, s) && k <= |s|
    ensures Value(b, s) / Pow(b, k) == Value(b, s[k..])
    ensures Value(b, s) % Pow(b, k) == Value(b, s[..k])
  {
    ValueSplit(b, s, k);
    ValueBound(b, s[..k]);
    DivModSplit(Value(b, s), Pow(b, k), Value(b, s[k..]), Value(b, s[..k]));
  }

  lemma ValueUpdate(b: int, s: seq<int>, k: nat, v: int)
    requires k < |s|
    ensures Value(b, s[k := v]) == Value(b, s) + (v - s[k]) * Pow(b, k)
  {
    ValueSplit(b, s, k);
    ValueSplit(b, s[k := v], k);
    assert s[k := v][..k] == s[..k];
    assert s[k := v][k..][1..] == s[k..][1..];
    assert Value(b, s[k := v][k..]) == Value(b, s[k..]) + (v - s[k]);
    MulDist(Value(b, s[k..]), v - s[k], Pow(b, k));
  }

  lemma {:induction false} ValueZero(b: int, s: seq<int>)
    requires forall i :: 0 <= i < |s| ==> s[i] == 0
    ensures Value(b, s) == 0
    decreases |s|
  {
    if s != [] {
      ValueZero(b, s[1..]);
    }
  }

  /** Digits of equal value and equal length are equal. */
  lemma {:induction false} ValueInjective(b: int, s: seq<int>, t: seq<int>)
    requires b >= 1 && Digits(b, s) && Digits(b, t) && |s| == |t| && Value(b, s) == Value(b, t)
    ensures s == t
    decreases |s|
  {
    if s != [] {
      DivModUnique(Value(b, s), b, Value(b, s[1..]), s[0]);
      DivModUnique(Value(b, t), b, Value(b, t[1..]), t[0]);
      ValueInjective(b, s[1..], t[1..]);
      assert s == [s[0]] + s[1..] && t == [t[0]] + t[1..];
    }
  }

  /** No limb above index k is in use. */
  predicate Within(s: seq<int>, k: int) {
    forall i :: k < i < |s| ==> 0 <= i && s[i] == 0
  }

  lemma WithinValue(b: int, s: seq<int>, k: nat)
    requires k < |s| && Within(s, k)
    ensures Value(b, s) == Value(b, s[..k + 1])
  {
    ValueSplit(b, s, k + 1);
    ValueZero(b, s[k + 1..]);
  }

  /** Staying below b^(k+1) is the same as using no limb above k. */
  lemma WithinBound(b: int, s: seq<int>, k: nat)
    requires b >= 1 && Digits(b, s) && k < |s|
    ensures Within(s, k) <==> Value(b, s) < Pow(b, k + 1)
  {
    if Within(s, k) {
      WithinValue(b, s, k);
      ValueBound(b, s[..k + 1]);
    }
    if Value(b, s) < Pow(b, k + 1) {
      ValueDivMod(b, s, k + 1);
      ValueBound(b, s);
      DivModUnique(Value(b, s), Pow(b, k + 1), 0, Value(b, s));
      AllZero(b, s[k + 1..]);
      forall i | k < i < |s| ensures s[i] == 0 {
        assert s[i] == s[k + 1..][i - (k + 1)];
      }
    }
  }

  lemma {:induction false} AllZero(b: int, s: seq<int>)
    requires b >= 1 && Digits(b, s) && Value(b, s) == 0
    ensures forall i :: 0 <= i < |s| ==> s[i] == 0
    decreases |s|
  {
    if s != [] {
      ValueBound(b, s[1..]);
      MulMono(0, Value(b, s[1..]), b);
      if Value(b, s[1..]) > 0 {
        MulMono(1, Value(b, s[1..]), b);
      }
      AllZero(b, s[1..]);
      assert forall i :: 1 <= i < |s| ==> s[i] == s[1..][i - 1];
    }
  }

  lemma BasePow(l: Layout, k: nat)
    ensures l.bits * k >= 0 && Pow(Base(l), k) == Pow2(l.bits * k)
  {
    PowOfPow2(l.bits, k);
  }
}
