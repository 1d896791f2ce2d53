/**
 The two digit recodings as the C code runs them: on digit arrays, in place.
 Donna's loops for both limb layouts and ref10's loops compute the same digits.
 */
module Recoding {
  import opened Arithmetic
  import opened Limbs
  import opened DigitCutting
  import opened ScalarModm
  import opened ScalarEncoding
  import opened SlidingWindow

  lemma {:induction false} DigitsOfSnoc(b: int, x: int, n: nat)
    requires b >= 1
    ensures DigitsOf(b, x, n + 1) == DigitsOf(b, x, n) + [x / Pow(b, n) % b]
    decreases n
  {
    if n > 0 {
      DigitsOfSnoc(b, x / b, n - 1);
      DivDiv(x, b, Pow(b, n - 1));
    }
  }

  /** n digits of x written at pos, lowest first, shifting x down as it goes. */
  method Emit(r: array<int>, pos: nat, b: nat, x: int, n: nat) returns (rest: int)
    requires b >= 1 && pos + n <= r.Length
    modifies r
    ensures r[..] == old(r[..pos]) + DigitsOf(b, x, n) + old(r[pos + n..])
    ensures rest == x / Pow(b, n)
  {
    rest := x;
    for j := 0 to n
      invariant rest == x / Pow(b, j)
      invariant r[..pos + j] == old(r[..pos]) + DigitsOf(b, x, j) && r[pos + j..] == old(r[pos + j..])
    {
      DigitsOfSnoc(b, x, j);
      ghost var before := r[..];
      r[pos + j] := rest % b;
      EmitStep(before, r[..], old(r[..]), pos, j, DigitsOf(b, x, j), rest % b);
      DivDiv(x, Pow(b, j), b);
      assert Pow(b, j + 1) == b * Pow(b, j);
      rest := rest / b;
    }
    assert r[..] == r[..pos + n] + r[pos + n..];
  }

  lemma EmitStep(before: seq<int>, after: seq<int>, first: seq<int>, pos: nat, j: nat, d: seq<int>, x: int)
    requires pos + j < |before| == |first| && after == before[pos + j := x]
    requires before[..pos + j] == first[..pos] + d && before[pos + j..] == first[pos + j..]
    ensures after[..pos + j + 1] == first[..pos] + (d + [x]) && after[pos + j + 1..] == first[pos + j + 1..]
  {
    assert after[..pos + j + 1] == before[..pos + j] + [x];
    assert after[pos + j + 1..] == before[pos + j..][1..];
    assert first[pos + j + 1..] == first[pos + j..][1..];
  }

  lemma {:induction false} SpreadSnoc(b: int, s: seq<int>, k: nat, x: int)
    requires b >= 1
    ensures Spread(b, s + [x], k) == Spread(b, s, k) + DigitsOf(b, x, k)
    decreases |s|
  {
    if s == [] {
      assert [x][1..] == [] && s + [x] == [x];
    } else {
      assert (s + [x])[1..] == s[1..] + [x];
      SpreadSnoc(b, s[1..], k, x);
    }
  }

  lemma {:induction false} SpreadLength(b: int, s: seq<int>, k: nat)
    requires b >= 1
    ensures |Spread(b, s, k)| == |s| * k
    decreases |s|
  {
    if s != [] {
      SpreadLength(b, s[1..], k);
      MulDist(|s| - 1, 1, k);
    }
  }

  /** Groups of k digits each, then top digits from the last group. */
  method EmitGroups(r: array<int>, b: nat, groups: seq<int>, k: nat, top: nat)
    requires b >= 1 && groups != [] && r.Length == (|groups| - 1) * k + top
    modifies r
    ensures var n := |groups| - 1;
            r[..] == Spread(b, groups[..n], k) + DigitsOf(b, groups[n], top)
  {
    var n := |groups| - 1;
    var pos := 0;
    for i := 0 to n
      invariant pos == i * k && pos <= r.Length
      invariant r[..pos] == Spread(b, groups[..i], k)
    {
      MulDist(i, 1, k);
      MulMono(i + 1, n, k);
      ghost var before := r[..pos];
      var _ := Emit(r, pos, b, groups[i], k);
      assert groups[..i + 1] == groups[..i] + [groups[i]];
      SpreadSnoc(b, groups[..i], k, groups[i]);
      pos := pos + k;
      assert r[..pos] == before + DigitsOf(b, groups[i - 0], k);
    }
    ghost var before := r[..pos];
    var _ := Emit(r, pos, b, groups[n], top);
    assert r[..] == before + DigitsOf(b, groups[n], top);
  }

  lemma GroupsValue(b: int, groups: seq<int>, k: nat, top: nat)
    requires b >= 1 && k >= 1 && groups != [] && Digits(Pow(b, k), groups)
    requires groups[|groups| - 1] < Pow(b, top)
    ensures var n := |groups| - 1;
            var d := Spread(b, groups[..n], k) + DigitsOf(b, groups[n], top);
            Digits(b, d) && Value(b, d) == Value(Pow(b, k), groups)
  {
    hide Value, Pow, Spread, DigitsOf;
    var n := |groups| - 1;
    SpreadValue(b, groups[..n], k);
    DigitsOfValue(b, groups[n], top);
    SmallMod(groups[n], Pow(b, top));
    ValueConcat(b, Spread(b, groups[..n], k), DigitsOf(b, groups[n], top));
    ValueSnoc(Pow(b, k), groups, n);
    assert groups[..n + 1] == groups;
    PowMul(b, k, n);
  }

  /** Digits written group by group are the digits of the whole number. */
  lemma GroupsAreDigits(b: int, groups: seq<int>, k: nat, top: nat, len: nat)
    requires b >= 1 && k >= 1 && groups != [] && Digits(Pow(b, k), groups)
    requires groups[|groups| - 1] < Pow(b, top) && len == (|groups| - 1) * k + top
    ensures var n := |groups| - 1;
            Spread(b, groups[..n], k) + DigitsOf(b, groups[n], top) == DigitsOf(b, Value(Pow(b, k), groups), len)
  {
    hide Value, Pow, Spread, DigitsOf;
    var n, v := |groups| - 1, Value(Pow(b, k), groups);
    var low, high := Spread(b, groups[..n], k), DigitsOf(b, groups[n], top);
    SpreadLength(b, groups[..n], k);
    GroupsValue(b, groups, k, top);
    assert |low + high| == len;
    DigitsOfValue(b, v, len);
    ValueBound(b, low + high);
    SmallMod(v, Pow(b, len));
    ValueInjective(b, low + high, DigitsOf(b, v, len));
  }

  const SOPLEN: nat := 256

  /** The bits of 256-bit scalars fall on limb boundaries: all limbs whole but the last. */
  ghost predicate RecodeLayout(l: Layout) {
    && Sane(l)
    && SOPLEN == (l.limbs - 1) * l.bits + Top256(l)
  }

  /** A scalar the recodings take: below 2^255. */
  ghost predicate Recodable(l: Layout, s: seq<int>) {
    IsScalar(l, s) && s != [] && s[l.limbs - 1] < Pow2(Top256(l)) && 2 * Val(l, s) < TWO256
  }

  /** The carry ripple of the subtracting case. */
  method RippleCarry(r: array<int>, k: nat)
    modifies r
    ensures r[..] == Ripple(old(r[..]), k)
  {
    var i := k;
    while i < r.Length
      invariant Ripple(r[..], i) == Ripple(old(r[..]), k)
    {
      ghost var before := r[..];
      if r[i] == 0 {
        r[i] := 1;
        assert r[..] == before[i := 1];
        return;
      }
      r[i] := 0;
      assert r[..] == before[i := 0];
      i := i + 1;
    }
  }

  /**
   Donna's inner loop. It does not test r[j+b] for zero first: adding a zero always
   fits, because |r[j]| <= m throughout.
   */
  method FoldInto(r: array<int>, j: nat, m: int, ghost s: int)
    requires Folding(r[..], j, 1, m, s) && s < Pow2(r.Length - 1)
    modifies r
    ensures r[..] == Fold(old(r[..]), j, 1, m)
  {
    hide Folding, Fold, FoldStep, FoldStops;
    FoldFacts(r[..], j, 1, m, s);
    var b: nat := 1;
    while b < r.Length - j && b <= 6
      invariant 1 <= b <= 7 && j + b <= r.Length
      invariant Folding(r[..], j, b, m, s) && Fold(r[..], j, b, m) == Fold(old(r[..]), j, 1, m)
    {
      FoldUnfold(r[..], j, b, m);
      var stop := FoldBit(r, j, b, m, s);
      if stop {
        return;
      }
      b := b + 1;
    }
    FoldUnfold(r[..], j, b, m);
  }

  lemma FoldUnfold(r: seq<int>, j: nat, b: nat, m: int)
    requires j < |r| && b >= 1
    ensures b > 6 || j + b >= |r| ==> Fold(r, j, b, m) == r
    ensures b <= 6 && j + b < |r| && FoldStops(r, j, b, m) ==> Fold(r, j, b, m) == r
    ensures b <= 6 && j + b < |r| && !FoldStops(r, j, b, m) ==> Fold(r, j, b, m) == Fold(FoldStep(r, j, b, m), j, b + 1, m)
  {}

  method FoldBit(r: array<int>, j: nat, b: nat, m: int, ghost s: int) returns (stop: bool)
    requires Folding(r[..], j, b, m, s) && s < Pow2(r.Length - 1) && b <= 6 && j + b < r.Length
    modifies r
    ensures stop == FoldStops(old(r[..]), j, b, m)
    ensures r[..] == if stop then old(r[..]) else FoldStep(old(r[..]), j, b, m)
    ensures !stop ==> Folding(r[..], j, b + 1, m, s)
  {
    hide Folding, Ripple;
    FoldFacts(r[..], j, b, m, s);
    ghost var before := r[..];
    if !FoldStops(before, j, b, m) {
      FoldStepKeeps(before, j, b, m, s);
    }
    var x := Shl(r[j + b], b);
    stop := false;
    if r[j] + x <= m {
      r[j] := r[j] + x;
      r[j + b] := 0;
      assert r[..] == before[j := before[j] + x][j + b := 0];
      assert before[j + b] == 0 ==> r[..] == before;
    } else if r[j] - x >= -m {
      r[j] := r[j] - x;
      assert r[..] == before[j := before[j] - x];
      RippleCarry(r, j + b);
    } else if r[j + b] != 0 {
      stop := true;
    }
  }

  /** Donna's recoding loop over all positions. */
  method SlideAll(r: array<int>, m: int, ghost s: int, ghost w: nat)
    requires m >= 1 && r.Length >= 1 && Sliding(r[..], 0, 0, m, s) && s < Pow2(r.Length - 1) && w >= 2 && m == Pow2(w - 1) - 1
    modifies r
    ensures r[..] == Slide(old(r[..]), 0, m) && Value(2, r[..]) == s && WindowForm(r[..], w)
  {
    SlideKeeps(r[..], 0, 0, m, s);
    SlideSpaced(r[..], 0, 0, m, s, w);
    hide Sliding, Slide, Spaced, WindowDigit, Value, Pow2;
    SlideLoop(r, m, s);
  }

  method SlideLoop(r: array<int>, m: int, ghost s: int)
    requires m >= 1 && r.Length >= 1 && Sliding(r[..], 0, 0, m, s) && s < Pow2(r.Length - 1)
    modifies r
    ensures r[..] == Slide(old(r[..]), 0, m)
  {
    hide Sliding, Folding, Fold;
    ghost var p: nat := 0;
    for j := 0 to r.Length
      invariant Sliding(r[..], j, p, m, s) && Slide(r[..], j, m) == Slide(old(r[..]), 0, m)
    {
      if r[j] == 0 {
        SkipZero(r[..], j, p, m, s);
        p := if p == j then p + 1 else p;
        continue;
      }
      FoldStart(r[..], j, p, m, s);
      ghost var e := FoldKeeps(r[..], j, 1, m, s);
      ghost var before := r[..];
      FoldInto(r, j, m, s);
      FoldEnd(r[..], j, e, m, s);
      p := j + e;
      assert Slide(before, j, m) == Slide(r[..], j + 1, m);
    }
  }

  lemma StartSliding(s: int, n: nat, m: int)
    requires 1 <= n && 0 <= s < Pow2(n - 1)
    ensures Sliding(DigitsOf(2, s, n), 0, 0, m, s)
  {
    var r := DigitsOf(2, s, n);
    DigitsOfValue(2, s, n);
    Pow2IsPow(n);
    SmallMod(s, Pow2(n));
    assert r[..0] == [];
  }

  lemma HalfRange(n: nat)
    requires n == SOPLEN
    ensures 2 * Pow2(n - 1) == TWO256
  {
    BytePow(32);
    PowOfPow2(8, 32);
    assert Pow2(8) == 256;
  }

  /** contract256_slidingwindow_modm: bits first, then windows of at most m = 2^(windowsize-1) - 1. */
  method ContractSlidingWindow(l: Layout, r: array<int>, s: seq<int>, windowsize: nat)
    requires RecodeLayout(l) && Recodable(l, s) && 2 <= windowsize && r.Length == SOPLEN
    modifies r
    ensures r[..] == Recode(Val(l, s), SOPLEN, Pow2(windowsize - 1) - 1)
    ensures Value(2, r[..]) == Val(l, s)
    ensures WindowForm(r[..], windowsize)
    ensures forall i :: 0 <= i < SOPLEN ==> WindowDigit(r[i], Pow2(windowsize - 1) - 1)
    ensures forall i, k :: 0 <= i < k < SOPLEN && k < i + Min(windowsize, 7) && r[i] != 0 ==> r[k] == 0
  {
    hide Value, Pow, Slide, DigitsOf, Spread;
    var m := Pow2(windowsize - 1) - 1;
    Pow2Mono(1, windowsize - 1);
    assert Pow2(1) == 2;
    EmitGroups(r, 2, s, l.bits, Top256(l));
    Pow2IsPow(l.bits);
    Pow2IsPow(Top256(l));
    GroupsAreDigits(2, s, l.bits, Top256(l), r.Length);
    ValueBound(Base(l), s);
    HalfRange(r.Length);
    StartSliding(Val(l, s), r.Length, m);
    SlideAll(r, m, Val(l, s), windowsize);
  }

  /** ref10's inner loop, which tests for a set bit first; it needs no invariant to compute Fold. */
  method FoldIntoRef(r: array<int>, j: nat, m: int)
    requires j < r.Length
    modifies r
    ensures r[..] == Fold(old(r[..]), j, 1, m)
  {
    var b: nat := 1;
    while b <= 6 && j + b < r.Length
      invariant 1 <= b <= 7
      invariant Fold(r[..], j, b, m) == Fold(old(r[..]), j, 1, m)
    {
      ghost var before := r[..];
      if r[j + b] != 0 {
        var x := Shl(r[j + b], b);
        if r[j] + x <= m {
          r[j] := r[j] + x;
          r[j + b] := 0;
          assert r[..] == before[j := before[j] + x][j + b := 0];
        } else if r[j] - x >= -m {
          r[j] := r[j] - x;
          assert r[..] == before[j := before[j] - x];
          RippleCarry(r, j + b);
        } else {
          break;
        }
      }
      b := b + 1;
    }
  }

  lemma RefForm(a: seq<int>)
    requires |a| == 32 && Digits(256, a)
    ensures 2 * LittleEndian(a) < TWO256 ==>
              Value(2, Recode(LittleEndian(a), SOPLEN, 15)) == LittleEndian(a) && WindowForm(Recode(LittleEndian(a), SOPLEN, 15), 5)
  {
    if 2 * LittleEndian(a) < TWO256 {
      ValueBound(256, a);
      HalfRange(SOPLEN);
      assert Pow2(4) == 16;
      hide Recode, Value;
      RecodeSpaced(LittleEndian(a), SOPLEN, 5);
    }
  }

  /** ref10's slide on 32 bytes, window 5: the digits are donna's. */
  method SlideRef(r: array<int>, a: seq<int>)
    requires r.Length == SOPLEN && |a| == 32 && Digits(256, a)
    modifies r
    ensures r[..] == Recode(LittleEndian(a), SOPLEN, 15)
    ensures 2 * LittleEndian(a) < TWO256 ==> Value(2, r[..]) == LittleEndian(a) && WindowForm(r[..], 5)
    ensures 2 * LittleEndian(a) < TWO256 ==> forall i, k :: 0 <= i < k < SOPLEN && k < i + 5 && r[i] != 0 ==> r[k] == 0
  {
    RefForm(a);
    assert Pow(2, 8) == 256;
    EmitGroups(r, 2, a, 8, 8);
    GroupsAreDigits(2, a, 8, 8, r.Length);
    for i := 0 to r.Length
      invariant Slide(r[..], i, 15) == Slide(DigitsOf(2, LittleEndian(a), SOPLEN), 0, 15)
    {
      if r[i] != 0 {
        FoldIntoRef(r, i, 15);
      }
    }
  }
}
