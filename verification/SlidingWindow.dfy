/**
 Sliding-window recoding of a scalar into signed odd digits, as a function on the
 digit array. Donna's and ref10's loops are both proved to compute it.
 */
module SlidingWindow {
  import opened Arithmetic
  import opened Limbs
  import opened DigitCutting

  /** Adding one at position k: the run of ones from k is cleared and the next zero set. */
  function Ripple(r: seq<int>, k: nat): (r': seq<int>)
    ensures |r'| == |r|
    decreases |r| - k
  {
    if k >= |r| then r
    else if r[k] == 0 then r[k := 1]
    else Ripple(r[k := 0], k + 1)
  }

  function Shl(x: int, b: nat): int {
    x * Pow2(b)
  }

  /** One pass of the inner loop: position j+b, if set, goes into digit j by adding or by subtracting and carrying. */
  function FoldStep(r: seq<int>, j: nat, b: nat, m: int): (r': seq<int>)
    requires b >= 1 && j + b < |r|
    ensures |r'| == |r|
  {
    if r[j + b] == 0 then r
    else if r[j] + Shl(r[j + b], b) <= m then r[j := r[j] + Shl(r[j + b], b)][j + b := 0]
    else Ripple(r[j := r[j] - Shl(r[j + b], b)], j + b)
  }

  /** A set bit that fits neither way ends the window. */
  predicate FoldStops(r: seq<int>, j: nat, b: nat, m: int)
    requires b >= 1 && j + b < |r|
  {
    r[j + b] != 0 && r[j] + Shl(r[j + b], b) > m && r[j] - Shl(r[j + b], b) < -m
  }

  /** Positions j+b, j+b+1, ... up to j+6 folded into digit j where the window allows. */
  function Fold(r: seq<int>, j: nat, b: nat, m: int): (r': seq<int>)
    requires j < |r| && b >= 1
    ensures |r'| == |r|
    decreases 7 - b
  {
    if b > 6 || j + b >= |r| || FoldStops(r, j, b, m) then r
    else Fold(FoldStep(r, j, b, m), j, b + 1, m)
  }

  function Slide(r: seq<int>, j: nat, m: int): (r': seq<int>)
    ensures |r'| == |r|
    decreases |r| - j
  {
    if j >= |r| then r
    else if r[j] == 0 then Slide(r, j + 1, m)
    else Slide(Fold(r, j, 1, m), j + 1, m)
  }

  /** Zero, or odd and at most m in absolute value. */
  predicate WindowDigit(x: int, m: int) {
    x == 0 || (x % 2 == 1 && Abs(x) <= m)
  }

  function Abs(x: int): nat {
    if x < 0 then -x else x
  }

  /** Still binary from position k up. */
  predicate BitsFrom(r: seq<int>, k: nat) {
    forall i :: k <= i < |r| ==> r[i] == 0 || r[i] == 1
  }

  lemma Pow2IsPow(k: nat)
    ensures Pow(2, k) == Pow2(k)
  {
    assert Pow2(1) == 2;
    PowOfPow2(1, k);
  }

  /** All ones from k up is the only way to lose a carry. */
  lemma {:induction false} AllOnes(s: seq<int>)
    requires forall i :: 0 <= i < |s| ==> s[i] == 1
    ensures Value(2, s) == Pow2(|s|) - 1
    decreases |s|
  {
    if s != [] {
      AllOnes(s[1..]);
    }
  }

  /** With a zero to stop at, a ripple adds 2^k and only touches bits from k up. */
  lemma {:induction false} RippleAdds(r: seq<int>, k: nat, z: nat)
    requires k <= z < |r| && r[z] == 0 && BitsFrom(r, k)
    ensures Value(2, Ripple(r, k)) == Value(2, r) + Pow2(k)
    ensures (forall i :: 0 <= i < k ==> Ripple(r, k)[i] == r[i]) && BitsFrom(Ripple(r, k), k)
    ensures r[k] != 0 ==> Ripple(r, k)[k] == 0
    decreases |r| - k
  {
    Pow2IsPow(k);
    if r[k] == 0 {
      ValueUpdate(2, r, k, 1);
    } else {
      RippleAdds(r[k := 0], k + 1, z);
      ValueUpdate(2, r, k, 0);
    }
  }

  /** The number is below 2^(n-1), so a carry out of a non-negative low part finds a zero. */
  lemma CarryStops(r: seq<int>, k: nat, s: int) returns (z: nat)
    requires k < |r| && BitsFrom(r, k) && Value(2, r) == s < Pow2(|r| - 1) && Value(2, r[..k]) >= 0
    ensures k <= z < |r| && r[z] == 0
  {
    if forall i :: k <= i < |r| ==> r[i] == 1 {
      AllOnes(r[k..]);
      ValueSplit(2, r, k);
      Pow2IsPow(k);
      Pow2Add(k, |r| - k);
      Pow2Mono(k, |r| - 1);
      MulDist(Pow2(|r| - k), 1, Pow2(k));
      assert false;
    }
    z :| k <= z < |r| && r[z] != 1;
  }

  /**
   What the inner loop keeps at offset b: digit j is odd, small and below 2^b, the
   positions it has absorbed are clear, the rest is still binary.
   */
  ghost predicate Folding(r: seq<int>, j: nat, b: nat, m: int, s: int) {
    && j < |r| && 1 <= b && j + b <= |r| && b <= 7
    && Value(2, r) == s
    && r[j] % 2 == 1 && Abs(r[j]) <= m && Abs(r[j]) < Pow2(b)
    && (forall i :: j < i < j + b ==> r[i] == 0)
    && BitsFrom(r, j + b)
    && (forall i :: 0 <= i < j ==> WindowDigit(r[i], m))
    && Abs(Value(2, r[..j])) < Pow2(j)
  }

  /** The outer loop: digits below j are final, j..p-1 clear, the rest binary. */
  ghost predicate Sliding(r: seq<int>, j: nat, p: nat, m: int, s: int) {
    && j <= p <= |r|
    && Value(2, r) == s
    && (forall i :: 0 <= i < j ==> WindowDigit(r[i], m))
    && (forall i :: j <= i < p ==> r[i] == 0)
    && BitsFrom(r, p)
    && Abs(Value(2, r[..j])) < Pow2(p)
  }

  /** Adding d*2^b to digit j is adding d*2^(j+b) to the number. */
  lemma ScaleDigit(r: seq<int>, j: nat, b: nat, d: int)
    requires j < |r|
    ensures Value(2, r[j := r[j] + d * Pow2(b)]) == Value(2, r) + d * Pow2(j + b)
  {
    ValueUpdate(2, r, j, r[j] + d * Pow2(b));
    Pow2IsPow(j);
    Pow2Add(b, j);
    MulAssoc(d, Pow2(b), Pow2(j));
  }

  lemma ClearBit(r: seq<int>, k: nat)
    requires k < |r|
    ensures Value(2, r[k := 0]) == Value(2, r) - r[k] * Pow2(k)
  {
    ValueUpdate(2, r, k, 0);
    Pow2IsPow(k);
  }

  /** The next state of the inner loop, from the one before and what changed. */
  lemma FoldNext(r: seq<int>, r': seq<int>, j: nat, b: nat, m: int, s: int)
    requires Folding(r, j, b, m, s) && b <= 6 && j + b < |r| == |r'| && Value(2, r') == s
    requires forall i :: 0 <= i < j + b && i != j ==> r'[i] == r[i]
    requires r'[j + b] == 0 && BitsFrom(r', j + b)
    requires r'[j] % 2 == 1 && Abs(r'[j]) <= m && Abs(r'[j]) < Pow2(b + 1)
    ensures Folding(r', j, b + 1, m, s)
  {
    assert r'[..j] == r[..j];
  }

  /** What the inner loop knows of digit j and of the number below position j+b. */
  lemma FoldFacts(r: seq<int>, j: nat, b: nat, m: int, s: int)
    requires Folding(r, j, b, m, s)
    ensures j < |r| && 1 <= b <= 7 && j + b <= |r| && Value(2, r) == s && BitsFrom(r, j + b)
    ensures r[j] % 2 == 1 && Abs(r[j]) <= m && Abs(r[j]) < Pow2(b)
    ensures r[j] > 0 ==> Value(2, r[..j + b]) > 0
  {
    LowPart(r, j, b);
  }

  /** Absorbing a set bit by adding 2^b to digit j. */
  lemma FoldAdd(r: seq<int>, j: nat, b: nat, m: int, s: int)
    requires Folding(r, j, b, m, s) && b <= 6 && j + b < |r| && r[j + b] == 1 && r[j] + Pow2(b) <= m
    ensures Folding(r[j := r[j] + Pow2(b)][j + b := 0], j, b + 1, m, s)
  {
    hide Folding;
    FoldFacts(r, j, b, m, s);
    FoldAddValue(r, j, b);
    OddShift(r[j], b);
    FoldNext(r, r[j := r[j] + Pow2(b)][j + b := 0], j, b, m, s);
  }

  lemma FoldAddValue(r: seq<int>, j: nat, b: nat)
    requires b >= 1 && j + b < |r| && r[j + b] == 1
    ensures Value(2, r[j := r[j] + Pow2(b)][j + b := 0]) == Value(2, r)
  {
    ScaleDigit(r, j, b, 1);
    ClearBit(r[j := r[j] + Pow2(b)], j + b);
  }

  lemma OddShift(x: int, b: nat)
    requires x % 2 == 1 && b >= 1
    ensures (x + Pow2(b)) % 2 == 1 && (x - Pow2(b)) % 2 == 1 && Pow2(b + 1) == 2 * Pow2(b)
  {}

  /** Absorbing a set bit by subtracting 2^b and carrying one into position j+b. */
  lemma FoldSub(r: seq<int>, j: nat, b: nat, m: int, s: int)
    requires Folding(r, j, b, m, s) && b <= 6 && j + b < |r| && r[j + b] == 1
    requires r[j] + Pow2(b) > m && r[j] - Pow2(b) >= -m
    requires s < Pow2(|r| - 1)
    ensures Folding(Ripple(r[j := r[j] - Pow2(b)], j + b), j, b + 1, m, s)
  {
    hide Folding;
    FoldFacts(r, j, b, m, s);
    FoldSubValue(r, j, b, s);
    OddShift(r[j], b);
    FoldNext(r, Ripple(r[j := r[j] - Pow2(b)], j + b), j, b, m, s);
  }

  lemma FoldSubValue(r: seq<int>, j: nat, b: nat, s: int)
    requires 1 <= b && j + b < |r| && BitsFrom(r, j + b) && r[j + b] == 1
    requires Value(2, r) == s < Pow2(|r| - 1) && Value(2, r[..j + b]) >= 0
    ensures var r1, k := r[j := r[j] - Pow2(b)], j + b;
            var r2 := Ripple(r1, k);
            Value(2, r2) == s && (forall i :: 0 <= i < k ==> r2[i] == r1[i]) && BitsFrom(r2, k) && r2[k] == 0
  {
    var k, r1 := j + b, r[j := r[j] - Pow2(b)];
    var z := CarryStops(r, k, s);
    RippleAdds(r1, k, z);
    ScaleDigit(r, j, b, -1);
  }

  lemma LowArith(low: int, d: int, p: int, q: int)
    requires Abs(low) < p && Abs(d) < q
    ensures Abs(low + p * d) < p * q && (d > 0 ==> low + p * d > 0)
  {
    MulMono(d, q - 1, p);
    MulMono(1 - q, d, p);
    MulDist(q, 1, p);
    MulDist(1, q, p);
    if d > 0 {
      MulMono(1, d, p);
    }
  }

  /** The digits up to j+b-1 add up to less than 2^(j+b) either way, with the sign of digit j. */
  lemma LowPart(r: seq<int>, j: nat, b: nat)
    requires j < |r| && b >= 1 && j + b <= |r| && r[j] != 0 && Abs(r[j]) < Pow2(b)
    requires (forall i :: j < i < j + b ==> r[i] == 0) && Abs(Value(2, r[..j])) < Pow2(j)
    ensures Abs(Value(2, r[..j + b])) < Pow2(j + b) && Abs(Value(2, r[..j + 1])) < Pow2(j + b)
    ensures r[j] > 0 ==> Value(2, r[..j + b]) > 0
  {
    ValueSnoc(2, r, j);
    Pow2IsPow(j);
    Pow2Add(j, b);
    LowArith(Value(2, r[..j]), r[j], Pow2(j), Pow2(b));
    ZeroTail(r, j + 1, j + b);
  }

  lemma ZeroTail(r: seq<int>, k: nat, n: nat)
    requires k <= n <= |r| && forall i :: k <= i < n ==> r[i] == 0
    ensures Value(2, r[..n]) == Value(2, r[..k])
  {
    ValueSplit(2, r[..n], k);
    ValueZero(2, r[..n][k..]);
    assert r[..n][..k] == r[..k];
  }

  lemma FoldSkip(r: seq<int>, j: nat, b: nat, m: int, s: int)
    requires Folding(r, j, b, m, s) && b <= 6 && j + b < |r| && r[j + b] == 0
    ensures Folding(r, j, b + 1, m, s)
  {
    Pow2Mono(b, b + 1);
  }

  /** At a set bit the shifted bit is 2^b. */
  lemma FoldStepForm(r: seq<int>, j: nat, b: nat, m: int)
    requires b >= 1 && j + b < |r| && r[j + b] == 1
    ensures FoldStep(r, j, b, m)
            == if r[j] + Pow2(b) <= m then r[j := r[j] + Pow2(b)][j + b := 0]
               else Ripple(r[j := r[j] - Pow2(b)], j + b)
    ensures FoldStops(r, j, b, m) <==> r[j] + Pow2(b) > m && r[j] - Pow2(b) < -m
  {}

  lemma FoldStepZero(r: seq<int>, j: nat, b: nat, m: int)
    requires b >= 1 && j + b < |r| && r[j + b] == 0
    ensures FoldStep(r, j, b, m) == r
  {}

  lemma FoldStepKeeps(r: seq<int>, j: nat, b: nat, m: int, s: int)
    requires Folding(r, j, b, m, s) && b <= 6 && j + b < |r| && s < Pow2(|r| - 1) && !FoldStops(r, j, b, m)
    ensures Folding(FoldStep(r, j, b, m), j, b + 1, m, s)
  {
    hide Folding, FoldStep, FoldStops;
    FoldFacts(r, j, b, m, s);
    if r[j + b] == 0 {
      FoldStepZero(r, j, b, m);
      FoldSkip(r, j, b, m, s);
    } else {
      FoldStepForm(r, j, b, m);
      if r[j] + Pow2(b) <= m {
        FoldAdd(r, j, b, m, s);
      } else {
        FoldSub(r, j, b, m, s);
      }
    }
  }

  /** The inner loop keeps the sum and the bound, and ends at the end of the array, past offset 6 or where nothing fits. */
  lemma {:induction false} FoldKeeps(r: seq<int>, j: nat, b: nat, m: int, s: int) returns (e: nat)
    requires Folding(r, j, b, m, s) && s < Pow2(|r| - 1)
    ensures Folding(Fold(r, j, b, m), j, e, m, s) && 1 <= e
    ensures e > 6 || j + e >= |r| || FoldStops(Fold(r, j, b, m), j, e, m)
    decreases 7 - b
  {
    hide Folding, FoldStep, FoldStops;
    FoldFacts(r, j, b, m, s);
    if b > 6 || j + b >= |r| || FoldStops(r, j, b, m) {
      e := b;
    } else {
      FoldStepKeeps(r, j, b, m, s);
      e := FoldKeeps(FoldStep(r, j, b, m), j, b + 1, m, s);
    }
  }

  /** Within a window of w positions a set bit always fits, by adding or by subtracting. */
  lemma NoEarlyStop(r: seq<int>, j: nat, e: nat, m: int, s: int, w: nat)
    requires Folding(r, j, e, m, s) && j + e < |r| && FoldStops(r, j, e, m) && w >= 2 && m == Pow2(w - 1) - 1
    ensures e >= w
  {
    FoldStepForm(r, j, e, m);
    if e < w - 1 {
      Pow2Mono(e + 1, w - 1);
    }
  }

  /** Nothing below position k changes. */
  lemma {:induction false} RippleBelow(r: seq<int>, k: nat)
    ensures forall i :: 0 <= i < k && i < |r| ==> Ripple(r, k)[i] == r[i]
    decreases |r| - k
  {
    if k < |r| && r[k] != 0 {
      RippleBelow(r[k := 0], k + 1);
    }
  }

  lemma {:induction false} FoldBelow(r: seq<int>, j: nat, b: nat, m: int)
    requires j < |r| && b >= 1
    ensures forall i :: 0 <= i < j ==> Fold(r, j, b, m)[i] == r[i]
    decreases 7 - b
  {
    if !(b > 6 || j + b >= |r| || FoldStops(r, j, b, m)) {
      RippleBelow(r[j := r[j] - Shl(r[j + b], b)], j + b);
      FoldBelow(FoldStep(r, j, b, m), j, b + 1, m);
    }
  }

  /** A non-zero digit is followed by w - 1 zeros, as far as the array goes. */
  ghost predicate Spaced(r: seq<int>, w: int) {
    forall i, k :: 0 <= i < k < |r| && k < i + w && r[i] != 0 ==> r[k] == 0
  }

  /** The same for the digits below j, whose zeros may reach up to p. */
  ghost predicate SpacedTo(r: seq<int>, j: nat, p: nat, w: int) {
    && j <= p <= |r|
    && (forall i, k :: 0 <= i < k < j && k < i + w && r[i] != 0 ==> r[k] == 0)
    && (forall i :: 0 <= i < j && r[i] != 0 ==> i + w <= p || p == |r|)
  }

  lemma SpacedSkip(r: seq<int>, j: nat, p: nat, w: int)
    requires SpacedTo(r, j, p, w) && j < |r| && r[j] == 0
    ensures SpacedTo(r, j + 1, if p == j then p + 1 else p, w)
  {}

  lemma SpacedFold(r: seq<int>, r': seq<int>, j: nat, e: nat, w: int)
    requires SpacedTo(r, j, j, w) && |r'| == |r| && j < |r| && e >= 1 && j + e <= |r|
    requires (forall i :: 0 <= i < j ==> r'[i] == r[i]) && (e >= w || j + e == |r|)
    ensures SpacedTo(r', j + 1, j + e, w)
  {
    assert j < |r|;
  }

  /** Entering the inner loop at a set bit. */
  lemma FoldStart(r: seq<int>, j: nat, p: nat, m: int, s: int)
    requires Sliding(r, j, p, m, s) && j < |r| && r[j] != 0 && m >= 1
    ensures Folding(r, j, 1, m, s)
  {
    assert p == j;
  }

  /** Leaving it again. */
  lemma FoldEnd(r: seq<int>, j: nat, e: nat, m: int, s: int)
    requires Folding(r, j, e, m, s)
    ensures Sliding(r, j + 1, j + e, m, s)
  {
    LowPart(r, j, e);
  }

  lemma SkipZero(r: seq<int>, j: nat, p: nat, m: int, s: int)
    requires Sliding(r, j, p, m, s) && j < |r| && r[j] == 0
    ensures Sliding(r, j + 1, if p == j then p + 1 else p, m, s)
  {
    ZeroTail(r, j, j + 1);
    if p == j {
      Pow2Mono(p, p + 1);
    }
  }

  lemma {:induction false} SlideKeeps(r: seq<int>, j: nat, p: nat, m: int, s: int)
    requires Sliding(r, j, p, m, s) && m >= 1 && |r| >= 1 && s < Pow2(|r| - 1)
    ensures var r' := Slide(r, j, m);
            Value(2, r') == s && forall i :: 0 <= i < |r'| ==> WindowDigit(r'[i], m)
    decreases |r| - j
  {
    if j < |r| {
      hide Sliding, Folding, Fold;
      if r[j] == 0 {
        var p' := if p == j then p + 1 else p;
        SkipZero(r, j, p, m, s);
        SlideKeeps(r, j + 1, p', m, s);
      } else {
        FoldStart(r, j, p, m, s);
        var e := FoldKeeps(r, j, 1, m, s);
        FoldEnd(Fold(r, j, 1, m), j, e, m, s);
        SlideKeeps(Fold(r, j, 1, m), j + 1, j + e, m, s);
      }
    }
  }

  /** The recoding keeps non-zero digits apart by the window, or by the seven positions the inner loop looks at. */
  lemma {:induction false} SlideSpaced(r: seq<int>, j: nat, p: nat, m: int, s: int, w: nat)
    requires Sliding(r, j, p, m, s) && SpacedTo(r, j, p, Min(w, 7)) && w >= 2 && m == Pow2(w - 1) - 1
    requires m >= 1 && |r| >= 1 && s < Pow2(|r| - 1)
    ensures Spaced(Slide(r, j, m), Min(w, 7))
    decreases |r| - j
  {
    hide Folding, Fold, Pow2;
    if j < |r| {
      if r[j] == 0 {
        SkipZero(r, j, p, m, s);
        SpacedSkip(r, j, p, Min(w, 7));
        SlideSpaced(r, j + 1, if p == j then p + 1 else p, m, s, w);
      } else {
        FoldStart(r, j, p, m, s);
        var r' := Fold(r, j, 1, m);
        var e := FoldKeeps(r, j, 1, m, s);
        FoldFacts(r', j, e, m, s);
        FoldEnd(r', j, e, m, s);
        FoldBelow(r, j, 1, m);
        if e <= 6 && j + e < |r| {
          NoEarlyStop(r', j, e, m, s, w);
        }
        SpacedFold(r, r', j, e, Min(w, 7));
        SlideSpaced(r', j + 1, j + e, m, s, w);
      }
    }
  }

  /** The recoding of s: n digits from its n bits. */
  function Recode(s: int, n: nat, m: int): seq<int> {
    Slide(DigitsOf(2, s, n), 0, m)
  }

  /**
   Recoding keeps the value for every s below 2^(n-1), and every digit is zero or
   odd and at most m in absolute value.
   */
  lemma RecodeCorrect(s: int, n: nat, m: int)
    requires 1 <= n && 0 <= s < Pow2(n - 1) && m >= 1
    ensures |Recode(s, n, m)| == n && Value(2, Recode(s, n, m)) == s
    ensures forall i :: 0 <= i < n ==> WindowDigit(Recode(s, n, m)[i], m)
  {
    var r := DigitsOf(2, s, n);
    DigitsOfValue(2, s, n);
    Pow2IsPow(n);
    SmallMod(s, Pow2(n));
    assert r[..0] == [];
    SlideKeeps(r, 0, 0, m, s);
  }

  /** The recoding for a window of w bits: its digits are below 2^(w-1) and spaced. */
  lemma RecodeSpaced(s: int, n: nat, w: nat)
    requires 1 <= n && 0 <= s < Pow2(n - 1) && w >= 2
    ensures WindowForm(Recode(s, n, Pow2(w - 1) - 1), w) && Value(2, Recode(s, n, Pow2(w - 1) - 1)) == s
  {
    var r, m := DigitsOf(2, s, n), Pow2(w - 1) - 1;
    DigitsOfValue(2, s, n);
    Pow2IsPow(n);
    SmallMod(s, Pow2(n));
    assert r[..0] == [];
    Pow2Mono(1, w - 1);
    assert Pow2(1) == 2;
    SlideSpaced(r, 0, 0, m, s, w);
    RecodeCorrect(s, n, m);
  }

  /** Digits zero or odd and below 2^(w-1), no two non-zero ones within w positions, or within seven. */
  ghost predicate WindowForm(r: seq<int>, w: nat)
    requires w >= 1
  {
    (forall i :: 0 <= i < |r| ==> WindowDigit(r[i], Pow2(w - 1) - 1)) && Spaced(r, Min(w, 7))
  }

  /** The zeros after a non-zero first digit make the rest a multiple of 2^w, or there is no rest. */
  lemma FirstDigit(r: seq<int>, w: nat) returns (q: int)
    requires r != [] && w >= 1 && (forall i :: 0 < i < |r| && i < w ==> r[i] == 0)
    ensures Value(2, r) == r[0] + Pow2(w) * q
  {
    if |r| <= w {
      q := 0;
      ValueZero(2, r[1..]);
    } else {
      q := Value(2, r[w..]);
      ValueSplit(2, r, w);
      Pow2IsPow(w);
      ValueZero(2, r[..w][1..]);
    }
  }

  /** Numbers below 2^(w-1) that agree modulo 2^w are equal. */
  lemma SameDigit(x: int, y: int, p: int, k: int)
    requires -p < x < p && -p < y < p && x - y == (2 * p) * k
    ensures x == y
  {
    if k >= 1 {
      MulMono(1, k, 2 * p);
    } else if k <= -1 {
      MulMono(k, -1, 2 * p);
    }
  }

  lemma WindowTail(r: seq<int>, w: nat)
    requires r != [] && w >= 1 && WindowForm(r, w)
    ensures WindowForm(r[1..], w) && Value(2, r) == r[0] + 2 * Value(2, r[1..]) && WindowDigit(r[0], Pow2(w - 1) - 1)
    ensures r[0] != 0 ==> forall i :: 0 < i < |r| && i < Min(w, 7) ==> r[i] == 0
  {
    hide Value, Pow2;
    assert forall i :: 0 <= i < |r[1..]| ==> r[1..][i] == r[i + 1];
    ValueHead(r);
  }

  lemma ValueHead(r: seq<int>)
    requires r != []
    ensures Value(2, r) == r[0] + 2 * Value(2, r[1..])
  {}

  /** For windows up to seven the sum, the oddness, the bound and the spacing determine the digits. */
  lemma {:induction false} WindowUnique(a: seq<int>, b: seq<int>, w: nat)
    requires |a| == |b| && 2 <= w <= 7 && WindowForm(a, w) && WindowForm(b, w) && Value(2, a) == Value(2, b)
    ensures a == b
    decreases |a|
  {
    if a != [] {
      hide *;
      WindowTail(a, w);
      WindowTail(b, w);
      FirstAgrees(a, b, w);
      WindowUnique(a[1..], b[1..], w);
      assert a == [a[0]] + a[1..] && b == [b[0]] + b[1..];
    }
  }

  lemma FirstAgrees(a: seq<int>, b: seq<int>, w: nat)
    requires a != [] && b != [] && 2 <= w <= 7 && WindowForm(a, w) && WindowForm(b, w) && Value(2, a) == Value(2, b)
    ensures a[0] == b[0]
  {
    hide Value, Pow2, WindowForm;
    WindowTail(a, w);
    WindowTail(b, w);
    if a[0] != 0 && b[0] != 0 {
      var p := FirstDigit(a, w);
      var q := FirstDigit(b, w);
      HalfPower(w);
      MulDist(q, p, Pow2(w));
      SameDigit(a[0], b[0], Pow2(w - 1), q - p);
    }
  }

  lemma HalfPower(w: nat)
    requires w >= 1
    ensures Pow2(w) == 2 * Pow2(w - 1)
  {}
}
