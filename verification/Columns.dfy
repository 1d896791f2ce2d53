/**
 Schoolbook products column by column, with the running carry the C code keeps,
 and the two-word shifts that cut a product into limbs again.
 */
module Columns {
  import opened Arithmetic
  import opened Limbs

  function At(s: seq<int>, k: int): int {
    if 0 <= k < |s| then s[k] else 0
  }

  /** The column sum of x[i] * y[k-i]. */
  function Conv(x: seq<int>, y: seq<int>, k: int): int
    decreases |x|
  {
    if x == [] then 0 else x[0] * At(y, k) + Conv(x[1..], y, k - 1)
  }

  /** Columns first..stop-1, the lowest with weight one. */
  ghost function ColSum(b: int, x: seq<int>, y: seq<int>, first: int, stop: int): int
    decreases stop - first
  {
    if first >= stop then 0 else Conv(x, y, first) + b * ColSum(b, x, y, first + 1, stop)
  }

  lemma {:induction false} ColSumSplit(b: int, x: seq<int>, y: seq<int>, first: int, mid: int, stop: int)
    requires first <= mid <= stop
    ensures ColSum(b, x, y, first, stop) == ColSum(b, x, y, first, mid) + Pow(b, mid - first) * ColSum(b, x, y, mid, stop)
    decreases mid - first
  {
    if first < mid {
      ColSumSplit(b, x, y, first + 1, mid, stop);
      var p, c := Pow(b, mid - first - 1), ColSum(b, x, y, mid, stop);
      MulDist(ColSum(b, x, y, first + 1, mid), p * c, b);
      MulAssoc(b, p, c);
    }
  }

  /** The weighted sum of y itself, read with an offset. */
  ghost function Window(b: int, y: seq<int>, first: int, stop: int): int
    decreases stop - first
  {
    if first >= stop then 0 else At(y, first) + b * Window(b, y, first + 1, stop)
  }

  lemma {:induction false} WindowValue(b: int, y: seq<int>, first: int, stop: int)
    requires 0 <= first <= |y| <= stop
    ensures Window(b, y, first, stop) == Value(b, y[first..])
    decreases stop - first
  {
    if first < |y| {
      WindowValue(b, y, first + 1, stop);
      assert y[first..][1..] == y[first + 1..];
    } else {
      WindowBeyond(b, y, first, stop);
    }
  }

  lemma {:induction false} WindowBeyond(b: int, y: seq<int>, first: int, stop: int)
    requires |y| <= first
    ensures Window(b, y, first, stop) == 0
    decreases stop - first
  {
    if first < stop {
      WindowBeyond(b, y, first + 1, stop);
    }
  }

  /** Peeling the lowest limb off x. */
  lemma {:induction false} ColSumPeel(b: int, x: seq<int>, y: seq<int>, first: int, stop: int)
    requires x != []
    ensures ColSum(b, x, y, first, stop) == x[0] * Window(b, y, first, stop) + ColSum(b, x[1..], y, first - 1, stop - 1)
    decreases stop - first
  {
    if first < stop {
      ColSumPeel(b, x, y, first + 1, stop);
      var w, c := Window(b, y, first + 1, stop), ColSum(b, x[1..], y, first, stop - 1);
      MulDist(x[0] * w, c, b);
      MulAssoc(b, x[0], w);
      MulAssoc(x[0], b, w);
      MulDist(At(y, first), b * w, x[0]);
    }
  }

  lemma {:induction false} ColSumEmpty(b: int, y: seq<int>, first: int, stop: int)
    ensures ColSum(b, [], y, first, stop) == 0
    decreases stop - first
  {
    if first < stop {
      ColSumEmpty(b, y, first + 1, stop);
    }
  }

  lemma {:induction false} ConvNegative(x: seq<int>, y: seq<int>, k: int)
    requires k < 0
    ensures Conv(x, y, k) == 0
    decreases |x|
  {
    if x != [] {
      ConvNegative(x[1..], y, k - 1);
    }
  }

  /** All columns together make the product. */
  lemma {:induction false} ColSumProduct(b: int, x: seq<int>, y: seq<int>, stop: int)
    requires stop >= |x| + |y| - 1 && stop >= |y|
    ensures ColSum(b, x, y, 0, stop) == Value(b, x) * Value(b, y)
    decreases |x|
  {
    if x == [] {
      ColSumEmpty(b, y, 0, stop);
    } else {
      ColSumPeel(b, x, y, 0, stop);
      WindowValue(b, y, 0, stop);
      assert y[0..] == y;
      ConvNegative(x[1..], y, -1);
      var rest := x[1..];
      if rest == [] {
        ColSumEmpty(b, y, -1, stop - 1);
      } else {
        ColSumProduct(b, rest, y, stop - 1);
      }
      MulDist(x[0], b * Value(b, rest), Value(b, y));
      MulAssoc(b, Value(b, rest), Value(b, y));
    }
  }

  lemma {:induction false} ConvBound(b: int, x: seq<int>, y: seq<int>, k: int)
    requires b >= 1 && Digits(b, x) && Digits(b, y)
    ensures 0 <= Conv(x, y, k) <= |x| * ((b - 1) * (b - 1))
    ensures 0 <= k ==> Conv(x, y, k) <= (k + 1) * ((b - 1) * (b - 1))
    decreases |x|
  {
    var d := (b - 1) * (b - 1);
    if x == [] {
      MulMono(0, b - 1, b - 1);
      if 0 <= k {
        MulMono(0, k + 1, d);
      }
    } else {
      ConvBound(b, x[1..], y, k - 1);
      TermBound(b, x[0], At(y, k));
      MulDist(|x| - 1, 1, d);
      if 0 <= k {
        MulDist(k, 1, d);
        if k == 0 {
          ConvNegative(x[1..], y, -1);
        }
      }
    }
  }

  lemma TermBound(b: int, x: int, y: int)
    requires 0 <= x < b && 0 <= y < b
    ensures 0 <= x * y <= (b - 1) * (b - 1)
  {
    MulMono(0, x, y);
    MulMono(x, b - 1, y);
    MulMono(y, b - 1, b - 1);
  }

  /** The columns below n stay below n * b^(n+1): what the truncated product leaves out. */
  lemma {:induction false} LowColumnsBound(b: int, x: seq<int>, y: seq<int>, n: nat)
    requires b >= 1 && Digits(b, x) && Digits(b, y)
    ensures 0 <= ColSum(b, x, y, 0, n) <= n * Pow(b, n + 1)
  {
    if n > 0 {
      LowColumnsBound(b, x, y, n - 1);
      ColSumSplit(b, x, y, 0, n - 1, n);
      ConvBound(b, x, y, n - 1);
      assert ColSum(b, x, y, n - 1, n) == Conv(x, y, n - 1) + b * ColSum(b, x, y, n, n);
      LowColumnsStep(b, n, Pow(b, n - 1), ColSum(b, x, y, 0, n - 1), Conv(x, y, n - 1));
    }
  }

  lemma LowColumnsStep(b: int, n: int, p: int, sum: int, c: int)
    requires b >= 1 && n >= 1 && p >= 1
    requires 0 <= sum <= (n - 1) * (b * p) && 0 <= c <= n * ((b - 1) * (b - 1))
    ensures 0 <= sum + p * c <= n * (b * (b * p))
  {
    MulMono(0, c, p);
    MulMono(c, n * ((b - 1) * (b - 1)), p);
    LowColumnsArith(b, n, p);
  }

  lemma LowColumnsArith(b: int, n: int, p: int)
    requires b >= 1 && n >= 1 && p >= 1
    ensures (n - 1) * (b * p) + (n * ((b - 1) * (b - 1))) * p <= n * (b * (b * p))
  {
    var d := (b - 1) * (b - 1);
    assert d == b * b - 2 * b + 1;
    MulAssoc(n, d, p);
    MulDist(b * b - 2 * b, -1, p);
    assert d * p == b * (b * p) - 2 * (b * p) + p by {
      MulAssoc(b, b, p);
      MulAssoc(2, b, p);
      MulDist(b * b, 2 * b, p);
      MulDist(b * b - 2 * b, 1, p);
    }
    var q := b * p;
    MulMono(1, b, p);
    MulDist(b * q - 2 * q, p, n);
    MulDist(b * q, 2 * q, n);
    MulMono(p, q, n);
    MulMono(0, q, n);
    MulDist(n, 1, q);
    assert n * (2 * q) == 2 * (n * q);
  }

  /** Digit j of a number shifted right by sh bits, first two neighbouring digits. */
  function Joined(lo: int, hi: int, e: int, f: int): int
    requires e > 0 && f > 0 && e * f > 0
  {
    lo / e + (hi * f) % (e * f)
  }

  /**
   A right shift by sh bits: each limb takes the high part of one digit and the
   low part of the next. e = 2^sh and f = 2^(bits - sh).
   */
  function ShiftRight(s: seq<int>, e: int, f: int): (r: seq<int>)
    requires s != [] && e > 0 && f > 0 && e * f > 0
    ensures |r| == |s| - 1
    decreases |s|
  {
    if |s| == 1 then [] else [Joined(s[0], s[1], e, f)] + ShiftRight(s[1..], e, f)
  }

  lemma JoinedBound(lo: int, hi: int, e: int, f: int)
    requires e > 0 && f > 0 && 0 <= lo < e * f && 0 <= hi
    ensures (hi * f) % (e * f) == (hi % e) * f
    ensures 0 <= Joined(lo, hi, e, f) < e * f
    ensures hi * f == (hi % e) * f + (e * f) * (hi / e)
  {
    assert hi == e * (hi / e) + hi % e;
    MulDist(e * (hi / e), hi % e, f);
    MulAssoc(e, hi / e, f);
    MulAssoc(e, f, hi / e);
    MulMono(hi % e, e - 1, f);
    MulMono(0, hi % e, f);
    MulDist(e, 1, f);
    DivModSplit(hi * f, e * f, hi / e, (hi % e) * f);
    DivNonneg(lo, e);
    if lo / e >= f {
      MulMono(f, lo / e, e);
    }
  }

  lemma {:induction false} ShiftRightValue(s: seq<int>, e: int, f: int)
    requires s != [] && e > 0 && f > 0 && e * f > 0 && Digits(e * f, s) && s[|s| - 1] < e
    ensures Digits(e * f, ShiftRight(s, e, f))
    ensures Value(e * f, ShiftRight(s, e, f)) == Value(e * f, s) / e
    decreases |s|
  {
    var b := e * f;
    if |s| == 1 {
      assert s[1..] == [];
      DivModUnique(s[0], e, 0, s[0]);
    } else {
      ShiftRightValue(s[1..], e, f);
      JoinedBound(s[0], s[1], e, f);
      var v2 := Value(b, s[2..]);
      assert s[1..][1..] == s[2..];
      ShiftValueStep(s[0], s[1], v2, e, f);
      assert ShiftRight(s, e, f)[1..] == ShiftRight(s[1..], e, f);
    }
  }

  lemma ShiftValueStep(lo: int, hi: int, rest: int, e: int, f: int)
    requires e > 0 && f > 0 && e * f > 0 && 0 <= lo < e * f && 0 <= hi
    ensures (lo + (e * f) * (hi + (e * f) * rest)) / e
            == Joined(lo, hi, e, f) + (e * f) * ((hi + (e * f) * rest) / e)
  {
    var b := e * f;
    JoinedBound(lo, hi, e, f);
    MulAssoc(e, f, rest);
    DivModShift(hi, e, f * rest);
    assert (f * rest) * e == b * rest;
    assert (hi + b * rest) / e == hi / e + f * rest;
    var t := hi + b * rest;
    MulAssoc(e, f, t);
    DivModShift(lo, e, f * t);
    assert (f * t) * e == b * t;
    assert (lo + b * t) / e == lo / e + f * t;
    MulDist(hi, b * rest, f);
    MulDist(hi / e, f * rest, b);
    MulAssoc(f, b, rest);
    MulAssoc(b, f, rest);
  }
}
