/** Cutting numbers into digits of another size, as packing into bytes does with shifts. */
module DigitCutting {
  import opened Arithmetic
  import opened Limbs
  import opened Columns

  /** The n lowest digits of x in base b. */
  function DigitsOf(b: int, x: int, n: nat): (r: seq<int>)
    requires b >= 1
    ensures |r| == n
    decreases n
  {
    if n == 0 then [] else [x % b] + DigitsOf(b, x / b, n - 1)
  }

  lemma {:induction false} DigitsOfValue(b: int, x: int, n: nat)
    requires b >= 1
    ensures Digits(b, DigitsOf(b, x, n)) && Value(b, DigitsOf(b, x, n)) == x % Pow(b, n)
    decreases n
  {
    if n > 0 {
      DigitsOfValue(b, x / b, n - 1);
      DivDiv(x, b, Pow(b, n - 1));
      assert DigitsOf(b, x, n)[1..] == DigitsOf(b, x / b, n - 1);
    }
  }

  lemma {:induction false} DigitsOfAt(b: int, x: int, n: nat, i: nat)
    requires b >= 1 && i < n
    ensures DigitsOf(b, x, n)[i] == x / Pow(b, i) % b
    decreases n
  {
    if i > 0 {
      DigitsOfAt(b, x / b, n - 1, i - 1);
      DivDiv(x, b, Pow(b, i - 1));
    }
  }

  /**
   t bits starting at bit off, put together from the two neighbouring w-bit digits
   that hold them. The C code joins the two shifted digits with |, which is a sum
   here because they do not overlap.
   */
  function Piece(s: seq<int>, w: nat, off: nat, t: nat): int
    requires w >= 1
  {
    DivNonneg(off, w);
    Pair(s, w, off / w, off % w, t)
  }

  function Pair(s: seq<int>, w: nat, j: nat, sh: nat, t: nat): int
    requires sh < w
  {
    (At(s, j) / Pow2(sh) + At(s, j + 1) * Pow2(w - sh)) % Pow2(t)
  }

  lemma PieceValue(s: seq<int>, w: nat, off: nat, t: nat)
    requires w >= 1 && Digits(Pow2(w), s) && t <= 2 * w - off % w
    ensures Piece(s, w, off, t) == Value(Pow2(w), s) / Pow2(off) % Pow2(t)
  {
    DivNonneg(off, w);
    PieceAt(s, w, off, off / w, off % w, t);
  }

  lemma PieceAt(s: seq<int>, w: nat, off: nat, j: nat, sh: nat, t: nat)
    requires sh < w && Digits(Pow2(w), s) && t <= 2 * w - sh && off == w * j + sh
    ensures Pair(s, w, j, sh, t) == Value(Pow2(w), s) / Pow2(off) % Pow2(t)
  {
    if j < |s| {
      PieceInside(s, w, j, sh, t);
    } else {
      PieceBeyond(s, w, j, sh, t);
    }
  }

  lemma PieceInside(s: seq<int>, w: nat, j: nat, sh: nat, t: nat)
    requires w >= 1 && Digits(Pow2(w), s) && sh < w && t <= 2 * w - sh && j < |s|
    ensures w * j >= 0
    ensures Pair(s, w, j, sh, t) == Value(Pow2(w), s) / Pow2(w * j + sh) % Pow2(t)
  {
    var b, e, f := Pow2(w), Pow2(sh), Pow2(w - sh);
    PowOfPow2(w, j);
    Pow2Add(w * j, sh);
    Pow2Add(sh, w - sh);
    ValueDivMod(b, s, j);
    DivDiv(Value(b, s), Pow(b, j), e);
    var rest := if j + 1 < |s| then Value(b, s[j + 2..]) else 0;
    Neighbours(b, s, j, rest);
    Pow2Add(w - sh, w);
    Pow2Add(t, 2 * w - sh - t);
    assert w - sh + w == t + (2 * w - sh - t);
    PieceArith(Value(b, s[j..]), s[j], At(s, j + 1), At(s, j + 1) + b * rest, rest, e, f, b, Pow2(t), Pow2(2 * w - sh - t));
  }

  lemma PieceBeyond(s: seq<int>, w: nat, j: nat, sh: nat, t: nat)
    requires sh < w && Digits(Pow2(w), s) && j >= |s|
    ensures w * j >= 0
    ensures Pair(s, w, j, sh, t) == Value(Pow2(w), s) / Pow2(w * j + sh) % Pow2(t)
  {
    var b := Pow2(w);
    PowOfPow2(w, j);
    Pow2Mono(w * j, w * j + sh);
    ValueBound(b, s);
    PowMono(b, |s|, j);
    DivModUnique(Value(b, s), Pow2(w * j + sh), 0, Value(b, s));
    DivModUnique(0, Pow2(sh), 0, 0);
  }

  lemma Neighbours(b: int, s: seq<int>, j: nat, rest: int)
    requires j < |s| && rest == if j + 1 < |s| then Value(b, s[j + 2..]) else 0
    ensures Value(b, s[j..]) == s[j] + b * (At(s, j + 1) + b * rest)
  {
    assert s[j..][1..] == s[j + 1..];
    if j + 1 < |s| {
      assert s[j + 1..][1..] == s[j + 2..];
    }
  }

  lemma {:induction false} PowMono(b: int, i: nat, j: nat)
    requires b >= 1 && i <= j
    ensures Pow(b, i) <= Pow(b, j)
  {
    if i < j {
      PowMono(b, i, j - 1);
      MulMono(1, b, Pow(b, j - 1));
    }
  }

  lemma ShiftOut(v: int, lo: int, e: int, f: int, b: int, t: int)
    requires e >= 1 && b == e * f && v == lo + b * t
    ensures v / e == lo / e + f * t
  {
    MulAssoc(e, f, t);
    DivModShift(lo, e, f * t);
  }

  lemma PieceArith(v: int, lo: int, hi: int, t: int, rest: int, e: int, f: int, b: int, p: int, q: int)
    requires e >= 1 && p >= 1 && b == e * f && f * b == p * q && t == hi + b * rest && v == lo + b * t
    ensures (lo / e + hi * f) % p == v / e % p
  {
    ShiftOut(v, lo, e, f, b, t);
    PieceMod(lo / e, hi, t, f, b, rest, p, q);
  }

  lemma PieceMod(x: int, hi: int, t: int, f: int, b: int, rest: int, p: int, q: int)
    requires p >= 1 && f * b == p * q && t == hi + b * rest
    ensures (x + hi * f) % p == (x + f * t) % p
  {
    MulDist(hi, b * rest, f);
    MulAssoc(f, b, rest);
    MultipleVanishes(x + hi * f, p, q, rest);
  }

  lemma MultipleVanishes(x: int, p: int, q: int, r: int)
    requires p >= 1
    ensures (x + (p * q) * r) % p == x % p
  {
    MulAssoc(p, q, r);
    DivModShift(x, p, q * r);
  }

  /** n limbs of the given size, from bit off on. */
  function Cut(s: seq<int>, w: nat, off: nat, bits: nat, n: nat): (r: seq<int>)
    requires w >= 1
    ensures |r| == n
  {
    seq(n, i requires 0 <= i < n => Piece(s, w, off + bits * i, bits))
  }

  lemma CutValue(s: seq<int>, w: nat, off: nat, bits: nat, n: nat)
    requires w >= 1 && bits <= w && Digits(Pow2(w), s)
    ensures Digits(Pow2(bits), Cut(s, w, off, bits, n))
    ensures Value(Pow2(bits), Cut(s, w, off, bits, n)) == Value(Pow2(w), s) / Pow2(off) % Pow(Pow2(bits), n)
  {
    var b, x := Pow2(bits), Value(Pow2(w), s);
    var r := DigitsOf(b, x / Pow2(off), n);
    DigitsOfValue(b, x / Pow2(off), n);
    forall i | 0 <= i < n ensures Cut(s, w, off, bits, n)[i] == r[i] {
      PieceValue(s, w, off + bits * i, bits);
      DigitsOfAt(b, x / Pow2(off), n, i);
      PowOfPow2(bits, i);
      Pow2Add(off, bits * i);
      DivDiv(x, Pow2(off), Pow2(bits * i));
    }
    assert Cut(s, w, off, bits, n) == r;
  }

  /** Groups of k digits in base b are digits in base b^k. */
  function Grouped(b: int, s: seq<int>, k: nat): (r: seq<int>)
    requires k >= 1
    decreases |s|
  {
    if |s| < k then [] else [Value(b, s[..k])] + Grouped(b, s[k..], k)
  }

  lemma {:induction false} GroupedValue(b: int, s: seq<int>, k: nat)
    requires b >= 1 && k >= 1 && |s| % k == 0 && Digits(b, s)
    ensures Digits(Pow(b, k), Grouped(b, s, k)) && Value(Pow(b, k), Grouped(b, s, k)) == Value(b, s)
    ensures |Grouped(b, s, k)| == |s| / k
    decreases |s|
  {
    if |s| < k {
      DivModUnique(|s|, k, 0, |s|);
    } else {
      DivModShift(|s|, k, -1);
      GroupedValue(b, s[k..], k);
      ValueSplit(b, s, k);
      ValueBound(b, s[..k]);
      assert Grouped(b, s, k)[1..] == Grouped(b, s[k..], k);
    }
  }

  /** Each digit in base b^k written out as k digits in base b. */
  function Spread(b: int, s: seq<int>, k: nat): (r: seq<int>)
    requires b >= 1
    decreases |s|
  {
    if s == [] then [] else DigitsOf(b, s[0], k) + Spread(b, s[1..], k)
  }

  lemma {:induction false} SpreadValue(b: int, s: seq<int>, k: nat)
    requires b >= 1 && k >= 1 && Digits(Pow(b, k), s)
    ensures Digits(b, Spread(b, s, k)) && Value(b, Spread(b, s, k)) == Value(Pow(b, k), s)
    ensures |Spread(b, s, k)| == k * |s|
    decreases |s|
  {
    if s != [] {
      SpreadValue(b, s[1..], k);
      DigitsOfValue(b, s[0], k);
      DivModUnique(s[0], Pow(b, k), 0, s[0]);
      ValueConcat(b, DigitsOf(b, s[0], k), Spread(b, s[1..], k));
      MulDist(|s| - 1, 1, k);
    }
  }
}
