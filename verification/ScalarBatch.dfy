/**
 The variable-time scalar helpers of the batch verifier. Each looks only at
 limbs 0..limbsize; the 64-bit layout compares by a borrow chain, the 32-bit
 layout from the top limb down.
 */
module ScalarBatch {
  import opened Arithmetic
  import opened Limbs

  /** x as an unsigned machine word. */
  function Word(l: Layout, x: int): (r: nat)
    requires l.word > 0
    ensures r < Pow2(l.word)
  {
    x % Pow2(l.word)
  }

  /** The top bit of a word, which the C code reads as a borrow. */
  function TopBit(l: Layout, x: nat): nat
    requires l.word > 0
  {
    DivNonneg(x, Pow2(l.word - 1));
    x / Pow2(l.word - 1)
  }

  /** A limb difference that just went negative shows its borrow in the top bit. */
  lemma WordBorrow(l: Layout, x: int)
    requires Sane(l) && -(Base(l) as int) <= x < Base(l)
    ensures TopBit(l, Word(l, x)) == if x < 0 then 1 else 0
    ensures Word(l, x) % Base(l) == if x < 0 then x + Base(l) else x
    ensures x >= 0 ==> Word(l, x) == x
  {
    var w, b := Pow2(l.word), Base(l);
    Pow2StrictMono(l.bits, l.word - 1);
    Pow2Add(l.word - l.bits, l.bits);
    if x >= 0 {
      DivModUnique(x, w, 0, x);
      DivModUnique(x, w / 2, 0, x);
      DivModUnique(x, b, 0, x);
    } else {
      DivModUnique(x, w, -1, x + w);
      DivModUnique(x + w, w / 2, 1, x + w / 2);
      var c := Pow2(l.word - l.bits);
      assert x + w == (c - 1) * b + (x + b);
      DivModUnique(x + w, b, c - 1, x + b);
    }
  }

  /** The borrow out of limbs 0..k-1 of a - b (64-bit layout). */
  function Borrow(l: Layout, a: seq<int>, b: seq<int>, k: nat): nat
    requires Sane(l) && k <= |a| && k <= |b|
  {
    if k == 0 then 0
    else TopBit(l, Word(l, a[k - 1] - b[k - 1] - Borrow(l, a, b, k - 1)))
  }

  /** The borrow chain decides which of the two prefixes is smaller. */
  lemma {:induction false} BorrowCompares(l: Layout, a: seq<int>, b: seq<int>, k: nat)
    requires Sane(l) && k <= |a| && k <= |b|
    requires Digits(Base(l), a) && Digits(Base(l), b)
    ensures Borrow(l, a, b, k) == if Val(l, a[..k]) < Val(l, b[..k]) then 1 else 0
  {
    if k > 0 {
      BorrowCompares(l, a, b, k - 1);
      ValueSnoc(Base(l), a, k - 1);
      ValueSnoc(Base(l), b, k - 1);
      ValueBound(Base(l), a[..k - 1]);
      ValueBound(Base(l), b[..k - 1]);
      TopDigit(Val(l, a[..k - 1]), Val(l, b[..k - 1]), Pow(Base(l), k - 1), a[k - 1], b[k - 1]);
      WordBorrow(l, a[k - 1] - b[k - 1] - Borrow(l, a, b, k - 1));
    }
  }

  /** Comparison from limb k down (32-bit layout). */
  predicate LexLess(a: seq<int>, b: seq<int>, k: nat, onEqual: bool)
    requires k < |a| && k < |b|
  {
    if a[k] > b[k] then false
    else if a[k] < b[k] then true
    else if k == 0 then onEqual
    else LexLess(a, b, k - 1, onEqual)
  }

  lemma {:induction false} LexCompares(base: int, a: seq<int>, b: seq<int>, k: nat, onEqual: bool)
    requires base >= 1 && k < |a| && k < |b| && Digits(base, a) && Digits(base, b)
    ensures LexLess(a, b, k, onEqual) <==>
            (Value(base, a[..k + 1]) < Value(base, b[..k + 1])
             || (onEqual && Value(base, a[..k + 1]) == Value(base, b[..k + 1])))
  {
    ValueSnoc(base, a, k);
    ValueSnoc(base, b, k);
    ValueBound(base, a[..k]);
    ValueBound(base, b[..k]);
    TopDigit(Value(base, a[..k]), Value(base, b[..k]), Pow(base, k), a[k], b[k]);
    if a[k] == b[k] {
      if k == 0 {
        assert a[..0] == [] && b[..0] == [];
      } else {
        LexCompares(base, a, b, k - 1, onEqual);
      }
    }
  }

  /** Is a < b, looking only at limbs 0..limbsize? */
  predicate Less(l: Layout, a: seq<int>, b: seq<int>, limbsize: nat)
    requires Sane(l) && IsScalar(l, a) && IsScalar(l, b) && limbsize < l.limbs
    ensures Less(l, a, b, limbsize) <==> Val(l, a[..limbsize + 1]) < Val(l, b[..limbsize + 1])
  {
    BorrowCompares(l, a, b, limbsize + 1);
    LexCompares(Base(l), a, b, limbsize, false);
    if l.word == 64 then Borrow(l, a, b, limbsize + 1) == 1 else LexLess(a, b, limbsize, false)
  }

  /** Is a <= b, looking only at limbs 0..limbsize? */
  predicate LessEq(l: Layout, a: seq<int>, b: seq<int>, limbsize: nat)
    requires Sane(l) && IsScalar(l, a) && IsScalar(l, b) && limbsize < l.limbs
    ensures LessEq(l, a, b, limbsize) <==> Val(l, a[..limbsize + 1]) <= Val(l, b[..limbsize + 1])
  {
    BorrowCompares(l, b, a, limbsize + 1);
    LexCompares(Base(l), a, b, limbsize, true);
    if l.word == 64 then Borrow(l, b, a, limbsize + 1) != 1 else LexLess(a, b, limbsize, true)
  }

  /**
   a - b on limbs 0..limbsize, written over a; the limbs above are left alone and
   the last limb is not masked, which is harmless because a >= b there.
   */
  method Sub(l: Layout, a: seq<int>, b: seq<int>, limbsize: nat) returns (out: seq<int>)
    requires Sane(l) && IsScalar(l, a) && IsScalar(l, b) && limbsize < l.limbs
    requires Val(l, b[..limbsize + 1]) <= Val(l, a[..limbsize + 1])
    ensures IsScalar(l, out)
    ensures out[limbsize + 1..] == a[limbsize + 1..]
    ensures Val(l, out[..limbsize + 1]) == Val(l, a[..limbsize + 1]) - Val(l, b[..limbsize + 1])
  {
    var base := Base(l);
    out := a;
    var carry := 0;
    for i := 0 to limbsize
      invariant IsScalar(l, out) && out[i..] == a[i..] && 0 <= carry <= 1
      invariant Val(l, out[..i]) == Val(l, a[..i]) - Val(l, b[..i]) + carry * Pow(base, i)
    {
      var d := a[i] - b[i] - carry;
      WordBorrow(l, d);
      ghost var before := out;
      ghost var borrowed := carry;
      out := out[i := Word(l, d) % base];
      carry := TopBit(l, Word(l, d));
      SubStep(base, before, out, a, b, i, borrowed, carry);
    }
    var d := a[limbsize] - b[limbsize] - carry;
    SubNoBorrow(base, out, a, b, limbsize, carry);
    WordBorrow(l, d);
    ghost var before := out;
    out := out[limbsize := Word(l, d)];
    SubStep(base, before, out, a, b, limbsize, carry, 0);
  }

  /** The last limb cannot borrow when a >= b. */
  lemma SubNoBorrow(base: int, out: seq<int>, a: seq<int>, b: seq<int>, i: nat, carry: int)
    requires base >= 1 && |out| == |a| == |b| && i < |a| && Digits(base, out)
    requires Value(base, out[..i]) == Value(base, a[..i]) - Value(base, b[..i]) + carry * Pow(base, i)
    requires Value(base, b[..i + 1]) <= Value(base, a[..i + 1])
    ensures a[i] - b[i] - carry >= 0
  {
    ValueSnoc(base, a, i);
    ValueSnoc(base, b, i);
    ValueBound(base, out[..i]);
    DistributeBorrow(Pow(base, i), a[i], b[i], carry, 0, base);
    Outweighs(Value(base, out[..i]), 0, Pow(base, i), a[i] - b[i] - carry);
  }

  lemma DistributeBorrow(p: int, x: int, y: int, carry: int, carry': int, base: int)
    ensures p * (x - y - carry + carry' * base) == p * x - p * y - carry * p + carry' * (base * p)
  {}

  lemma SubStep(base: int, before: seq<int>, out: seq<int>, a: seq<int>, b: seq<int>, i: nat, carry: int, carry': int)
    requires base >= 1 && |before| == |out| == |a| == |b| && i < |a|
    requires out == before[i := out[i]] && before[i..] == a[i..]
    requires out[i] == a[i] - b[i] - carry + carry' * base
    requires Value(base, before[..i]) == Value(base, a[..i]) - Value(base, b[..i]) + carry * Pow(base, i)
    ensures Value(base, out[..i + 1]) == Value(base, a[..i + 1]) - Value(base, b[..i + 1]) + carry' * Pow(base, i + 1)
    ensures out[i + 1..] == a[i + 1..]
  {
    ValueSnoc(base, a, i);
    ValueSnoc(base, b, i);
    ValueSnoc(base, out, i);
    assert out[..i] == before[..i];
    DistributeBorrow(Pow(base, i), a[i], b[i], carry, carry', base);
    assert out[i + 1..] == before[i..][1..] && a[i + 1..] == a[i..][1..];
  }

  method IsZero(l: Layout, a: seq<int>) returns (r: bool)
    requires Sane(l) && IsScalar(l, a)
    ensures r <==> Val(l, a) == 0
  {
    for i := 0 to l.limbs
      invariant forall j :: 0 <= j < i ==> a[j] == 0
    {
      if a[i] != 0 {
        if Val(l, a) == 0 {
          AllZero(Base(l), a);
        }
        return false;
      }
    }
    ValueZero(Base(l), a);
    return true;
  }

  method IsOne(l: Layout, a: seq<int>) returns (r: bool)
    requires Sane(l) && IsScalar(l, a)
    ensures r <==> Val(l, a) == 1
  {
    if Val(l, a) == 1 {
      OneLimbs(l, a);
    }
    for i := 0 to l.limbs
      invariant forall j :: 0 <= j < i ==> a[j] == if j == 0 then 1 else 0
    {
      if a[i] != if i == 0 then 1 else 0 {
        return false;
      }
    }
    ValueZero(Base(l), a[1..]);
    return true;
  }

  lemma OneLimbs(l: Layout, a: seq<int>)
    requires Sane(l) && IsScalar(l, a) && Val(l, a) == 1
    ensures forall j :: 0 <= j < |a| ==> a[j] == if j == 0 then 1 else 0
  {
    Pow2Mono(1, l.bits);
    DivModUnique(1, Base(l), Val(l, a[1..]), a[0]);
    DivModUnique(1, Base(l), 0, 1);
    AllZero(Base(l), a[1..]);
    assert forall j :: 1 <= j < |a| ==> a[j] == a[1..][j - 1];
  }

  /** Bit 128 is bit Bit128 of limb Limb128. */
  function Limb128(l: Layout): nat {
    if l.word == 64 then 2 else 4
  }

  function Bit128(l: Layout): nat {
    if l.word == 64 then 16 else 8
  }

  /** Does a fit in 128 bits? Every limb above bit 128 is tested, the straddling one by mask. */
  predicate AtMost128(l: Layout, a: seq<int>)
    requires Sane(l) && IsScalar(l, a) && Limb128(l) < l.limbs && Bit128(l) < l.bits
    ensures AtMost128(l, a) <==> Val(l, a) < Pow2(l.bits * Limb128(l) + Bit128(l))
  {
    FitsBelowBit(l, a, Limb128(l), Bit128(l));
    && (forall i :: Limb128(l) < i < l.limbs ==> a[i] == 0)
    && a[Limb128(l)] / Pow2(Bit128(l)) == 0
  }

  lemma FitsBelowBit(l: Layout, a: seq<int>, k: nat, bit: nat)
    requires Sane(l) && IsScalar(l, a) && k < l.limbs && bit < l.bits
    ensures l.bits * k >= 0
    ensures (Within(a, k) && a[k] / Pow2(bit) == 0) <==> Val(l, a) < Pow2(l.bits * k + bit)
  {
    var p, e := Pow(Base(l), k), Pow2(bit);
    BasePow(l, k);
    Pow2Add(l.bits * k, bit);
    PowStep(l, k, bit);
    WithinBound(Base(l), a, k);
    if Within(a, k) {
      WithinValue(Base(l), a, k);
      ValueSnoc(Base(l), a, k);
      ValueBound(Base(l), a[..k]);
      BelowBit(Val(l, a[..k]), p, a[k], e);
    }
  }

  lemma PowStep(l: Layout, k: nat, bit: nat)
    requires bit < l.bits
    ensures l.bits * k >= 0 && Pow2(l.bits * k + bit) <= Pow(Base(l), k + 1)
  {
    BasePow(l, k + 1);
    assert l.bits * (k + 1) == l.bits * k + l.bits;
    BasePow(l, k);
    Pow2Mono(l.bits * k + bit, l.bits * (k + 1));
  }

  lemma BelowBit(x: int, p: int, d: int, e: int)
    requires 0 <= x < p && d >= 0 && e >= 1
    ensures d / e == 0 <==> x + p * d < p * e
  {
    TopDigit(x, 0, p, d, e);
    if d < e {
      DivModUnique(d, e, 0, d);
      MulMono(d, e - 1, p);
      assert (e - 1) * p == p * e - p;
    } else {
      DivMono(e, d, e);
      DivModUnique(e, e, 1, 0);
      MulMono(e, d, p);
    }
  }
}
