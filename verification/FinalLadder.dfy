/** The double-and-add ladder that turns the last scalar and point into the result. */
module FinalLadder {
  import opened Arithmetic
  import opened Limbs
  import opened ScalarBatch
  import opened AbelianGroup
  import opened Edwards
  import opened PointOps
  import opened ScalarMult
  import opened MultiScalar
  import opened Wrappers

  /** The limb the scan for the top bit starts from; higher limbs are never read. */
  function LadderLimb(l: Layout): nat {
    if l.word == 64 then 3 else 5
  }

  /** The part of a number the ladder sees: its limbs up to that one. */
  function Seen(l: Layout, v: int): nat {
    v % Pow(Base(l), LadderLimb(l) + 1)
  }

  /** The ladder sees 224 bits in the 56-bit layout and 180 in the 30-bit one. */
  lemma SeenBits(l: Layout, v: int)
    requires Known(l)
    ensures Seen(l, v) == v % Pow2(if l.word == 64 then 224 else 180)
  {
    hide Pow2, Pow;
    BasePow(l, LadderLimb(l) + 1);
  }

  lemma SeenLimbs(l: Layout, scalar: seq<int>)
    requires IsScalar(l, scalar) && LadderLimb(l) < l.limbs
    ensures Seen(l, Val(l, scalar)) == Val(l, scalar[..LadderLimb(l) + 1])
  {
    ValueDivMod(Base(l), scalar, LadderLimb(l) + 1);
  }

  /** Bit e of limb k is bit bits*k + e of the number. */
  lemma LimbBit(l: Layout, s: seq<int>, k: nat, e: nat)
    requires Sane(l) && Digits(Base(l), s) && k < |s| && e < l.bits
    ensures l.bits * k >= 0
    ensures Val(l, s) / Pow2(l.bits * k + e) % 2 == s[k] / Pow2(e) % 2
  {
    var v, rest := Val(l, s[k..]), Val(l, s[k..][1..]);
    BasePow(l, k);
    ValueDivMod(Base(l), s, k);
    Pow2Add(l.bits * k, e);
    DivDiv(Val(l, s), Pow2(l.bits * k), Pow2(e));
    SplitBase(l, e);
    BitOfLow(s[k], Pow2(e), Pow2(l.bits - e - 1), rest);
  }

  lemma SplitBase(l: Layout, e: nat)
    requires e < l.bits
    ensures Base(l) == Pow2(e) * (2 * Pow2(l.bits - e - 1))
  {
    Pow2Add(e, l.bits - e);
  }

  lemma BitOfLow(x: int, p: int, c: int, rest: int)
    requires p >= 1
    ensures (x + p * (2 * c) * rest) / p % 2 == x / p % 2
  {
    assert p * (2 * c) * rest == (2 * (c * rest)) * p;
    DivModShift(x, p, 2 * (c * rest));
    DivModShift(x / p, 2, c * rest);
  }

  /** A non-zero top limb places the top bit of the whole number. */
  lemma TopBitPlace(l: Layout, s: seq<int>, k: nat, e: nat)
    requires Sane(l) && Digits(Base(l), s) && k < |s| && Within(s, k)
    requires Pow2(e) <= s[k] < 2 * Pow2(e)
    ensures l.bits * k >= 0
    ensures 0 <= Val(l, s) < Pow2(l.bits * k + e + 1) && BitLen(Val(l, s)) == l.bits * k + e + 1
  {
    BasePow(l, k);
    WithinValue(Base(l), s, k);
    ValueSnoc(Base(l), s, k);
    ValueBound(Base(l), s[..k]);
    Pow2Add(l.bits * k, e);
    TopPlace(Val(l, s[..k]), Pow(Base(l), k), s[k], Pow2(e));
    BitLenUnique(Val(l, s), l.bits * k + e);
  }

  lemma TopPlace(x: int, p: int, d: int, f: int)
    requires 0 <= x < p && f <= d < 2 * f
    ensures p * f <= x + p * d < 2 * (p * f)
  {
    MulMono(f, d, p);
    MulMono(d, 2 * f - 1, p);
    assert (2 * f - 1) * p == 2 * (p * f) - p;
  }

  /**
   The ladder. The result is the multiple by s + 2^BitLen(s) for the part s of the
   scalar it sees, not by the scalar. When no limb it looks at is set, the C code goes on to read
   before the start of the array, which is undefined; None marks that case.
   */
  method Ladder<G(!new)>(l: Layout, point: Point, scalar: seq<int>, ghost c: Curve<G>, ghost q: G) returns (r: Option<Point>)
    requires Sane(l) && Ed25519(c) && IsPoint(c, point, q) && IsScalar(l, scalar) && LadderLimb(l) < l.limbs
    ensures r.None? <==> Seen(l, Val(l, scalar)) == 0
    ensures r.Some? ==> IsPoint(c, r.value, Mul(c.group, Seen(l, Val(l, scalar)) + Pow2(BitLen(Seen(l, Val(l, scalar)))), q))
  {
    SeenLimbs(l, scalar);
    var s := scalar[..LadderLimb(l) + 1];
    hide Value, Mul, BitLen, IsPoint, Ed25519, Pow2, Seen;
    r := LadderOn(l, point, s, c, q);
  }

  method LadderOn<G(!new)>(l: Layout, point: Point, s: seq<int>, ghost c: Curve<G>, ghost q: G) returns (r: Option<Point>)
    requires Sane(l) && Ed25519(c) && IsPoint(c, point, q) && Digits(Base(l), s) && Val(l, s) >= 0
    ensures r.None? <==> Val(l, s) == 0
    ensures r.Some? ==> IsPoint(c, r.value, Mul(c.group, Val(l, s) + Pow2(BitLen(Val(l, s))), q))
  {
    hide Value, Mul, BitLen, IsPoint, Ed25519, Pow2, Within;
    var limb := FindTopLimb(s);
    if limb < 0 {
      NoLimb(l, s);
      return None;
    }
    NonzeroValue(l, s, limb);
    var flag, e := FindTopBit(l, s[limb]);
    TopBitPlace(l, s, limb, e);
    var x := Exponentiate(l, point, s, limb, e, c, q);
    return Some(x);
  }

  lemma NoLimb(l: Layout, s: seq<int>)
    requires Within(s, -1)
    ensures Val(l, s) == 0
  {
    ValueZero(Base(l), s);
  }

  lemma NonzeroValue(l: Layout, s: seq<int>, k: nat)
    requires Digits(Base(l), s) && k < |s| && s[k] != 0
    ensures Val(l, s) != 0
  {
    if Val(l, s) == 0 {
      AllZero(Base(l), s);
    }
  }

  ghost function Partial(low: nat, top: nat, left: nat): nat
    requires left <= top
  {
    DivNonneg(low, Pow2(left));
    Pow2(top - left) + low / Pow2(left)
  }

  lemma LadderBit<G(!new)>(l: Layout, g: Group<G>, point: G, s: seq<int>, k: nat, e: nat, left: nat, top: nat)
    requires Sane(l) && Abelian(g) && Digits(Base(l), s) && k < |s| && e < l.bits && 0 <= Val(l, s)
    requires 1 <= left <= top && left - 1 == l.bits * k + e
    ensures var r := Mul(g, Partial(Val(l, s), top, left), point);
            var d := g.add(r, r);
            Mul(g, Partial(Val(l, s), top, left - 1), point)
            == if s[k] / Pow2(e) % 2 == 1 then g.add(d, point) else d
  {
    LadderStep(g, point, Val(l, s), top, left);
    LimbBit(l, s, k, e);
  }

  /** What the final step returns for the scalar v and a point, special cases included. */
  ghost function FinalResult<G(!new)>(l: Layout, g: Group<G>, point: G, v: int): Option<G> {
    if v == 0 then Some(g.zero)
    else if v == 1 then Some(point)
    else if Seen(l, v) == 0 then None
    else Some(Mul(g, Seen(l, v) + Pow2(BitLen(Seen(l, v))), point))
  }

  /** The scan for the top bit stays inside the array. */
  predicate Scans(l: Layout, v: int) {
    0 <= v <= 1 || Seen(l, v) != 0
  }

  /** The coordinates r are those of q. */
  ghost predicate Represents<G(!new)>(c: Curve<G>, r: Option<Point>, q: Option<G>) {
    r.Some? == q.Some? && (r.Some? ==> IsPoint(c, r.value, q.value))
  }

  /** ge25519_multi_scalarmult_vartime_final. */
  method Final<G(!new)>(l: Layout, point: Point, scalar: seq<int>, ghost c: Curve<G>, ghost q: G) returns (r: Option<Point>)
    requires Sane(l) && Ed25519(c) && IsPoint(c, point, q) && IsScalar(l, scalar) && LadderLimb(l) < l.limbs
    ensures Represents(c, r, FinalResult(l, c.group, q, Val(l, scalar)))
  {
    hide Value, Mul, BitLen, IsPoint, Ed25519, Seen;
    var one := IsOne(l, scalar);
    if one {
      return Some(point);
    }
    var zero := IsZero(l, scalar);
    if zero {
      NeutralPoint(c);
      return Some(NEUTRAL);
    }
    r := Ladder(l, point, scalar, c, q);
  }

  /**
   For a point that is neutral or of an order above twice what the ladder sees, the
   final step has a result exactly when the scan stays inside the array, and the
   result is neutral exactly when the multiple it stands for is.
   */
  lemma FinalDecides<G(!new)>(l: Layout, g: Group<G>, q: int, point: G, v: int)
    requires Sane(l) && Abelian(g) && 0 <= v < q && HasOrder(g, q, point)
    requires l.bits * (LadderLimb(l) + 1) >= 0 && Pow2(l.bits * (LadderLimb(l) + 1) + 1) < q
    ensures FinalResult(l, g, point, v).Some? <==> Scans(l, v)
    ensures Scans(l, v) ==> (FinalResult(l, g, point, v).value == g.zero <==> Mul(g, v, point) == g.zero)
  {
    hide Mul, BitLen, Pow2, HasOrder;
    MulOne(g, point);
    NoMultiple(g, point);
    if v > 1 && Seen(l, v) != 0 {
      var bits := l.bits * (LadderLimb(l) + 1);
      BasePow(l, LadderLimb(l) + 1);
      LadderDecidesNeutral(g, q, Seen(l, v), bits, point);
      SmallMultiple(g, q, v, point);
      SeenBelow(l, v, q);
      SmallMultiple(g, q, Seen(l, v), point);
    }
  }

  lemma SeenBelow(l: Layout, v: int, q: int)
    requires 0 <= v < q
    ensures Seen(l, v) < q
  {
    var p := Pow(Base(l), LadderLimb(l) + 1);
    if v < p {
      SmallMod(v, p);
    }
  }

  /** Numbers below 2^bits are scanned when the ladder looks at that many bits. */
  lemma SmallScans(l: Layout, v: int, bits: nat)
    requires 0 <= v < Pow2(bits) && bits <= l.bits * (LadderLimb(l) + 1)
    ensures Scans(l, v)
  {
    BasePow(l, LadderLimb(l) + 1);
    Pow2Mono(bits, l.bits * (LadderLimb(l) + 1));
    SmallMod(v, Pow(Base(l), LadderLimb(l) + 1));
  }

  /** One bit: double, then add the point if the bit is set. */
  method DoubleAdd<G(!new)>(l: Layout, point: Point, s: seq<int>, k: nat, ghost e: nat, flag: nat, x: Point,
                            ghost left: nat, ghost top: nat, ghost c: Curve<G>, ghost q: G)
    returns (r: Point)
    requires Sane(l) && Ed25519(c) && IsPoint(c, point, q) && Digits(Base(l), s) && k < |s| && e < l.bits && 0 <= Val(l, s)
    requires 1 <= left <= top && left - 1 == l.bits * k + e && flag == Pow2(e)
    requires IsPoint(c, x, Mul(c.group, Partial(Val(l, s), top, left), q))
    ensures IsPoint(c, r, Mul(c.group, Partial(Val(l, s), top, left - 1), q))
  {
    hide Value, Mul, Partial, IsPoint, IsPartial, Ed25519, EdwardsCurve, Pow2;
    GroupOf(c);
    LadderBit(l, c.group, q, s, k, e, left, top);
    ghost var w := Mul(c.group, Partial(Val(l, s), top, left), q);
    PointIsPartial(c, x, w);
    r := Double(x, c, w);
    if s[k] / flag % 2 == 1 {
      r := AddPoints(r, point, c, c.group.add(w, w), q);
    }
  }

  /** From the top bit down: double, and add the point where a bit is set. */
  method Exponentiate<G(!new)>(l: Layout, point: Point, s: seq<int>, topLimb: nat, topBit: nat, ghost c: Curve<G>, ghost q: G)
    returns (r: Point)
    requires Sane(l) && Ed25519(c) && IsPoint(c, point, q) && Digits(Base(l), s) && topLimb < |s| && topBit < l.bits
    requires 0 <= Val(l, s) && l.bits * topLimb >= 0 && Val(l, s) < Pow2(l.bits * topLimb + topBit + 1)
    ensures IsPoint(c, r, Mul(c.group, Pow2(l.bits * topLimb + topBit + 1) + Val(l, s), q))
  {
    hide Value, Mul, IsPoint, Ed25519, Pow2, Partial, Digits;
    GroupOf(c);
    ghost var g := c.group;
    ghost var low: nat, top: nat := Val(l, s), l.bits * topLimb + topBit + 1;
    ghost var left: nat := top;
    var limb: nat, e: nat := topLimb, topBit;
    var flag := Pow2(e);
    r := point;
    PartialEnds(low, top);
    MulOne(g, q);
    while true
      invariant limb < |s| && e < l.bits && flag == Pow2(e) && left - 1 == l.bits * limb + e && left <= top
      invariant IsPoint(c, r, Mul(g, Partial(low, top, left), q))
      decreases left
    {
      r := DoubleAdd(l, point, s, limb, e, flag, r, left, top, c, q);
      left := left - 1;
      HalvedFlag(e);
      flag := flag / 2;
      if flag == 0 {
        if limb == 0 {
          break;
        }
        NextLimb(l.bits, limb);
        limb := limb - 1;
        e := l.bits - 1;
        flag := Pow2(e);
      } else {
        e := e - 1;
      }
    }
  }

  lemma PartialEnds(low: nat, top: nat)
    requires low < Pow2(top)
    ensures Partial(low, top, top) == 1 && Partial(low, top, 0) == Pow2(top) + low
  {
    DivModUnique(low, Pow2(top), 0, low);
  }

  lemma HalvedFlag(e: nat)
    ensures Pow2(e) / 2 == if e == 0 then 0 else Pow2(e - 1)
  {}

  lemma NextLimb(bits: int, limb: int)
    ensures bits * limb == bits * (limb - 1) + bits
  {}

  /** The highest non-zero limb, or -1 when the scan runs off the bottom. */
  method FindTopLimb(s: seq<int>) returns (limb: int)
    ensures -1 <= limb < |s| && Within(s, limb) && (limb >= 0 ==> s[limb] != 0)
  {
    limb := |s| - 1;
    while limb >= 0 && s[limb] == 0
      invariant -1 <= limb < |s| && Within(s, limb)
    {
      limb := limb - 1;
    }
  }

  /** The highest bit set in a non-zero limb, as a mask and as a position. */
  method FindTopBit(l: Layout, x: int) returns (flag: nat, e: nat)
    requires Sane(l) && 0 < x < Base(l)
    ensures e < l.bits && flag == Pow2(e) && flag <= x < 2 * flag
  {
    e := l.bits - 1;
    flag := Pow2(e);
    while x / flag % 2 == 0
      invariant e < l.bits && flag == Pow2(e) && x < 2 * flag
      decreases e
    {
      if x >= flag {
        DivModUnique(x, flag, 1, x - flag);
        assert false;
      }
      e := e - 1;
      flag := flag / 2;
    }
    if x < flag {
      DivModUnique(x, flag, 0, x);
      assert false;
    }
  }
}
