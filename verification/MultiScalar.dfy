/**
 What the batch verifier's multi-scalar multiplication is about: sums of
 multiples of points, the round that moves weight from the largest scalar to the
 second largest, and the doubling ladder that finishes the job.
 */
module MultiScalar {
  import opened Arithmetic
  import opened AbelianGroup

  /** s[0]*p[0] + ... + s[n-1]*p[n-1] */
  ghost function Combine<G(!new)>(g: Group<G>, s: seq<int>, p: seq<G>, n: nat): G
    requires n <= |s| && n <= |p|
  {
    if n == 0 then g.zero else g.add(Combine(g, s, p, n - 1), Mul(g, s[n - 1], p[n - 1]))
  }

  lemma {:induction false} CombineFrame<G(!new)>(g: Group<G>, s: seq<int>, p: seq<G>, s': seq<int>, p': seq<G>, n: nat)
    requires n <= |s| && n <= |p| && n <= |s'| && n <= |p'|
    requires s[..n] == s'[..n] && p[..n] == p'[..n]
    ensures Combine(g, s, p, n) == Combine(g, s', p', n)
  {
    if n > 0 {
      assert s[..n - 1] == s[..n][..n - 1] && s'[..n - 1] == s'[..n][..n - 1];
      assert p[..n - 1] == p[..n][..n - 1] && p'[..n - 1] == p'[..n][..n - 1];
      CombineFrame(g, s, p, s', p', n - 1);
      assert s[n - 1] == s[..n][n - 1] && s'[n - 1] == s'[..n][n - 1];
      assert p[n - 1] == p[..n][n - 1] && p'[n - 1] == p'[..n][n - 1];
    }
  }

  /** Replacing one term changes the sum by the difference of the terms. */
  lemma {:induction false} CombineReplace<G(!new)>(g: Group<G>, s: seq<int>, p: seq<G>, n: nat, i: nat, k: int, q: G, d: G)
    requires Abelian(g) && i < n <= |s| && n <= |p|
    requires Mul(g, k, q) == g.add(Mul(g, s[i], p[i]), d)
    ensures Combine(g, s[i := k], p[i := q], n) == g.add(Combine(g, s, p, n), d)
  {
    var s', p' := s[i := k], p[i := q];
    var c, t := Combine(g, s, p, n - 1), Mul(g, s[n - 1], p[n - 1]);
    if i == n - 1 {
      CombineFrame(g, s, p, s', p', n - 1);
      AddAssoc(g, c, t, d);
    } else {
      CombineReplace(g, s, p, n - 1, i, k, q, d);
      AddAssoc(g, c, d, t);
      AddComm(g, d, t);
      AddAssoc(g, c, t, d);
    }
  }

  /** One round: s[i] -= s[j] and p[j] += p[i] leaves the sum unchanged. */
  lemma CombineRound<G(!new)>(g: Group<G>, s: seq<int>, p: seq<G>, n: nat, i: nat, j: nat)
    requires Abelian(g) && i < n <= |s| && n <= |p| && j < n && i != j
    ensures Combine(g, s[i := s[i] - s[j]], p[j := g.add(p[j], p[i])], n) == Combine(g, s, p, n)
  {
    var d := Mul(g, s[j], p[i]);
    var c := Combine(g, s, p, n);
    MulAdd(g, s[i], -s[j], p[i]);
    MulNeg(g, s[j], p[i]);
    CombineReplace(g, s, p, n, i, s[i] - s[j], p[i], g.neg(d));
    var s1 := s[i := s[i] - s[j]];
    assert p[i := p[i]] == p;
    MulDistrib(g, s[j], p[j], p[i]);
    CombineReplace(g, s1, p, n, j, s1[j], g.add(p[j], p[i]), d);
    assert s1[j := s1[j]] == s1;
    AddAssoc(g, c, g.neg(d), d);
    AddNeg(g, d);
    AddZero(g, c);
  }

  /** When a single scalar is left, the sum is that one term. */
  lemma {:induction false} CombineSingle<G(!new)>(g: Group<G>, s: seq<int>, p: seq<G>, n: nat, i: nat)
    requires Abelian(g) && n <= |s| && n <= |p| && i < |s| && i < |p|
    requires forall v :: 0 <= v < n && v != i ==> s[v] == 0
    ensures Combine(g, s, p, n) == if i < n then Mul(g, s[i], p[i]) else g.zero
  {
    if n > 0 {
      CombineSingle(g, s, p, n - 1, i);
      AddZero(g, Combine(g, s, p, n - 1));
      AddZero(g, Mul(g, s[n - 1], p[n - 1]));
    }
  }

  ghost function Total(s: seq<int>, n: nat): int
    requires n <= |s|
  {
    if n == 0 then 0 else Total(s, n - 1) + s[n - 1]
  }

  lemma {:induction false} TotalUpdate(s: seq<int>, n: nat, i: nat, v: int)
    requires n <= |s| && i < |s|
    ensures Total(s[i := v], n) == Total(s, n) + if i < n then v - s[i] else 0
  {
    if n > 0 {
      TotalUpdate(s, n - 1, i, v);
    }
  }

  /** d divides the first n scalars. */
  ghost predicate CommonDivisor(d: int, s: seq<int>, n: nat)
    requires n <= |s|
  {
    d >= 1 && forall i :: 0 <= i < n ==> s[i] % d == 0
  }

  lemma DivisorOfDifference(d: int, x: int, y: int)
    requires d >= 1 && y % d == 0
    ensures (x - y) % d == 0 <==> x % d == 0
  {
    DivModShift(x, d, -(y / d));
    assert -(y / d) * d == -y;
  }

  /** A round keeps the common divisors, so the last scalar left is the greatest one. */
  lemma DivisorRound(d: int, s: seq<int>, n: nat, i: nat, j: nat)
    requires i < n <= |s| && j < n && i != j
    ensures CommonDivisor(d, s[i := s[i] - s[j]], n) <==> CommonDivisor(d, s, n)
  {
    var s' := s[i := s[i] - s[j]];
    if d >= 1 && s[j] % d == 0 {
      DivisorOfDifference(d, s[i], s[j]);
      if CommonDivisor(d, s', n) {
        forall v | 0 <= v < n ensures s[v] % d == 0 {
          assert s'[v] % d == 0;
        }
      }
    } else if CommonDivisor(d, s', n) {
      assert s'[j] == s[j];
    }
  }

  /** All of the first n scalars are zero, but for at most one. */
  ghost predicate AtMostOneNonzero(s: seq<int>, n: nat)
    requires n <= |s|
  {
    forall i, j :: 0 <= i < j < n ==> s[i] == 0 || s[j] == 0
  }

  /**
   The scalars on which the reduction of the first k runs dry before the rest
   joins the heap: fewer than two are non-zero, or they share a divisor of bound
   or more.
   */
  ghost predicate RunsDry(s: seq<int>, k: nat, bound: int)
    requires k <= |s|
  {
    AtMostOneNonzero(s, k) || exists d :: d >= bound && CommonDivisor(d, s, k)
  }

  /** The m-fold multiples of the first n points are neutral. */
  ghost predicate Annihilates<G(!new)>(g: Group<G>, m: int, p: seq<G>, n: nat)
    requires n <= |p|
  {
    forall i :: 0 <= i < n ==> Mul(g, m, p[i]) == g.zero
  }

  /** Adding one point to another keeps their orders. */
  lemma AnnihilatesRound<G(!new)>(g: Group<G>, m: int, p: seq<G>, n: nat, i: nat, j: nat)
    requires Abelian(g) && i < n <= |p| && j < n && Annihilates(g, m, p, n)
    ensures Annihilates(g, m, p[j := g.add(p[j], p[i])], n)
  {
    hide Mul;
    MulDistrib(g, m, p[j], p[i]);
    AddZero(g, g.zero);
  }

  /** s and p stand for the same sum, and the same common divisors, as s0 and p0, and the points keep their orders. */
  ghost predicate SameSum<G(!new)>(g: Group<G>, s0: seq<int>, p0: seq<G>, s: seq<int>, p: seq<G>, n: nat)
    requires n <= |s0| && n <= |p0| && n <= |s| && n <= |p|
  {
    && Combine(g, s, p, n) == Combine(g, s0, p0, n)
    && (forall d {:trigger CommonDivisor(d, s, n)} {:trigger CommonDivisor(d, s0, n)} ::
          CommonDivisor(d, s, n) <==> CommonDivisor(d, s0, n))
    && (forall m {:trigger Annihilates(g, m, p, n)} {:trigger Annihilates(g, m, p0, n)} ::
          Annihilates(g, m, p0, n) ==> Annihilates(g, m, p, n))
  }

  lemma SameSumRound<G(!new)>(g: Group<G>, s0: seq<int>, p0: seq<G>, s: seq<int>, p: seq<G>, n: nat, i: nat, j: nat)
    requires Abelian(g) && n <= |s0| && n <= |p0| && i < n <= |s| && n <= |p| && j < n && i != j
    requires SameSum(g, s0, p0, s, p, n)
    ensures SameSum(g, s0, p0, s[i := s[i] - s[j]], p[j := g.add(p[j], p[i])], n)
  {
    CombineRound(g, s, p, n, i, j);
    forall d ensures CommonDivisor(d, s[i := s[i] - s[j]], n) <==> CommonDivisor(d, s0, n) {
      DivisorRound(d, s, n, i, j);
    }
    forall m | Annihilates(g, m, p0, n) ensures Annihilates(g, m, p[j := g.add(p[j], p[i])], n) {
      AnnihilatesRound(g, m, p, n, i, j);
    }
  }

  /** With only s[i] left, the common divisors are the divisors of s[i]. */
  lemma SingleDivisors(s: seq<int>, n: nat, i: nat, d: int)
    requires i < n <= |s| && d >= 1
    requires forall v :: 0 <= v < n && v != i ==> s[v] == 0
    ensures CommonDivisor(d, s, n) <==> s[i] % d == 0
  {
    DivModUnique(0, d, 0, 0);
  }

  /**
   If the heap holds two non-zero scalars and its largest is below the bound, the
   scalars it started from do not run dry.
   */
  lemma StillRunning<G(!new)>(g: Group<G>, s0: seq<int>, p0: seq<G>, s: seq<int>, p: seq<G>, k: nat, bound: int, i: nat)
    requires k <= |s0| && k <= |p0| && i < k <= |s| && k <= |p|
    requires SameSum(g, s0, p0, s, p, k) && 0 < s[i] < bound && !AtMostOneNonzero(s0, k)
    ensures !RunsDry(s0, k, bound)
  {
    forall d | d >= bound ensures !CommonDivisor(d, s0, k) {
      if CommonDivisor(d, s0, k) {
        assert CommonDivisor(d, s, k);
        DivModUnique(s[i], d, 0, s[i]);
      }
    }
  }

  /**
   A round at x >= bound that leaves a single non-zero scalar must have subtracted
   equals, so what is left is a common divisor of bound or more.
   */
  lemma RanDry<G(!new)>(g: Group<G>, s0: seq<int>, p0: seq<G>, s: seq<int>, p: seq<G>, k: nat, bound: int,
                        x: int, y: int, i: nat, j: nat, last: nat)
    requires k <= |s0| && k <= |p0| && i < k <= |s| && k <= |p| && j < k && i != j && last < k
    requires SameSum(g, s0, p0, s, p, k)
    requires forall v :: 0 <= v < k && v != last ==> s[v] == 0
    requires s[i] == x - y && s[j] == y && y > 0 && x >= bound >= 1
    ensures RunsDry(s0, k, bound)
  {
    SingleDivisors(s, k, last, y);
    DivModUnique(y, y, 1, 0);
    assert CommonDivisor(y, s, k);
  }

  /** The last round done before the heap was extended: s[i] = x - y and s[j] = y. */
  datatype Trace = Untouched | Round(x: int, y: int, i: nat, j: nat)

  /** What every state of the reduction keeps, k being the size of the first heap. */
  ghost predicate History<G(!new)>(g: Group<G>, s0: seq<int>, p0: seq<G>, s: seq<int>, p: seq<G>,
                                   count: nat, k: nat, bound: int, extended: bool, t: Trace)
    requires k <= count <= |s| == |s0| == |p| == |p0|
  {
    && (forall v :: 0 <= v < count ==> s[v] >= 0)
    && SameSum(g, s0, p0, s, p, count)
    && (!extended ==> SameSum(g, s0, p0, s, p, k) && forall v :: k <= v < count ==> s[v] < bound)
    && (extended ==> !RunsDry(s0, k, bound) && forall v :: 0 <= v < count ==> s[v] < bound)
    && (!extended && t.Untouched? ==> s == s0)
    && (!extended && t.Round? ==>
          && !AtMostOneNonzero(s0, k)
          && t.i < k && t.j < k && t.i != t.j
          && s[t.i] == t.x - t.y && s[t.j] == t.y && t.y > 0 && t.x >= bound)
  }

  lemma HistoryStart<G(!new)>(g: Group<G>, s: seq<int>, p: seq<G>, count: nat, k: nat, bound: int)
    requires k <= count <= |s| == |p|
    requires forall v :: 0 <= v < count ==> s[v] >= 0
    requires forall v :: k <= v < count ==> s[v] < bound
    ensures History(g, s, p, s, p, count, k, bound, false, Untouched)
  {}

  lemma HistoryExtend<G(!new)>(g: Group<G>, s0: seq<int>, p0: seq<G>, s: seq<int>, p: seq<G>,
                               count: nat, k: nat, bound: int, t: Trace, i: nat, j: nat)
    requires k <= count <= |s| == |s0| == |p| == |p0|
    requires History(g, s0, p0, s, p, count, k, bound, false, t)
    requires i < k && j < k && i != j && 0 < s[j] <= s[i] < bound
    requires forall v :: 0 <= v < k ==> s[v] <= s[i]
    ensures History(g, s0, p0, s, p, count, k, bound, true, t)
  {
    StillRunning(g, s0, p0, s, p, k, bound, i);
  }

  lemma HistoryRound<G(!new)>(g: Group<G>, s0: seq<int>, p0: seq<G>, s: seq<int>, p: seq<G>,
                              count: nat, k: nat, bound: int, extended: bool, t: Trace, i: nat, j: nat)
    requires Abelian(g) && k <= count <= |s| == |s0| == |p| == |p0|
    requires History(g, s0, p0, s, p, count, k, bound, extended, t)
    requires i != j && 0 <= i < count && 0 <= j < count && (!extended ==> i < k && j < k && s[i] >= bound)
    requires 0 < s[j] <= s[i]
    ensures History(g, s0, p0, s[i := s[i] - s[j]], p[j := g.add(p[j], p[i])], count, k, bound, extended,
                    Round(s[i], s[j], i, j))
    ensures 0 <= Total(s[i := s[i] - s[j]], count) < Total(s, count)
  {
    SameSumRound(g, s0, p0, s, p, count, i, j);
    if !extended {
      SameSumRound(g, s0, p0, s, p, k, i, j);
    }
    TotalUpdate(s, count, i, s[i] - s[j]);
    TotalNonnegative(s[i := s[i] - s[j]], count);
  }

  lemma HistoryDone<G(!new)>(g: Group<G>, s0: seq<int>, p0: seq<G>, s: seq<int>, p: seq<G>,
                             count: nat, k: nat, bound: int, t: Trace, last: nat)
    requires k <= count <= |s| == |s0| == |p| == |p0| && bound >= 1 && last < k
    requires History(g, s0, p0, s, p, count, k, bound, false, t)
    requires forall v :: 0 <= v < k && v != last ==> s[v] == 0
    ensures RunsDry(s0, k, bound)
  {
    if t.Round? {
      RanDry(g, s0, p0, s, p, k, bound, t.x, t.y, t.i, t.j, last);
    }
  }

  lemma {:induction false} TotalNonnegative(s: seq<int>, n: nat)
    requires n <= |s| && forall i :: 0 <= i < n ==> s[i] >= 0
    ensures Total(s, n) >= 0
  {
    if n > 0 {
      TotalNonnegative(s, n - 1);
    }
  }

  /** The number of bits of n. */
  function BitLen(n: nat): (r: nat)
    ensures n < Pow2(r)
    ensures n > 0 ==> r > 0 && Pow2(r - 1) <= n
  {
    if n == 0 then 0 else 1 + BitLen(n / 2)
  }

  lemma BitLenUnique(n: nat, t: nat)
    requires Pow2(t) <= n < Pow2(t + 1)
    ensures BitLen(n) == t + 1
  {
    if BitLen(n) < t + 1 {
      Pow2Mono(BitLen(n), t);
    } else if BitLen(n) > t + 1 {
      Pow2Mono(t + 1, BitLen(n) - 1);
    }
  }

  /** One ladder step in terms of factors. */
  lemma LadderStep<G(!new)>(g: Group<G>, point: G, s: nat, top: nat, left: nat)
    requires Abelian(g) && 1 <= left <= top
    ensures var r := Mul(g, Pow2(top - left) + s / Pow2(left), point);
            var d := g.add(r, r);
            Mul(g, Pow2(top - (left - 1)) + s / Pow2(left - 1), point)
            == if s / Pow2(left - 1) % 2 == 1 then g.add(d, point) else d
  {
    var x := s / Pow2(left - 1);
    DivDiv(s, Pow2(left - 1), 2);
    assert s / Pow2(left) == x / 2;
    var f := Pow2(top - left) + x / 2;
    MulDouble(g, f, point);
    assert Pow2(top - (left - 1)) == 2 * Pow2(top - left);
    MulStep(g, 2 * f, point);
  }

  /** x is neutral or its order is q. */
  ghost predicate HasOrder<G(!new)>(g: Group<G>, q: int, x: G)
    requires q >= 1
  {
    x == g.zero || forall k: int {:trigger Mul(g, k, x)} :: Mul(g, k, x) == g.zero <==> k % q == 0
  }

  /** Below its order, a positive multiple of x is neutral only for the neutral x. */
  lemma SmallMultiple<G(!new)>(g: Group<G>, q: int, s: nat, x: G)
    requires Abelian(g) && 0 < s < q && HasOrder(g, q, x)
    ensures Mul(g, s, x) == g.zero <==> x == g.zero
  {
    DivModUnique(s, q, 0, s);
    MulZero(g, s);
  }

  /**
   The final ladder starts from the point itself and then processes the top bit
   again, so its factor is s + 2^BitLen(s). Below half the order the wrong factor
   still tells a neutral multiple from a non-neutral one.
   */
  lemma LadderDecidesNeutral<G(!new)>(g: Group<G>, q: int, s: nat, bits: nat, x: G)
    requires Abelian(g) && q >= 1 && HasOrder(g, q, x)
    requires 0 < s < Pow2(bits) && Pow2(bits + 1) < q
    ensures Mul(g, s + Pow2(BitLen(s)), x) == g.zero <==> Mul(g, s, x) == g.zero
  {
    if BitLen(s) > bits {
      Pow2Mono(bits, BitLen(s) - 1);
    }
    Pow2Mono(BitLen(s), bits);
    SmallMultiple(g, q, s, x);
    SmallMultiple(g, q, s + Pow2(BitLen(s)), x);
  }

  /** The greatest common divisor, by Euclid's algorithm; 0 when both are 0. */
  function Gcd(a: nat, b: nat): nat
    decreases b
  {
    if b == 0 then a else Gcd(b, a % b)
  }

  lemma {:induction false} GcdDivisors(a: nat, b: nat, d: int)
    requires d >= 1
    ensures Gcd(a, b) % d == 0 <==> a % d == 0 && b % d == 0
    decreases b
  {
    DivModUnique(0, d, 0, 0);
    if b > 0 {
      GcdDivisors(b, a % b, d);
      if b % d == 0 {
        RemainderDivisors(a, b, d);
      }
    }
  }

  lemma RemainderDivisors(a: nat, b: nat, d: int)
    requires b > 0 && d >= 1 && b % d == 0
    ensures a % b % d == 0 <==> a % d == 0
  {
    var y := b * (a / b);
    DivModUnique(0, d, 0, 0);
    CongMul(b, 0, a / b, a / b, d);
    DivisorOfDifference(d, a, y);
    assert a - y == a % b;
  }

  lemma {:induction false} GcdBelow(a: nat, b: nat, bound: int)
    requires a < bound && b < bound
    ensures Gcd(a, b) < bound
    decreases b
  {
    if b > 0 {
      GcdBelow(b, a % b, bound);
    }
  }

  /** The greatest common divisor of the first n scalars. */
  ghost function GcdOf(s: seq<int>, n: nat): nat
    requires n <= |s|
  {
    if n == 0 then 0 else Gcd(GcdOf(s, n - 1), if s[n - 1] < 0 then -s[n - 1] else s[n - 1])
  }

  lemma {:induction false} GcdOfBelow(s: seq<int>, n: nat, bound: int)
    requires n <= |s| && bound >= 1 && forall i :: 0 <= i < n ==> 0 <= s[i] < bound
    ensures GcdOf(s, n) < bound
  {
    if n > 0 {
      GcdOfBelow(s, n - 1, bound);
      GcdBelow(GcdOf(s, n - 1), s[n - 1], bound);
    }
  }

  lemma {:induction false} GcdFrame(s: seq<int>, t: seq<int>, n: nat)
    requires n <= |s| && n <= |t| && forall i :: 0 <= i < n ==> s[i] == t[i]
    ensures GcdOf(s, n) == GcdOf(t, n)
  {
    if n > 0 {
      GcdFrame(s, t, n - 1);
    }
  }

  lemma {:induction false} GcdOfDivisors(s: seq<int>, n: nat, d: int)
    requires n <= |s| && d >= 1 && forall i :: 0 <= i < n ==> s[i] >= 0
    ensures GcdOf(s, n) % d == 0 <==> CommonDivisor(d, s, n)
  {
    DivModUnique(0, d, 0, 0);
    if n > 0 {
      GcdOfDivisors(s, n - 1, d);
      GcdDivisors(GcdOf(s, n - 1), s[n - 1], d);
    }
  }

  /** As long as the first k scalars do not run dry, all of them together have a small common divisor. */
  lemma GcdSmall(s: seq<int>, n: nat, k: nat, bound: int)
    requires k <= n <= |s| && bound >= 1 && !RunsDry(s, k, bound) && forall i :: 0 <= i < n ==> s[i] >= 0
    ensures GcdOf(s, n) < bound
  {
    var d := GcdOf(s, n);
    if d >= bound {
      DivModUnique(d, d, 1, 0);
      GcdOfDivisors(s, n, d);
      DivisorPrefix(d, s, n, k);
    }
  }

  lemma DivisorPrefix(d: int, s: seq<int>, n: nat, k: nat)
    requires k <= n <= |s| && CommonDivisor(d, s, n)
    ensures CommonDivisor(d, s, k)
  {}

  /** d divides both or neither. */
  ghost predicate DivideAlike(d: int, a: int, b: int) {
    d >= 1 ==> (a % d == 0 <==> b % d == 0)
  }

  /** A number is determined by its divisors. */
  lemma SameDivisors(a: nat, b: nat)
    requires forall d {:trigger DivideAlike(d, a, b)} :: DivideAlike(d, a, b)
    ensures a == b
  {
    var d := if a == 0 || b == 0 then a + b + 1 else if a < b then b else a;
    DivModUnique(0, d, 0, 0);
    DivModUnique(d, d, 1, 0);
    if a < d {
      SmallMod(a, d);
    }
    if b < d {
      SmallMod(b, d);
    }
    assert DivideAlike(d, a, b);
  }

  /** The one scalar a reduction leaves is the greatest common divisor of those it started from. */
  lemma LastIsGcd<G(!new)>(g: Group<G>, s0: seq<int>, p0: seq<G>, s: seq<int>, p: seq<G>, n: nat, last: nat)
    requires last < n <= |s0| && n <= |p0| && n <= |s| && n <= |p| && s[last] >= 0
    requires SameSum(g, s0, p0, s, p, n) && forall v :: 0 <= v < n && v != last ==> s[v] == 0
    requires forall i :: 0 <= i < n ==> s0[i] >= 0
    ensures s[last] == GcdOf(s0, n)
  {
    var a, b := s[last], GcdOf(s0, n);
    forall d ensures DivideAlike(d, a, b) {
      if d >= 1 {
        SingleDivisors(s, n, last, d);
        GcdOfDivisors(s0, n, d);
      }
    }
    SameDivisors(a, b);
  }
}
