/** Batch verification: ed25519_sign_open_batch. */
module BatchVerify {
  import opened Arithmetic
  import opened Limbs
  import opened AbelianGroup
  import opened Residues
  import opened Edwards
  import opened PointOps
  import opened ScalarMult
  import opened ScalarModm
  import opened ScalarBatch
  import opened Scalars
  import opened Signature
  import opened MultiScalar
  import opened FinalLadder
  import opened BatchHeap
  import opened BatchEquation
  import opened Wrappers
  import Bytes = ScalarEncoding
  import Sha512

  /** A message with its key and signature, and the 16 random bytes drawn for it. */
  datatype Item = Item(m: seq<int>, pk: seq<int>, rs: seq<int>, random: seq<int>)

  predicate WellFormed(it: Item) {
    && |it.pk| == 32 && |it.rs| == 64 && |it.random| == 16
    && Digits(256, it.pk) && Digits(256, it.rs) && Digits(256, it.random)
  }

  predicate AllWellFormed(items: seq<Item>) {
    forall i :: 0 <= i < |items| ==> WellFormed(items[i])
  }

  ghost function Factor(it: Item): int {
    Bytes.LittleEndian(it.random)
  }

  ghost function ResponseOf(it: Item): int {
    if |it.rs| == 64 then Bytes.LittleEndian(it.rs[32..]) % M else 0
  }

  ghost function ChallengeOf(it: Item): int {
    if |it.rs| == 64 then Challenge(it.rs[..32], it.pk, it.m) else 0
  }

  lemma FactorBound(it: Item, n: nat)
    requires WellFormed(it) && n == 16
    ensures 0 <= Factor(it) < TWO128
  {
    hide Value, Pow;
    SixteenBytes(n);
    ValueBound(256, it.random);
  }

  /** Slot j of the batch holds the value v, reduced. */
  ghost predicate Slot<G(!new)>(b: Batch<G>, j: nat, v: int)
    reads b.scalars
  {
    j < b.scalars.Length && Reduced(b.l, b.scalars[j]) && Val(b.l, b.scalars[j]) == v
  }

  ghost predicate RandomSlots<G(!new)>(b: Batch<G>, items: seq<Item>, k: nat)
    reads b.scalars
  {
    forall i :: 0 <= i < k && i < |items| ==> Slot(b, |items| + 1 + i, Factor(items[i]))
  }

  /** The random factors go into the slots past the keys'. */
  method LoadRandom<G(!new)>(b: Batch<G>, items: seq<Item>)
    requires b.Valid() && Known(b.l) && AllWellFormed(items) && |items| <= MAX_BATCH_SIZE
    modifies b.scalars
    ensures b.Valid() && RandomSlots(b, items, |items|)
  {
    var n := |items|;
    hide Known, Reduced, Factor, Bytes.LittleEndian, BatchLayout, Abelian;
    for i := 0 to n
      invariant b.Valid() && RandomSlots(b, items, i)
    {
      FactorBound(items[i], 16);
      var r := FromBytes(b.l, items[i].random);
      FactorSmall(items[i]);
      StoreReduced(b, n + 1 + i, r);
    }
  }

  lemma FactorSmall(it: Item)
    requires 0 <= Factor(it) < TWO128
    ensures Bytes.LittleEndian(it.random) % M == Factor(it)
  {
    SmallMod(Factor(it), M);
  }

  method StoreReduced<G(!new)>(b: Batch<G>, j: nat, s: seq<int>)
    requires b.Valid() && j < HEAP_BATCH_SIZE && Reduced(b.l, s)
    modifies b.scalars
    ensures b.Valid() && b.scalars[..] == old(b.scalars[..])[j := s] && Slot(b, j, Val(b.l, s))
    ensures forall i :: 0 <= i < HEAP_BATCH_SIZE && i != j ==> b.scalars[i] == old(b.scalars[i])
  {
    b.SetScalar(j, s);
    assert b.scalars[j] == b.scalars[..][j];
    forall i | 0 <= i < HEAP_BATCH_SIZE && i != j ensures b.scalars[i] == old(b.scalars[i]) {
      assert b.scalars[..][i] == old(b.scalars[..])[i];
    }
  }

  ghost predicate ResponseSlots<G(!new)>(b: Batch<G>, items: seq<Item>, first: nat, k: nat)
    reads b.scalars
  {
    forall i :: first <= i < k && i < |items| ==> Slot(b, i, ResponseOf(items[i]) * Factor(items[i]) % M)
  }

  ghost predicate ChallengeSlots<G(!new)>(b: Batch<G>, items: seq<Item>, k: nat)
    reads b.scalars
  {
    forall i :: 0 <= i < k && i < |items| ==> Slot(b, i + 1, ChallengeOf(items[i]) * Factor(items[i]) % M)
  }

  /** x times the random factor of item i, which is read from its slot. */
  method TimesFactor<G(!new)>(b: Batch<G>, items: seq<Item>, i: nat, x: seq<int>) returns (s: seq<int>)
    requires RandomSlots(b, items, |items|) && i < |items| && Reduced(b.l, x)
    ensures Reduced(b.l, s) && Val(b.l, s) == Val(b.l, x) * Factor(items[i]) % M
  {
    hide Reduced, Factor;
    assert Slot(b, |items| + 1 + i, Factor(items[i]));
    s := Times(b.l, x, b.scalars[|items| + 1 + i]);
  }

  /** Slots 0 to n - 1 take s_i r_i. */
  method LoadResponses<G(!new)>(b: Batch<G>, items: seq<Item>)
    requires b.Valid() && Known(b.l) && AllWellFormed(items) && |items| <= MAX_BATCH_SIZE && RandomSlots(b, items, |items|)
    modifies b.scalars
    ensures b.Valid() && RandomSlots(b, items, |items|) && ResponseSlots(b, items, 0, |items|)
  {
    hide Known, Reduced, Factor, Bytes.LittleEndian, BatchLayout, Abelian;
    for i := 0 to |items|
      invariant b.Valid() && RandomSlots(b, items, |items|) && ResponseSlots(b, items, 0, i)
    {
      var s := FromBytes(b.l, items[i].rs[32..]);
      s := TimesFactor(b, items, i, s);
      StoreReduced(b, i, s);
    }
  }

  /** The r_i s_i of the first k items. */
  ghost function ResponseSum(items: seq<Item>, k: nat): int
    requires k <= |items|
  {
    if k == 0 then 0 else ResponseSum(items, k - 1) + ResponseOf(items[k - 1]) * Factor(items[k - 1])
  }

  /** Slot 0 takes the sum of the responses. */
  method SumResponses<G(!new)>(b: Batch<G>, items: seq<Item>)
    requires b.Valid() && AllWellFormed(items) && 1 <= |items| <= MAX_BATCH_SIZE
    requires RandomSlots(b, items, |items|) && ResponseSlots(b, items, 0, |items|)
    modifies b.scalars
    ensures b.Valid() && RandomSlots(b, items, |items|) && Slot(b, 0, ResponseSum(items, |items|) % M)
  {
    FirstResponse(b, items);
    hide *;
    for i := 1 to |items|
      invariant b.Valid() && RandomSlots(b, items, |items|) && ResponseSlots(b, items, 1, |items|)
      invariant Slot(b, 0, ResponseSum(items, i) % M)
    {
      AddResponse(b, items, i);
    }
  }

  lemma FirstResponse<G(!new)>(b: Batch<G>, items: seq<Item>)
    requires items != [] && ResponseSlots(b, items, 0, |items|)
    ensures Slot(b, 0, ResponseSum(items, 1) % M) && ResponseSlots(b, items, 1, |items|)
  {
    hide Slot, ResponseOf, Factor;
    assert ResponseSum(items, 1) == ResponseOf(items[0]) * Factor(items[0]);
  }

  method AddResponse<G(!new)>(b: Batch<G>, items: seq<Item>, i: nat)
    requires b.Valid() && |items| <= MAX_BATCH_SIZE && 1 <= i < |items|
    requires RandomSlots(b, items, |items|) && ResponseSlots(b, items, 1, |items|) && Slot(b, 0, ResponseSum(items, i) % M)
    modifies b.scalars
    ensures b.Valid() && RandomSlots(b, items, |items|) && ResponseSlots(b, items, 1, |items|)
    ensures Slot(b, 0, ResponseSum(items, i + 1) % M)
  {
    hide Reduced, Factor, Bytes.LittleEndian, BatchLayout, Abelian, ResponseOf;
    ghost var x := ResponseOf(items[i]) * Factor(items[i]);
    assert Slot(b, i, x % M);
    SumMod(ResponseSum(items, i), x);
    var s := Plus(b.l, b.scalars[0], b.scalars[i]);
    StoreReduced(b, 0, s);
  }

  lemma SumMod(x: int, y: int)
    ensures (x % M + y % M) % M == (x + y) % M
  {
    ModAdd(x, y % M);
    ModAdd(y, x);
  }

  /** Slots 1 to n take h_i r_i. */
  method LoadChallenges<G(!new)>(b: Batch<G>, items: seq<Item>)
    requires b.Valid() && Known(b.l) && AllWellFormed(items) && |items| <= MAX_BATCH_SIZE
    requires RandomSlots(b, items, |items|) && Slot(b, 0, ResponseSum(items, |items|) % M)
    modifies b.scalars
    ensures b.Valid() && RandomSlots(b, items, |items|) && Slot(b, 0, ResponseSum(items, |items|) % M)
    ensures ChallengeSlots(b, items, |items|)
  {
    hide Known, Reduced, Factor, Bytes.LittleEndian, BatchLayout, Abelian, ResponseSum, Challenge, Sha512.Sha512Of;
    for i := 0 to |items|
      invariant b.Valid() && RandomSlots(b, items, |items|) && Slot(b, 0, ResponseSum(items, |items|) % M)
      invariant ChallengeSlots(b, items, i)
    {
      var h := Hram(b.l, items[i].rs[..32], items[i].pk, items[i].m);
      h := TimesFactor(b, items, i, h);
      StoreReduced(b, i + 1, h);
    }
  }

  /** The negated key and the negated nonce point of an item, if they decode. */
  function KeyOf<G(!new)>(c: Curve<G>, it: Item): Option<G> {
    if |it.pk| == 32 then DecodeNegative(c, it.pk) else None
  }

  function NonceOf<G(!new)>(c: Curve<G>, it: Item): Option<G> {
    if |it.rs| == 64 then DecodeNegative(c, it.rs[..32]) else None
  }

  ghost predicate Decodes<G(!new)>(c: Curve<G>, it: Item) {
    KeyOf(c, it).Some? && NonceOf(c, it).Some?
  }

  ghost predicate AllDecode<G(!new)>(c: Curve<G>, items: seq<Item>) {
    forall i :: 0 <= i < |items| ==> Decodes(c, items[i])
  }

  ghost function PerItem(items: seq<Item>, f: Item -> int): (r: seq<int>)
    ensures |r| == |items| && forall i :: 0 <= i < |r| ==> r[i] == f(items[i])
  {
    seq(|items|, i requires 0 <= i < |items| => f(items[i]))
  }

  ghost function Factors(items: seq<Item>): seq<int> {
    PerItem(items, it => Factor(it))
  }

  ghost function Responses(items: seq<Item>): seq<int> {
    PerItem(items, it => ResponseOf(it))
  }

  ghost function Challenges(items: seq<Item>): seq<int> {
    PerItem(items, it => ChallengeOf(it))
  }

  lemma Lengths(items: seq<Item>)
    ensures |Factors(items)| == |Responses(items)| == |Challenges(items)| == |items|
  {
    hide Factor, ResponseOf, ChallengeOf;
  }

  lemma NumbersAt(items: seq<Item>, i: nat)
    requires i < |items|
    ensures |Factors(items)| == |Responses(items)| == |Challenges(items)| == |items|
    ensures Factors(items)[i] == Factor(items[i]) && Responses(items)[i] == ResponseOf(items[i])
    ensures Challenges(items)[i] == ChallengeOf(items[i])
  {
    hide Factor, ResponseOf, ChallengeOf;
  }

  ghost function Keys<G(!new)>(c: Curve<G>, items: seq<Item>): (r: seq<G>)
    requires AllDecode(c, items)
    ensures |r| == |items| && forall i :: 0 <= i < |r| ==> KeyOf(c, items[i]) == Some(r[i])
  {
    seq(|items|, i requires 0 <= i < |items| => assert Decodes(c, items[i]); KeyOf(c, items[i]).value)
  }

  ghost function Nonces<G(!new)>(c: Curve<G>, items: seq<Item>): (r: seq<G>)
    requires AllDecode(c, items)
    ensures |r| == |items| && forall i :: 0 <= i < |r| ==> NonceOf(c, items[i]) == Some(r[i])
  {
    seq(|items|, i requires 0 <= i < |items| => assert Decodes(c, items[i]); NonceOf(c, items[i]).value)
  }

  /** The equations of a block of items. */
  ghost function BlockOf<G(!new)>(c: Curve<G>, base: G, items: seq<Item>): (k: Block<G>)
    requires AllDecode(c, items)
    ensures Sized(k, |items|)
  {
    Lengths(items);
    Block(Factors(items), Responses(items), Challenges(items), Keys(c, items), Nonces(c, items), base)
  }

  ghost predicate KeysAt<G(!new)>(c: Curve<G>, p: seq<G>, items: seq<Item>, k: nat) {
    forall i :: 0 <= i < k && i < |items| ==> i + 1 < |p| && KeyOf(c, items[i]) == Some(p[i + 1])
  }

  ghost predicate NoncesAt<G(!new)>(c: Curve<G>, p: seq<G>, items: seq<Item>, k: nat) {
    forall i :: 0 <= i < k && i < |items| ==> |items| + 1 + i < |p| && NonceOf(c, items[i]) == Some(p[|items| + 1 + i])
  }

  /** The base point, the negated keys and the negated nonces; stops at the first that does not decode. */
  method LoadPoints<G(!new)>(b: Batch<G>, items: seq<Item>, basePoint: Point, ghost c: Curve<G>, ghost base: G) returns (ok: bool)
    requires |items| <= MAX_BATCH_SIZE && b.points.Length == HEAP_BATCH_SIZE && b.HoldsElems() && b.c == c
    requires AllWellFormed(items) && Ed25519(c) && EveryPoint(c) && IsPoint(c, basePoint, base)
    modifies b.points, b`elems
    ensures b.HoldsElems() && (ok <==> AllDecode(c, items))
    ensures ok ==> PointsLoaded(b, items, c, base)
  {
    hide KeyOf, NonceOf, IsPoint, Ed25519, EveryPoint, WellFormed;
    var n := |items|;
    b.SetPoint(0, basePoint, base);
    for i := 0 to n
      invariant b.HoldsElems() && b.elems[0] == base && KeysAt(c, b.elems, items, i)
    {
      var a := DecodeKey(items[i], c);
      if a.None? {
        assert !Decodes(c, items[i]);
        return false;
      }
      b.SetPoint(i + 1, a.value, KeyOf(c, items[i]).value);
    }
    for i := 0 to n
      invariant b.HoldsElems() && b.elems[0] == base && KeysAt(c, b.elems, items, n) && NoncesAt(c, b.elems, items, i)
    {
      var r := DecodeNonce(items[i], c);
      if r.None? {
        assert !Decodes(c, items[i]);
        return false;
      }
      b.SetPoint(n + 1 + i, r.value, NonceOf(c, items[i]).value);
    }
    ok := true;
  }

  method DecodeKey<G(!new)>(it: Item, ghost c: Curve<G>) returns (r: Option<Point>)
    requires WellFormed(it) && Ed25519(c) && EveryPoint(c)
    ensures r.Some? == KeyOf(c, it).Some? && (r.Some? ==> IsPoint(c, r.value, KeyOf(c, it).value))
  {
    hide DecodeNegative, Ed25519, EveryPoint, IsPoint;
    r := Decode(it.pk, c);
  }

  method DecodeNonce<G(!new)>(it: Item, ghost c: Curve<G>) returns (r: Option<Point>)
    requires WellFormed(it) && Ed25519(c) && EveryPoint(c)
    ensures r.Some? == NonceOf(c, it).Some? && (r.Some? ==> IsPoint(c, r.value, NonceOf(c, it).value))
  {
    hide DecodeNegative, Ed25519, EveryPoint, IsPoint;
    r := Decode(it.rs[..32], c);
  }

  ghost predicate PointsLoaded<G(!new)>(b: Batch<G>, items: seq<Item>, c: Curve<G>, base: G)
    reads b
  {
    b.elems != [] && b.elems[0] == base && KeysAt(c, b.elems, items, |items|) && NoncesAt(c, b.elems, items, |items|)
  }

  lemma {:induction false} DotIsSum(items: seq<Item>, k: nat)
    requires k <= |items| == |Factors(items)| == |Responses(items)|
    ensures Dot(Factors(items), Responses(items), k) == ResponseSum(items, k)
  {
    hide Factor, ResponseOf, Factors, Responses;
    if k > 0 {
      DotIsSum(items, k - 1);
      NumbersAt(items, k - 1);
    }
  }

  lemma LoadedAt<G(!new)>(b: Batch<G>, items: seq<Item>, c: Curve<G>, base: G)
    requires PointsLoaded(b, items, c, base)
    ensures b.elems != [] && b.elems[0] == base && KeysAt(c, b.elems, items, |items|) && NoncesAt(c, b.elems, items, |items|)
  {}

  lemma ArraySizes<G(!new)>(b: Batch<G>, n: nat)
    requires b.Valid() && n <= MAX_BATCH_SIZE
    ensures b.scalars.Length == b.points.Length == HEAP_BATCH_SIZE && 2 * n + 1 <= HEAP_BATCH_SIZE
    ensures b.scalars as object != b.points && b.heap as object != b.points && Ed25519(b.c)
  {}

  lemma SlotValues<G(!new)>(b: Batch<G>, items: seq<Item>)
    requires b.scalars.Length == HEAP_BATCH_SIZE && |items| <= MAX_BATCH_SIZE
    requires RandomSlots(b, items, |items|) && ChallengeSlots(b, items, |items|) && Slot(b, 0, ResponseSum(items, |items|) % M)
    ensures |b.Scalars()| == HEAP_BATCH_SIZE && b.Scalars()[0] == ResponseSum(items, |items|) % M
    ensures forall i :: 0 <= i < |items| ==> b.Scalars()[i + 1] == ChallengeOf(items[i]) * Factor(items[i]) % M
    ensures forall i :: 0 <= i < |items| ==> b.Scalars()[|items| + 1 + i] == Factor(items[i])
  {
    hide Reduced, Factor, ResponseOf, ChallengeOf, ResponseSum;
    forall i | 0 <= i < |items|
      ensures b.Scalars()[i + 1] == ChallengeOf(items[i]) * Factor(items[i]) % M
      ensures b.Scalars()[|items| + 1 + i] == Factor(items[i])
    {
      assert Slot(b, i + 1, ChallengeOf(items[i]) * Factor(items[i]) % M);
      assert Slot(b, |items| + 1 + i, Factor(items[i]));
    }
  }

  lemma EncodesFrom<G(!new)>(c: Curve<G>, base: G, items: seq<Item>, s: seq<int>, p: seq<G>, n: nat)
    requires AllDecode(c, items) && n == |items| == |Factors(items)| == |Responses(items)| && |s| == |p| && 2 * n + 1 <= |s|
    requires p[0] == base && s[0] == Dot(Factors(items), Responses(items), n) % M
    requires forall i :: 0 <= i < n ==> s[i + 1] == ChallengeOf(items[i]) * Factor(items[i]) % M
    requires forall i :: 0 <= i < n ==> s[n + 1 + i] == Factor(items[i])
    requires KeysAt(c, p, items, n) && NoncesAt(c, p, items, n)
    ensures Encodes(BlockOf(c, base, items), s, p, n)
  {
    hide Factor, ResponseOf, ChallengeOf, KeyOf, NonceOf, Factors, Responses, Challenges, Keys, Nonces, Dot, AllDecode;
    var k := BlockOf(c, base, items);
    forall i | 0 <= i < n ensures p[i + 1] == k.a[i] && s[i + 1] == k.h[i] * k.r[i] % M {
      NumbersAt(items, i);
      assert KeyOf(c, items[i]) == Some(k.a[i]);
    }
    forall i | 0 <= i < n ensures p[n + 1 + i] == k.b[i] && s[n + 1 + i] == k.r[i] {
      NumbersAt(items, i);
      assert NonceOf(c, items[i]) == Some(k.b[i]);
    }
  }

  ghost function KeyScalar(it: Item): int {
    ChallengeOf(it) * Factor(it) % M
  }

  ghost function KeyScalars(items: seq<Item>): seq<int> {
    PerItem(items, it => KeyScalar(it))
  }

  lemma KeyScalarsAt(items: seq<Item>)
    ensures |KeyScalars(items)| == |items| && forall i :: 0 <= i < |items| ==> KeyScalars(items)[i] == KeyScalar(items[i])
    ensures |Factors(items)| == |items| && forall i :: 0 <= i < |items| ==> Factors(items)[i] == Factor(items[i])
  {
    hide KeyScalar, Factor;
  }

  /** The scalars of a block as the batch lays them out. */
  ghost function LayoutScalars(items: seq<Item>): (s: seq<int>)
    ensures |s| == 2 * |items| + 1
  {
    KeyScalarsAt(items);
    [ResponseSum(items, |items|) % M] + KeyScalars(items) + Factors(items)
  }

  /** The scalars on which the multi-scalar multiplication stops before its second half. */
  ghost predicate DriesUp(items: seq<Item>) {
    FirstHeap(2 * |items| + 1) <= |LayoutScalars(items)| && RunsDry(LayoutScalars(items), FirstHeap(2 * |items| + 1), TWO128)
  }

  lemma LaidOut<G(!new)>(b: Batch<G>, items: seq<Item>)
    requires b.scalars.Length == HEAP_BATCH_SIZE && |items| <= MAX_BATCH_SIZE
    requires RandomSlots(b, items, |items|) && ChallengeSlots(b, items, |items|) && Slot(b, 0, ResponseSum(items, |items|) % M)
    ensures |b.Scalars()| == HEAP_BATCH_SIZE && b.Scalars()[..2 * |items| + 1] == LayoutScalars(items)
  {
    hide Factor, ChallengeOf, ResponseSum, RandomSlots, ChallengeSlots, Slot, KeyScalars, Factors;
    SlotValues(b, items);
    KeyScalarsAt(items);
    Joined(b.Scalars(), ResponseSum(items, |items|) % M, KeyScalars(items), Factors(items), |items|);
  }

  lemma Joined<T>(s: seq<T>, x: T, h: seq<T>, r: seq<T>, n: nat)
    requires |h| == |r| == n && 2 * n + 1 <= |s| && s[0] == x
    requires forall i :: 0 <= i < n ==> s[i + 1] == h[i]
    requires forall i :: 0 <= i < n ==> s[n + 1 + i] == r[i]
    ensures s[..2 * n + 1] == [x] + h + r
  {
    var t := [x] + h + r;
    forall j | 0 <= j < 2 * n + 1 ensures s[j] == t[j] {
      if 1 <= j <= n {
        assert s[(j - 1) + 1] == h[j - 1];
      } else if j > n {
        assert s[n + 1 + (j - n - 1)] == r[j - n - 1];
      }
    }
  }

  lemma JoinedAt<T>(t: seq<T>, x: T, h: seq<T>, r: seq<T>, n: nat)
    requires |h| == |r| == n && t == [x] + h + r
    ensures |t| == 2 * n + 1 && t[0] == x
    ensures forall i :: 0 <= i < n ==> t[i + 1] == h[i]
    ensures forall i :: 0 <= i < n ==> t[n + 1 + i] == r[i]
  {}

  lemma DryFrame(s: seq<int>, t: seq<int>, k: nat, bound: int)
    requires k <= |s| && k <= |t| && s[..k] == t[..k]
    ensures RunsDry(s, k, bound) <==> RunsDry(t, k, bound)
  {
    assert forall i :: 0 <= i < k ==> s[i] == s[..k][i] && t[i] == t[..k][i];
    assert forall d :: CommonDivisor(d, s, k) <==> CommonDivisor(d, t, k);
  }

  /** Both layouts split 2^128 where the code says, and the order exceeds 2^129. */
  lemma Bounds128(l: Layout, n: nat)
    requires Known(l) && n == 128
    ensures BatchLayout(l) && Bound128(l) == Pow2(n) == TWO128 && Pow2(n + 1) < M && n <= l.bits * (LadderLimb(l) + 1)
  {
    hide Pow, Pow2;
    Pow2Of128(n);
    assert l.bits * Limb128(l) + Bit128(l) == n;
  }

  lemma Pow2Of128(n: nat)
    requires n == 128
    ensures Pow2(n) == TWO128 && Pow2(n + 1) == 2 * TWO128
  {
    assert Pow2(8) == 256;
    PowOfPow2(8, 16);
    SixteenBytes(16);
    assert 8 * 16 == n;
    assert Pow2(n + 1) == 2 * Pow2(n);
  }

  /** What a batch keeps between its steps. */
  ghost predicate Loaded<G(!new)>(b: Batch<G>, items: seq<Item>)
    reads b.scalars
  {
    RandomSlots(b, items, |items|) && ChallengeSlots(b, items, |items|) && Slot(b, 0, ResponseSum(items, |items|) % M)
  }

  method LoadScalars<G(!new)>(b: Batch<G>, items: seq<Item>)
    requires b.Valid() && Known(b.l) && AllWellFormed(items) && 1 <= |items| <= MAX_BATCH_SIZE
    modifies b.scalars
    ensures b.Valid() && Loaded(b, items)
  {
    hide Known, AllWellFormed, RandomSlots, ResponseSlots, ChallengeSlots, Slot, ResponseSum, BatchLayout, Abelian;
    LoadRandom(b, items);
    LoadResponses(b, items);
    SumResponses(b, items);
    LoadChallenges(b, items);
  }

  /** The late scalars are random factors, below 2^128. */
  lemma LateScalars<G(!new)>(b: Batch<G>, items: seq<Item>, v: nat)
    requires b.scalars.Length == HEAP_BATCH_SIZE && Loaded(b, items) && AllWellFormed(items) && 4 <= |items| <= MAX_BATCH_SIZE
    requires FirstHeap(2 * |items| + 1) <= v < 2 * |items| + 1 && Known(b.l)
    ensures b.Scalars()[v] < Bound128(b.l)
  {
    hide Factor, RandomSlots, ChallengeSlots, Slot, ResponseSum, ChallengeOf, Bound128, Known;
    var i := v - |items| - 1;
    SlotValues(b, items);
    assert b.Scalars()[|items| + 1 + i] == Factor(items[i]);
    FactorBound(items[i], 16);
    Bounds128(b.l, 128);
  }

  /** How a block ends: all equations combined are neutral, or a point did not decode, or they are not neutral. */
  datatype Outcome = Passed | Undecodable | NotNeutral

  /** The points of a block as the batch lays them out. */
  ghost function LayoutPoints<G(!new)>(c: Curve<G>, base: G, items: seq<Item>): (p: seq<G>)
    requires AllDecode(c, items)
    ensures |p| == 2 * |items| + 1
  {
    [base] + Keys(c, items) + Nonces(c, items)
  }

  /** How many scalars and points take part: the first heap only when its scalars run dry. */
  ghost function Used(items: seq<Item>): (k: nat)
    ensures k <= 2 * |items| + 1
  {
    if DriesUp(items) then FirstHeap(2 * |items| + 1) else 2 * |items| + 1
  }

  /** The one scalar the reduction leaves. */
  ghost function LeftOver(items: seq<Item>): nat {
    GcdOf(LayoutScalars(items), Used(items))
  }

  ghost function UsedSum<G(!new)>(c: Curve<G>, base: G, items: seq<Item>): G
    requires AllDecode(c, items)
  {
    Combine(c.group, LayoutScalars(items), LayoutPoints(c, base, items), Used(items))
  }

  /** The reduction leaves a point q whose multiple is the sum, and the answer is what the final ladder makes of it. */
  ghost predicate Ends<G(!new)>(l: Layout, c: Curve<G>, base: G, items: seq<Item>, neutral: bool, q: G)
    requires AllDecode(c, items)
  {
    && Mul(c.group, LeftOver(items), q) == UsedSum(c, base, items)
    && (Annihilates(c.group, M, LayoutPoints(c, base, items), Used(items)) ==> Torsion(c.group, q))
    && (Scans(l, LeftOver(items)) ==> (neutral <==> FinalResult(l, c.group, q, LeftOver(items)) == Some(c.group.zero)))
  }

  /** The block's points lie in the subgroup of order m and its scalars do not run dry. */
  ghost predicate Regular<G(!new)>(c: Curve<G>, base: G, items: seq<Item>) {
    AllDecode(c, items) && !DriesUp(items) && InSubgroup(c.group, BlockOf(c, base, items))
  }

  /** The points lie in the subgroup, the scalars run dry and the ladder stays inside its array. */
  ghost predicate Dry<G(!new)>(l: Layout, c: Curve<G>, base: G, items: seq<Item>) {
    AllDecode(c, items) && DriesUp(items) && InSubgroup(c.group, BlockOf(c, base, items)) && Scans(l, LeftOver(items))
  }

  /**
   The result of a block. A regular block passes exactly when all its equations
   combine to the neutral element; a dry one exactly when the first heap's part of
   that sum is neutral, whatever the points that never joined.
   */
  ghost predicate BlockResult<G(!new)>(l: Layout, c: Curve<G>, base: G, items: seq<Item>, out: Outcome) {
    && (out.Undecodable? <==> !AllDecode(c, items))
    && (AllDecode(c, items) ==> exists q {:trigger Ends(l, c, base, items, out.Passed?, q)} :: Ends(l, c, base, items, out.Passed?, q))
    && (Regular(c, base, items) ==>
          (out.Passed? <==> Weighted(c.group, BlockOf(c, base, items), |items|) == c.group.zero))
    && (Dry(l, c, base, items) ==>
          (out.Passed? <==> FirstSum(c.group, BlockOf(c, base, items)) == c.group.zero))
  }

  lemma IsBlockResult<G(!new)>(l: Layout, c: Curve<G>, base: G, items: seq<Item>, out: Outcome)
    requires Known(l) && Abelian(c.group) && PrimeOrder(c.group) && AllWellFormed(items) && 4 <= |items|
    requires out.Undecodable? <==> !AllDecode(c, items)
    requires AllDecode(c, items) ==> exists q {:trigger Ends(l, c, base, items, out.Passed?, q)} :: Ends(l, c, base, items, out.Passed?, q)
    ensures BlockResult(l, c, base, items, out)
  {
    hide Known, Abelian, PrimeOrder, AllWellFormed, AllDecode, DriesUp, Weighted, FirstSum, BlockOf, InSubgroup, Ends, Scans, LeftOver;
    if AllDecode(c, items) {
      var q :| Ends(l, c, base, items, out.Passed?, q);
      if Regular(c, base, items) {
        SmallLeftOver(l, items);
        EndsWith(l, c, base, items, out.Passed?, q);
      } else if Dry(l, c, base, items) {
        EndsWith(l, c, base, items, out.Passed?, q);
      }
    }
  }

  /** The layout of a block encodes it. */
  lemma LayoutEncodes<G(!new)>(c: Curve<G>, base: G, items: seq<Item>)
    requires AllDecode(c, items)
    ensures Encodes(BlockOf(c, base, items), LayoutScalars(items), LayoutPoints(c, base, items), |items|)
  {
    hide *;
    var n, s, p := |items|, LayoutScalars(items), LayoutPoints(c, base, items);
    Lengths(items);
    DotIsSum(items, n);
    LayoutScalarsAt(items);
    LayoutPointsAt(c, base, items);
    EncodesFrom(c, base, items, s, p, n);
  }

  lemma LayoutScalarsAt(items: seq<Item>)
    ensures LayoutScalars(items)[0] == ResponseSum(items, |items|) % M
    ensures forall i :: 0 <= i < |items| ==> LayoutScalars(items)[i + 1] == ChallengeOf(items[i]) * Factor(items[i]) % M
    ensures forall i :: 0 <= i < |items| ==> LayoutScalars(items)[|items| + 1 + i] == Factor(items[i])
  {
    KeyScalarsAt(items);
    hide Factor, ChallengeOf, ResponseSum, KeyScalars, Factors;
    var n, s := |items|, LayoutScalars(items);
    forall i | 0 <= i < n ensures s[i + 1] == ChallengeOf(items[i]) * Factor(items[i]) % M && s[n + 1 + i] == Factor(items[i]) {
      assert s[i + 1] == KeyScalars(items)[i] && s[n + 1 + i] == Factors(items)[i];
    }
  }

  lemma LayoutPointsAt<G(!new)>(c: Curve<G>, base: G, items: seq<Item>)
    requires AllDecode(c, items)
    ensures var p := LayoutPoints(c, base, items);
            p[0] == base && KeysAt(c, p, items, |items|) && NoncesAt(c, p, items, |items|)
  {
    hide KeyOf, NonceOf, AllDecode, Keys, Nonces;
    var n, p, a, b := |items|, LayoutPoints(c, base, items), Keys(c, items), Nonces(c, items);
    JoinedAt(p, base, a, b, n);
  }

  lemma LayoutRange(items: seq<Item>)
    requires AllWellFormed(items)
    ensures forall i :: 0 <= i < 2 * |items| + 1 ==> 0 <= LayoutScalars(items)[i] < M
  {
    LayoutScalarsAt(items);
    hide ResponseSum, ChallengeOf, Factor, LayoutScalars;
    var n, s := |items|, LayoutScalars(items);
    forall i | 0 <= i < 2 * n + 1 ensures 0 <= s[i] < M {
      if 1 <= i <= n {
        assert s[(i - 1) + 1] == ChallengeOf(items[i - 1]) * Factor(items[i - 1]) % M;
      } else if i > n {
        assert s[n + 1 + (i - n - 1)] == Factor(items[i - n - 1]) && WellFormed(items[i - n - 1]);
        FactorBound(items[i - n - 1], 16);
      }
    }
  }

  /** Without running dry, what is left is below 2^128. */
  lemma SmallLeftOver(l: Layout, items: seq<Item>)
    requires Known(l) && AllWellFormed(items) && 4 <= |items| && !DriesUp(items)
    ensures LeftOver(items) < TWO128 && Scans(l, LeftOver(items))
  {
    hide LayoutScalars, Seen, RunsDry, Known, AllWellFormed, Pow2, GcdOf;
    LayoutRange(items);
    GcdSmall(LayoutScalars(items), 2 * |items| + 1, FirstHeap(2 * |items| + 1), TWO128);
    Bounds128(l, 128);
    SmallScans(l, LeftOver(items), 128);
  }

  /** Both layouts' ladders see less than half the order. */
  lemma LadderBits(l: Layout, n: nat)
    requires Known(l) && n == 240
    ensures Sane(l) && 0 <= l.bits * (LadderLimb(l) + 1) < n && Pow2(l.bits * (LadderLimb(l) + 1) + 1) < M
  {
    hide Pow2;
    Pow2Of240(n);
    Pow2Mono(l.bits * (LadderLimb(l) + 1) + 1, n);
  }

  lemma Pow2Of240(n: nat)
    requires n == 240
    ensures Pow2(n) < M
  {
    hide Pow2;
    Pow2Words();
    Pow2Of128(128);
    Pow2Add(56, 56);
    Pow2Add(112, 128);
    assert 112 + 128 == n;
  }

  /** For points in the subgroup the answer is whether the sum of the terms that take part is neutral. */
  lemma EndsWith<G(!new)>(l: Layout, c: Curve<G>, base: G, items: seq<Item>, neutral: bool, q: G)
    requires Known(l) && Abelian(c.group) && PrimeOrder(c.group) && AllWellFormed(items) && AllDecode(c, items) && 4 <= |items|
    requires InSubgroup(c.group, BlockOf(c, base, items)) && Ends(l, c, base, items, neutral, q) && Scans(l, LeftOver(items))
    ensures neutral <==> UsedSum(c, base, items) == c.group.zero
    ensures !DriesUp(items) ==> UsedSum(c, base, items) == Weighted(c.group, BlockOf(c, base, items), |items|)
    ensures DriesUp(items) ==> UsedSum(c, base, items) == FirstSum(c.group, BlockOf(c, base, items))
  {
    hide *;
    var g, k, s, p, n := c.group, BlockOf(c, base, items), LayoutScalars(items), LayoutPoints(c, base, items), |items|;
    LayoutEncodes(c, base, items);
    LayoutRange(items);
    LayoutAnnihilates(g, k, s, p, n);
    EncodedSum(g, k, s, p, n);
    FirstHeapSum(g, k, s, p, n);
    UsedTerms(c, base, items);
    LadderBits(l, 240);
    EndsFacts(l, c, base, items, neutral, q);
    FinalDecides(l, g, M, q, LeftOver(items));
  }

  lemma UsedTerms<G(!new)>(c: Curve<G>, base: G, items: seq<Item>)
    requires AllDecode(c, items)
    ensures var s, p := LayoutScalars(items), LayoutPoints(c, base, items);
            && (DriesUp(items) ==> 1 + |items| + |items| % 2 <= |s| && UsedSum(c, base, items) == Combine(c.group, s, p, 1 + |items| + |items| % 2))
            && (!DriesUp(items) ==> UsedSum(c, base, items) == Combine(c.group, s, p, 2 * |items| + 1))
  {
    hide LayoutScalars, LayoutPoints, AllDecode, RunsDry, Combine;
  }

  lemma EndsFacts<G(!new)>(l: Layout, c: Curve<G>, base: G, items: seq<Item>, neutral: bool, q: G)
    requires AllDecode(c, items) && PrimeOrder(c.group) && Ends(l, c, base, items, neutral, q) && Scans(l, LeftOver(items))
    requires Annihilates(c.group, M, LayoutPoints(c, base, items), 2 * |items| + 1)
    requires forall i :: 0 <= i < 2 * |items| + 1 ==> 0 <= LayoutScalars(items)[i] < M
    ensures HasOrder(c.group, M, q) && 0 <= LeftOver(items) < M && Mul(c.group, LeftOver(items), q) == UsedSum(c, base, items)
    ensures neutral <==> FinalResult(l, c.group, q, LeftOver(items)) == Some(c.group.zero)
  {
    hide LayoutScalars, LayoutPoints, Used, Mul, FinalResult, UsedSum, Seen;
    GcdOfBelow(LayoutScalars(items), Used(items), M);
    assert Torsion(c.group, q);
  }

  /** One block, up to the fallback. */
  method CheckBlock<G(!new)>(b: Batch<G>, items: seq<Item>, basePoint: Point, ghost c: Curve<G>, ghost base: G) returns (out: Outcome)
    requires b.Valid() && b.HoldsElems() && b.c == c && Known(b.l) && AllWellFormed(items) && 4 <= |items| <= MAX_BATCH_SIZE
    requires PrimeOrder(c.group) && EveryPoint(c) && IsPoint(c, basePoint, base)
    modifies b, b.scalars, b.points, b.heap
    ensures b.Valid() && b.HoldsElems() && BlockResult(b.l, c, base, items, out)
  {
    hide *;
    ArraySizes(b, |items|);
    LoadScalars(b, items);
    var ok := LoadPoints(b, items, basePoint, c, base);
    if !ok {
      out := Undecodable;
    } else {
      var neutral := Neutral(b, items, c, base);
      ghost var q :| Ends(b.l, c, base, items, neutral, q);
      out := if neutral then Passed else NotNeutral;
      assert Ends(b.l, c, base, items, out.Passed?, q);
    }
    GroupOf(c);
    IsBlockResult(b.l, c, base, items, out);
  }

  /** The multi-scalar multiplication of a loaded block, and the test for the neutral element. */
  method Neutral<G(!new)>(b: Batch<G>, items: seq<Item>, ghost c: Curve<G>, ghost base: G) returns (neutral: bool)
    requires b.Valid() && b.HoldsElems() && EveryPoint(c) && b.c == c && Known(b.l) && AllWellFormed(items) && 4 <= |items| <= MAX_BATCH_SIZE
    requires PrimeOrder(c.group) && Loaded(b, items) && AllDecode(c, items) && b.points.Length == HEAP_BATCH_SIZE
    requires PointsLoaded(b, items, c, base)
    modifies b, b.scalars, b.points, b.heap
    ensures b.Valid() && b.HoldsElems()
    ensures exists q {:trigger Ends(b.l, c, base, items, neutral, q)} :: Ends(b.l, c, base, items, neutral, q)
  {
    hide *;
    var count := 2 * |items| + 1;
    ghost var s0, p0 := b.Scalars(), b.elems;
    BeforeMsm(b, items, c, base);
    var r, extended, last := b.MultiScalarMult(count);
    AfterMsm(b, last);
    ghost var result := FinalResult(b.l, c.group, b.elems[last], b.Scalars()[last]);
    neutral := NeutralResult(r, c, result);
    MsmEnds(b.l, c, base, items, s0, p0, b.Scalars(), b.elems, extended, last, neutral);
  }

  method NeutralResult<G(!new)>(r: Option<Point>, ghost c: Curve<G>, ghost q: Option<G>) returns (neutral: bool)
    requires Ed25519(c) && EveryPoint(c) && Represents(c, r, q)
    ensures neutral <==> q == Some(c.group.zero)
  {
    hide Ed25519, EveryPoint, IsPoint, IsPartial;
    neutral := false;
    if r.Some? {
      PointIsPartial(c, r.value, q.value);
      neutral := IsNeutral(r.value, c, q.value);
    }
  }

  /** The facts the multiplication needs, and what its arrays stand for. */
  lemma BeforeMsm<G(!new)>(b: Batch<G>, items: seq<Item>, c: Curve<G>, base: G)
    requires b.Valid() && b.HoldsElems() && b.c == c && Known(b.l) && AllWellFormed(items) && 4 <= |items| <= MAX_BATCH_SIZE
    requires Loaded(b, items) && AllDecode(c, items) && b.points.Length == HEAP_BATCH_SIZE
    requires PointsLoaded(b, items, c, base)
    ensures 5 <= 2 * |items| + 1 <= HEAP_BATCH_SIZE && (2 * |items| + 1) % 2 == 1 && Ed25519(c) && Abelian(c.group)
    ensures |b.Scalars()| == |b.elems| == HEAP_BATCH_SIZE
    ensures forall v :: FirstHeap(2 * |items| + 1) <= v < 2 * |items| + 1 ==> b.Scalars()[v] < Bound128(b.l)
    ensures b.Scalars()[..2 * |items| + 1] == LayoutScalars(items) && b.elems[..2 * |items| + 1] == LayoutPoints(c, base, items)
  {
    hide *;
    ArraySizes(b, |items|);
    ElemCount(b);
    GroupOf(c);
    LoadedFacts(b, items);
    LoadedAt(b, items, c, base);
    PointsLaidOut(c, base, b.elems, items);
    LaidOut(b, items);
    forall v | FirstHeap(2 * |items| + 1) <= v < 2 * |items| + 1 ensures b.Scalars()[v] < Bound128(b.l) {
      LateScalars(b, items, v);
    }
  }

  lemma PointsLaidOut<G(!new)>(c: Curve<G>, base: G, p: seq<G>, items: seq<Item>)
    requires AllDecode(c, items) && 2 * |items| + 1 <= |p| && p[0] == base
    requires KeysAt(c, p, items, |items|) && NoncesAt(c, p, items, |items|)
    ensures p[..2 * |items| + 1] == LayoutPoints(c, base, items)
  {
    hide KeyOf, NonceOf, AllDecode;
    Joined(p, base, Keys(c, items), Nonces(c, items), |items|);
  }

  lemma ElemCount<G(!new)>(b: Batch<G>)
    requires b.HoldsElems()
    ensures |b.elems| == b.points.Length
  {}

  lemma LoadedFacts<G(!new)>(b: Batch<G>, items: seq<Item>)
    requires Loaded(b, items)
    ensures RandomSlots(b, items, |items|) && ChallengeSlots(b, items, |items|) && Slot(b, 0, ResponseSum(items, |items|) % M)
  {
    hide RandomSlots, ChallengeSlots, Slot, ResponseSum;
  }

  lemma AfterMsm<G(!new)>(b: Batch<G>, last: nat)
    requires b.Valid() && last < b.size
    ensures b.scalars.Length == b.points.Length == HEAP_BATCH_SIZE && b.size <= HEAP_BATCH_SIZE
    ensures |b.Scalars()| == HEAP_BATCH_SIZE && b.Scalars()[last] >= 0
  {
    b.AllNonnegative();
  }

  lemma DryMeans(items: seq<Item>, s: seq<int>)
    requires 2 * |items| + 1 <= |s| && FirstHeap(2 * |items| + 1) <= 2 * |items| + 1 && s[..2 * |items| + 1] == LayoutScalars(items)
    ensures DriesUp(items) <==> RunsDry(s, FirstHeap(2 * |items| + 1), TWO128)
  {
    hide LayoutScalars, RunsDry, FirstHeap;
    var k := FirstHeap(2 * |items| + 1);
    assert s[..k] == LayoutScalars(items)[..k];
    DryFrame(s, LayoutScalars(items), k, TWO128);
  }

  /** What the multiplication has done to a loaded block. */
  lemma MsmEnds<G(!new)>(l: Layout, c: Curve<G>, base: G, items: seq<Item>, s0: seq<int>, p0: seq<G>, s: seq<int>, p: seq<G>,
                         extended: bool, last: nat, neutral: bool)
    requires Known(l) && Abelian(c.group) && AllWellFormed(items) && AllDecode(c, items)
    requires |s0| == |p0| == |s| == |p| && 2 * |items| + 1 <= |s0| && FirstHeap(2 * |items| + 1) <= 2 * |items| + 1
    requires s0[..2 * |items| + 1] == LayoutScalars(items) && p0[..2 * |items| + 1] == LayoutPoints(c, base, items)
    requires extended <==> !RunsDry(s0, FirstHeap(2 * |items| + 1), Bound128(l))
    requires var size := if extended then 2 * |items| + 1 else FirstHeap(2 * |items| + 1);
             && last < size && SameSum(c.group, s0, p0, s, p, size)
             && forall v :: 0 <= v < size && v != last ==> s[v] == 0
    requires s[last] >= 0 && (neutral <==> FinalResult(l, c.group, p[last], s[last]) == Some(c.group.zero))
    ensures Ends(l, c, base, items, neutral, p[last])
  {
    hide *;
    var k, g, q := Used(items), c.group, p[last];
    Bounds128(l, 128);
    DryMeans(items, s0);
    UsedIs(items);
    LayoutRange(items);
    var ls, lp := LayoutScalars(items), LayoutPoints(c, base, items);
    Prefixes(s0, ls, p0, lp, k);
    CombineFrame(g, s0, p0, ls, lp, k);
    GcdFrame(s0, ls, k);
    LastIsGcd(g, s0, p0, s, p, k, last);
    CombineSingle(g, s, p, k, last);
    SumKept(g, s0, p0, s, p, k, last);
    AnnihilatesFrame(g, M, p0, lp, k);
    IsEnds(l, c, base, items, neutral, q);
  }

  lemma UsedIs(items: seq<Item>)
    ensures Used(items) == if DriesUp(items) then FirstHeap(2 * |items| + 1) else 2 * |items| + 1
  {}

  lemma Prefixes<G>(s: seq<int>, ls: seq<int>, p: seq<G>, lp: seq<G>, k: nat)
    requires |ls| == |lp| <= |s| == |p| && k <= |ls| && s[..|ls|] == ls && p[..|lp|] == lp
    ensures s[..k] == ls[..k] && p[..k] == lp[..k]
    ensures forall i :: 0 <= i < k ==> s[i] == ls[i]
    ensures forall i :: 0 <= i < k ==> p[i] == lp[i]
  {
    assert s[..k] == s[..|ls|][..k] && p[..k] == p[..|lp|][..k];
    assert forall i :: 0 <= i < k ==> s[i] == s[..k][i] && ls[i] == ls[..k][i];
    assert forall i :: 0 <= i < k ==> p[i] == p[..k][i] && lp[i] == lp[..k][i];
  }

  lemma SumKept<G(!new)>(g: Group<G>, s0: seq<int>, p0: seq<G>, s: seq<int>, p: seq<G>, k: nat, last: nat)
    requires last < k <= |s0| && k <= |p0| && k <= |s| && k <= |p| && SameSum(g, s0, p0, s, p, k)
    ensures Combine(g, s, p, k) == Combine(g, s0, p0, k)
    ensures Annihilates(g, M, p0, k) ==> Torsion(g, p[last])
  {
    hide Combine, Mul;
    assert Annihilates(g, M, p0, k) ==> Annihilates(g, M, p, k);
  }

  lemma AnnihilatesFrame<G(!new)>(g: Group<G>, m: int, p: seq<G>, p': seq<G>, k: nat)
    requires k <= |p| && k <= |p'| && forall i :: 0 <= i < k ==> p[i] == p'[i]
    ensures Annihilates(g, m, p', k) ==> Annihilates(g, m, p, k)
  {
    hide Mul;
    if Annihilates(g, m, p', k) {
      forall i | 0 <= i < k ensures Mul(g, m, p[i]) == g.zero {
        assert p[i] == p'[i] && Mul(g, m, p'[i]) == g.zero;
      }
    }
  }

  lemma IsEnds<G(!new)>(l: Layout, c: Curve<G>, base: G, items: seq<Item>, neutral: bool, q: G)
    requires AllDecode(c, items)
    requires Mul(c.group, GcdOf(LayoutScalars(items), Used(items)), q) == Combine(c.group, LayoutScalars(items), LayoutPoints(c, base, items), Used(items))
    requires Annihilates(c.group, M, LayoutPoints(c, base, items), Used(items)) ==> Torsion(c.group, q)
    requires neutral <==> FinalResult(l, c.group, q, GcdOf(LayoutScalars(items), Used(items))) == Some(c.group.zero)
    ensures Ends(l, c, base, items, neutral, q)
  {
    hide Mul, GcdOf, LayoutScalars, LayoutPoints, Used, Combine, Annihilates, FinalResult, AllDecode;
  }

  /** What single verification says. */
  ghost predicate Verdict<G(!new)>(c: Curve<G>, base: G, it: Item) {
    WellFormed(it) && Accepts(c, base, it.m, it.pk, it.rs)
  }

  ghost function Flag(ok: bool): int {
    if ok then 1 else 0
  }

  function SetBit0(ret: int, bit: int): int {
    if bit == 1 && ret % 2 == 0 then ret + 1 else ret
  }

  function SetBit1(ret: int): int {
    if ret < 2 then ret + 2 else ret
  }

  /** Some flag before position n is zero. */
  ghost predicate SomeInvalid(valid: seq<int>, n: nat)
    requires n <= |valid|
  {
    exists i :: 0 <= i < n && valid[i] == 0
  }

  /** Single verification of the items from start to stop. */
  method Singles<G(!new)>(l: Layout, items: seq<Item>, start: nat, stop: nat, valid: array<int>, ret: int,
                          sliding: seq<Niels>, ghost c: Curve<G>, ghost base: G) returns (ret': int)
    requires Known(l) && Ed25519(c) && Fermat(c.f) && EveryPoint(c) && OddNiels(c, sliding, base) && |sliding| == 32
    requires AllWellFormed(items) && valid.Length == |items| && start <= stop <= |items|
    requires 0 <= ret <= 3 && (ret % 2 == 1 <==> SomeInvalid(valid[..], start))
    modifies valid
    ensures 0 <= ret' <= 3 && ret' / 2 == ret / 2 && (ret' % 2 == 1 <==> SomeInvalid(valid[..], stop))
    ensures forall i :: 0 <= i < |items| ==>
              valid[i] == if start <= i < stop then Flag(Verdict(c, base, items[i])) else old(valid[i])
  {
    hide Known, Ed25519, EdwardsCurve, Fermat, EveryPoint, OddNiels, Accepts;
    ret' := ret;
    for i := start to stop
      invariant 0 <= ret' <= 3 && ret' / 2 == ret / 2 && (ret' % 2 == 1 <==> SomeInvalid(valid[..], i))
      invariant forall k :: 0 <= k < |items| ==>
                  valid[k] == if start <= k < i then Flag(Verdict(c, base, items[k])) else old(valid[k])
    {
      assert WellFormed(items[i]);
      var accept := SignOpen(l, items[i].m, items[i].pk, items[i].rs, sliding, c, base);
      ghost var before := valid[..];
      valid[i] := if accept then 1 else 0;
      ret' := SetBit0(ret', 1 - valid[i]);
      OneMore(before, valid[..], i);
    }
  }

  lemma OneMore(before: seq<int>, after: seq<int>, i: nat)
    requires i < |before| == |after| && after == before[i := after[i]]
    ensures SomeInvalid(after, i + 1) <==> SomeInvalid(before, i) || after[i] == 0
  {
    if SomeInvalid(before, i) {
      var j :| 0 <= j < i && before[j] == 0;
      assert after[j] == 0;
    }
    if SomeInvalid(after, i + 1) {
      var j :| 0 <= j < i + 1 && after[j] == 0;
      assert j < i ==> before[j] == 0;
    }
  }

  /** Block j of the items: 64 of them, or what is left. */
  function BlockItems(items: seq<Item>, j: nat): seq<Item>
    requires 64 * j <= |items|
  {
    items[64 * j..Min(64 * j + 64, |items|)]
  }

  /** The number of blocks: a last one of fewer than four items is not a block. */
  function Blocks(n: nat): nat {
    if n % 64 > 3 then n / 64 + 1 else n / 64
  }

  /** Item i lies in a block that passed as a whole. */
  ghost predicate InPassed(outs: seq<Outcome>, i: nat) {
    i / 64 < |outs| && outs[i / 64].Passed?
  }

  ghost predicate ValidFlags<G(!new)>(c: Curve<G>, base: G, items: seq<Item>, outs: seq<Outcome>, valid: seq<int>, n: nat) {
    && |valid| == |items| && n <= |items|
    && (forall i :: 0 <= i < n ==> valid[i] == Flag(InPassed(outs, i) || Verdict(c, base, items[i])))
    && (forall i :: n <= i < |items| ==> valid[i] == 1)
  }

  ghost predicate BlockResults<G(!new)>(l: Layout, c: Curve<G>, base: G, items: seq<Item>, outs: seq<Outcome>) {
    forall j :: 0 <= j < |outs| ==> 64 * j <= |items| && BlockResult(l, c, base, BlockItems(items, j), outs[j])
  }

  ghost predicate SomeNotNeutral(outs: seq<Outcome>) {
    exists j :: 0 <= j < |outs| && outs[j].NotNeutral?
  }

  /** The state between blocks. */
  ghost predicate Progress<G(!new)>(l: Layout, c: Curve<G>, base: G, items: seq<Item>, outs: seq<Outcome>, valid: seq<int>, start: nat, ret: int) {
    && start == Min(64 * |outs|, |items|) && 64 * |outs| <= |items| + 60 && 0 <= ret <= 3
    && ValidFlags(c, base, items, outs, valid, start) && BlockResults(l, c, base, items, outs)
    && (ret % 2 == 1 <==> SomeInvalid(valid, start)) && (ret / 2 == 1 <==> SomeNotNeutral(outs))
  }

  lemma StartProgress<G(!new)>(l: Layout, c: Curve<G>, base: G, items: seq<Item>, valid: seq<int>)
    requires |valid| == |items| && forall i :: 0 <= i < |items| ==> valid[i] == 1
    ensures Progress(l, c, base, items, [], valid, 0, 0)
  {}

  /** A block more: its flags, its result and the two bits of the answer. */
  lemma NextProgress<G(!new)>(l: Layout, c: Curve<G>, base: G, items: seq<Item>, outs: seq<Outcome>, before: seq<int>, after: seq<int>,
                              start: nat, stop: nat, ret: int, ret': int, out: Outcome)
    requires Progress(l, c, base, items, outs, before, start, ret) && start == 64 * |outs| && start + 4 <= stop == Min(start + 64, |items|)
    requires BlockResult(l, c, base, items[start..stop], out)
    requires |after| == |items| && forall i :: 0 <= i < |items| ==>
               after[i] == if start <= i < stop && !out.Passed? then Flag(Verdict(c, base, items[i])) else before[i]
    requires 0 <= ret' <= 3 && (ret' % 2 == 1 <==> SomeInvalid(after, stop))
    requires ret' / 2 == if out.NotNeutral? then 1 else ret / 2
    ensures Progress(l, c, base, items, outs + [out], after, stop, ret')
  {
    hide BlockResult, Verdict, SomeInvalid;
    var more := outs + [out];
    forall i | 0 <= i < stop ensures after[i] == Flag(InPassed(more, i) || Verdict(c, base, items[i])) {
      assert i < start ==> i / 64 < |outs|;
      assert i >= start ==> i / 64 == |outs|;
    }
    assert BlockItems(items, |outs|) == items[start..stop];
    if SomeNotNeutral(outs) {
      var j :| 0 <= j < |outs| && outs[j].NotNeutral?;
      assert more[j].NotNeutral?;
    }
    assert out.NotNeutral? ==> more[|outs|].NotNeutral?;
  }

  /** One block and, unless it passed, its fallback. */
  method BlockStep<G(!new)>(b: Batch<G>, items: seq<Item>, start: nat, stop: nat, valid: array<int>, ret: int,
                                sliding: seq<Niels>, basePoint: Point, ghost c: Curve<G>, ghost base: G, ghost outs: seq<Outcome>)
    returns (ret': int, out: Outcome)
    requires b.Valid() && b.HoldsElems() && IsPoint(c, basePoint, base) && b.c == c && Known(b.l) && AllWellFormed(items) && valid.Length == |items|
    requires Ed25519(c) && Fermat(c.f) && EveryPoint(c) && OddNiels(c, sliding, base) && |sliding| == 32 && PrimeOrder(c.group)
    requires Progress(b.l, c, base, items, outs, valid[..], start, ret) && start == 64 * |outs|
    requires stop == Min(start + 64, |items|) && start + 4 <= stop
    requires valid as object != b.scalars && valid as object != b.points && valid as object != b.heap
    modifies b, b.scalars, b.points, b.heap, valid
    ensures b.Valid() && b.HoldsElems() && Progress(b.l, c, base, items, outs + [out], valid[..], stop, ret')
  {
    hide Known, Ed25519, EdwardsCurve, Fermat, EveryPoint, OddNiels, PrimeOrder, BlockResult, Verdict, BlockResults, ValidFlags, WellFormed, BatchLayout, Abelian, IsPoint;
    ghost var before := valid[..];
    out := CheckBlock(b, items[start..stop], basePoint, c, base);
    ret' := if out.NotNeutral? then SetBit1(ret) else ret;
    if !out.Passed? {
      ret' := Singles(b.l, items, start, stop, valid, ret', sliding, c, base);
    } else {
      StillValid(c, base, items, outs, before, start, stop);
    }
    NextProgress(b.l, c, base, items, outs, before, valid[..], start, stop, ret, ret', out);
  }

  /** The flags of a block not yet looked at are all set. */
  lemma StillValid<G(!new)>(c: Curve<G>, base: G, items: seq<Item>, outs: seq<Outcome>, valid: seq<int>, start: nat, stop: nat)
    requires ValidFlags(c, base, items, outs, valid, start) && start <= stop <= |items|
    ensures |valid| == |items| && (SomeInvalid(valid, stop) <==> SomeInvalid(valid, start))
  {
    hide Verdict;
    if SomeInvalid(valid, stop) {
      var i :| 0 <= i < stop && valid[i] == 0;
      assert i < start;
    }
    if SomeInvalid(valid, start) {
      var i :| 0 <= i < start && valid[i] == 0;
    }
  }

  /**
   ed25519_sign_open_batch. The ghost result lists how each block ended. A flag is
   cleared only by single verification, bit 0 of the answer says whether one was
   and bit 1 whether a block's equations did not combine to the neutral element.
   */
  method SignOpenBatch<G(!new)>(l: Layout, items: seq<Item>, valid: array<int>, sliding: seq<Niels>, basePoint: Point,
                                 ghost c: Curve<G>, ghost base: G)
    returns (ret: int, ghost outs: seq<Outcome>)
    requires Known(l) && AllWellFormed(items) && valid.Length == |items|
    requires Ed25519(c) && Fermat(c.f) && EveryPoint(c) && OddNiels(c, sliding, base) && |sliding| == 32 && PrimeOrder(c.group)
    requires IsPoint(c, basePoint, base)
    modifies valid
    ensures |outs| == Blocks(|items|) && BlockResults(l, c, base, items, outs)
    ensures forall i :: 0 <= i < |items| ==> valid[i] == Flag(InPassed(outs, i) || Verdict(c, base, items[i]))
    ensures 0 <= ret <= 3 && (ret % 2 == 1 <==> SomeInvalid(valid[..], |items|)) && (ret / 2 == 1 <==> SomeNotNeutral(outs))
  {
    hide *;
    Bounds128(l, 128);
    SetAll(valid);
    var b := new Batch(l, c);
    var start := 0;
    ret, outs := 0, [];
    StartProgress(l, c, base, items, valid[..]);
    while |items| - start > 3
      invariant b.Valid() && b.HoldsElems() && b.l == l && b.c == c && fresh(b) && fresh(b.scalars) && fresh(b.points) && fresh(b.heap)
      invariant start <= |items| && Progress(l, c, base, items, outs, valid[..], start, ret)
    {
      var stop := BlockEnd(start, |items|);
      BlockStart(l, c, base, items, outs, valid[..], start, ret);
      ghost var out;
      ret, out := BlockStep(b, items, start, stop, valid, ret, sliding, basePoint, c, base, outs);
      outs := outs + [out];
      start := stop;
    }
    ret := Tail(l, items, start, valid, ret, sliding, c, base, outs);
  }

  /** At first every signature counts as valid. */
  method SetAll(valid: array<int>)
    modifies valid
    ensures forall k :: 0 <= k < valid.Length ==> valid[k] == 1
  {
    for i := 0 to valid.Length
      invariant forall k :: 0 <= k < i ==> valid[k] == 1
    {
      valid[i] := 1;
    }
  }

  method BlockEnd(start: nat, n: nat) returns (stop: nat)
    requires start + 4 <= n
    ensures stop == Min(start + 64, n) && start + 4 <= stop <= n
  {
    stop := Min(start + 64, n);
  }

  lemma BlockStart<G(!new)>(l: Layout, c: Curve<G>, base: G, items: seq<Item>, outs: seq<Outcome>, valid: seq<int>, start: nat, ret: int)
    requires Progress(l, c, base, items, outs, valid, start, ret) && start < |items|
    ensures start == 64 * |outs|
  {}

  /** The last items, at most three, are verified one by one. */
  method Tail<G(!new)>(l: Layout, items: seq<Item>, start: nat, valid: array<int>, ret: int, sliding: seq<Niels>,
                       ghost c: Curve<G>, ghost base: G, ghost outs: seq<Outcome>) returns (ret': int)
    requires Known(l) && AllWellFormed(items) && valid.Length == |items| && start <= |items| <= start + 3
    requires Ed25519(c) && Fermat(c.f) && EveryPoint(c) && OddNiels(c, sliding, base) && |sliding| == 32
    requires Progress(l, c, base, items, outs, valid[..], start, ret)
    modifies valid
    ensures |outs| == Blocks(|items|) && BlockResults(l, c, base, items, outs)
    ensures forall i :: 0 <= i < |items| ==> valid[i] == Flag(InPassed(outs, i) || Verdict(c, base, items[i]))
    ensures 0 <= ret' <= 3 && (ret' % 2 == 1 <==> SomeInvalid(valid[..], |items|)) && (ret' / 2 == 1 <==> SomeNotNeutral(outs))
  {
    CountBlocks(|items|, |outs|);
    hide Known, Ed25519, EdwardsCurve, Fermat, EveryPoint, OddNiels, BlockResults, WellFormed, Verdict, SomeInvalid, Blocks;
    ret' := Singles(l, items, start, |items|, valid, ret, sliding, c, base);
  }

  lemma CountBlocks(n: nat, k: nat)
    requires Min(64 * k, n) + 3 >= n && 64 * k <= n + 60
    ensures k == Blocks(n)
  {
    if 64 * k <= n {
      DivModUnique(n, 64, k, n - 64 * k);
    } else {
      DivModUnique(n, 64, k - 1, n - 64 * (k - 1));
    }
  }
}
