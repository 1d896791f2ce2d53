/**
 How the flags of a batch relate to single verification: the exact condition
 under which they agree, items on which they do not, and what a block that passed
 under two different random factors proves.
 */
module BatchAgreement {
  import opened Arithmetic
  import opened Limbs
  import opened AbelianGroup
  import opened Residues
  import opened Edwards
  import opened PointOps
  import opened ScalarMult
  import opened ScalarModm
  import opened Scalars
  import opened Signature
  import opened MultiScalar
  import opened FinalLadder
  import opened BatchHeap
  import opened BatchEquation
  import opened BatchVerify
  import opened Wrappers
  import opened PointEncoding
  import SquareRoot
  import Field51
  import FieldEncoding
  import Bytes = ScalarEncoding

  /** s B - h A - R, the equation of one item. */
  ghost function Equation<G(!new)>(c: Curve<G>, base: G, it: Item): G
    requires Decodes(c, it)
  {
    c.group.add(Lin(c.group, ChallengeOf(it), KeyOf(c, it).value, ResponseOf(it), base), NonceOf(c, it).value)
  }

  /** R is spelled the way its point is encoded. */
  ghost predicate CanonicalNonce<G(!new)>(c: Curve<G>, it: Item) {
    |it.rs| == 64 && NonceOf(c, it).Some? && it.rs[..32] == PointBytes(c, c.group.neg(NonceOf(c, it).value))
  }

  /** The equation holds, the top bits of S are clear and R is canonical. */
  ghost predicate Passes<G(!new)>(c: Curve<G>, base: G, it: Item) {
    && WellFormed(it) && it.rs[63] < 32 && Decodes(c, it)
    && Equation(c, base, it) == c.group.zero && CanonicalNonce(c, it)
  }

  lemma DoubleNegation<G(!new)>(g: Group<G>, x: G)
    requires Abelian(g)
    ensures g.neg(g.neg(x)) == x
  {
    AddNeg(g, x);
    AddNeg(g, g.neg(x));
    AddComm(g, x, g.neg(x));
    AddComm(g, g.neg(g.neg(x)), g.neg(x));
    AddCancel(g, g.neg(g.neg(x)), x, g.neg(x));
  }

  /** The sum s B - h A of an item whose equation holds is R. */
  lemma SumIsNonce<G(!new)>(g: Group<G>, sum: G, nonce: G)
    requires Abelian(g)
    ensures g.add(sum, nonce) == g.zero <==> sum == g.neg(nonce)
  {
    AddNeg(g, nonce);
    AddComm(g, sum, nonce);
    if g.add(sum, nonce) == g.zero {
      AddComm(g, nonce, g.neg(nonce));
      AddCancel(g, sum, g.neg(nonce), nonce);
    }
  }

  /** Single verification accepts exactly when the equation holds, the top bits of S are clear and R is canonical. */
  lemma AcceptedIff<G(!new)>(c: Curve<G>, base: G, it: Item)
    requires Ed25519(c) && Fermat(c.f) && EveryPoint(c)
    ensures Verdict(c, base, it) <==> Passes(c, base, it)
  {
    hide DecodeNegative, Challenge, PointBytes, Bytes.LittleEndian, Lin, Ed25519, Fermat, EveryPoint, Accepts, Abelian;
    NoKey(c, base, it);
    if WellFormed(it) && KeyOf(c, it).Some? {
      var g := c.group;
      var sum := Lin(g, ChallengeOf(it), KeyOf(c, it).value, ResponseOf(it), base);
      GroupOf(c);
      KeyDecodes(c, sum);
      DoubleNegation(g, sum);
      if NonceOf(c, it).Some? {
        SumIsNonce(g, sum, NonceOf(c, it).value);
      }
      VerdictOf(c, base, it, sum);
    }
  }

  lemma NoKey<G(!new)>(c: Curve<G>, base: G, it: Item)
    ensures Verdict(c, base, it) ==> WellFormed(it) && KeyOf(c, it).Some?
  {
    hide DecodeNegative, Challenge, PointBytes, Bytes.LittleEndian, Lin;
  }

  lemma VerdictOf<G(!new)>(c: Curve<G>, base: G, it: Item, sum: G)
    requires WellFormed(it) && KeyOf(c, it).Some?
    requires sum == Lin(c.group, ChallengeOf(it), KeyOf(c, it).value, ResponseOf(it), base)
    ensures Verdict(c, base, it) <==> it.rs[63] < 32 && it.rs[..32] == PointBytes(c, sum)
    ensures it.rs[..32] == PointBytes(c, sum) ==> NonceOf(c, it) == DecodeNegative(c, PointBytes(c, sum))
  {
    hide DecodeNegative, Challenge, PointBytes, Bytes.LittleEndian, Lin;
  }

  /** The combination of a block is neutral, or its first heap's part when the scalars run dry. */
  ghost predicate BlockNeutral<G(!new)>(c: Curve<G>, base: G, block: seq<Item>) {
    && AllDecode(c, block)
    && (if DriesUp(block) then FirstSum(c.group, BlockOf(c, base, block)) == c.group.zero
        else Weighted(c.group, BlockOf(c, base, block), |block|) == c.group.zero)
  }

  /** A point does not decode, or all lie in the subgroup and the final ladder stays inside its array. */
  ghost predicate Decided<G(!new)>(l: Layout, c: Curve<G>, base: G, block: seq<Item>) {
    !AllDecode(c, block) || Regular(c, base, block) || Dry(l, c, base, block)
  }

  lemma PassesIff<G(!new)>(l: Layout, c: Curve<G>, base: G, block: seq<Item>, out: Outcome)
    requires BlockResult(l, c, base, block, out) && Decided(l, c, base, block)
    ensures out.Passed? <==> BlockNeutral(c, base, block)
  {
    hide AllDecode, DriesUp, InSubgroup, Weighted, FirstSum, BlockOf, Scans, LeftOver, Ends;
  }

  /**
   Exactly when the flag of an item is its single verdict, in terms of the items
   alone: unless its block combines to the neutral element although its own equation
   does not hold, a top bit of S is set or R is not canonical.
   */
  lemma FlagAgrees<G(!new)>(l: Layout, c: Curve<G>, base: G, items: seq<Item>, outs: seq<Outcome>, valid: seq<int>, i: nat)
    requires Ed25519(c) && Fermat(c.f) && EveryPoint(c) && i < |items| == |valid|
    requires |outs| == Blocks(|items|) && BlockResults(l, c, base, items, outs)
    requires forall k :: 0 <= k < |items| ==> valid[k] == Flag(InPassed(outs, k) || Verdict(c, base, items[k]))
    requires i / 64 < Blocks(|items|) ==> Decided(l, c, base, BlockItems(items, i / 64))
    ensures valid[i] == Flag(Verdict(c, base, items[i])) <==>
            i / 64 < Blocks(|items|) && BlockNeutral(c, base, BlockItems(items, i / 64)) ==> Passes(c, base, items[i])
  {
    hide Verdict, Passes, BlockResult, Decided, BlockNeutral, Ed25519, Fermat, EveryPoint;
    AcceptedIff(c, base, items[i]);
    if i / 64 < Blocks(|items|) {
      assert BlockResult(l, c, base, BlockItems(items, i / 64), outs[i / 64]);
      PassesIff(l, c, base, BlockItems(items, i / 64), outs[i / 64]);
    }
  }

  /** A regular block passes when every equation holds, whatever the top bits of S and the spelling of R. */
  lemma EquationsPass<G(!new)>(l: Layout, c: Curve<G>, base: G, items: seq<Item>, out: Outcome)
    requires Ed25519(c) && BlockResult(l, c, base, items, out) && Regular(c, base, items)
    requires forall i :: 0 <= i < |items| ==> Decodes(c, items[i]) && Equation(c, base, items[i]) == c.group.zero
    ensures out.Passed?
  {
    hide DriesUp, InSubgroup, Decodes, Lin, KeyOf, NonceOf, ChallengeOf, ResponseOf, Factor, Ed25519, EdwardsCurve;
    var k := BlockOf(c, base, items);
    forall i | 0 <= i < |items| ensures Term(c.group, k, i) == c.group.zero {
      TermIsEquation(c, base, items, i);
    }
    GroupOf(c);
    AllHold(c.group, k, |items|);
  }

  lemma TermIsEquation<G(!new)>(c: Curve<G>, base: G, items: seq<Item>, i: nat)
    requires AllDecode(c, items) && i < |items|
    ensures Decodes(c, items[i]) && Term(c.group, BlockOf(c, base, items), i) == Equation(c, base, items[i])
  {
    hide Lin, KeyOf, NonceOf, ChallengeOf, ResponseOf, Factor;
    NumbersAt(items, i);
    assert Decodes(c, items[i]);
  }

  /** A regular block of signatures that single verification accepts passes. */
  lemma GoodBlockPasses<G(!new)>(l: Layout, c: Curve<G>, base: G, items: seq<Item>, out: Outcome)
    requires Ed25519(c) && Fermat(c.f) && EveryPoint(c) && BlockResult(l, c, base, items, out) && Regular(c, base, items)
    requires forall i :: 0 <= i < |items| ==> Verdict(c, base, items[i])
    ensures out.Passed?
  {
    hide Verdict, Regular, BlockResult, Equation, Decodes, Ed25519, Fermat, EveryPoint;
    forall i | 0 <= i < |items| ensures Decodes(c, items[i]) && Equation(c, base, items[i]) == c.group.zero {
      AcceptedIff(c, base, items[i]);
    }
    EquationsPass(l, c, base, items, out);
  }

  /** The same items with another random factor drawn for item i. */
  function Redrawn(items: seq<Item>, i: nat, random: seq<int>): seq<Item>
    requires i < |items|
  {
    items[i := items[i].(random := random)]
  }

  lemma RedrawnBlock<G(!new)>(c: Curve<G>, base: G, items: seq<Item>, i: nat, random: seq<int>)
    requires i < |items| && AllDecode(c, items) && AllDecode(c, Redrawn(items, i, random))
    ensures var (k, k') := (BlockOf(c, base, items), BlockOf(c, base, Redrawn(items, i, random)));
            |k'.r| == |k.r| == |items| && k' == k.(r := k.r[i := k'.r[i]])
            && k.r[i] == Factor(items[i]) && k'.r[i] == Factor(Redrawn(items, i, random)[i])
  {
    hide Factor, BlockOf, AllDecode;
    var items' := Redrawn(items, i, random);
    var (k, k') := (BlockOf(c, base, items), BlockOf(c, base, items'));
    BlockBase(c, base, items);
    BlockBase(c, base, items');
    forall j | 0 <= j < |items|
      ensures k'.s[j] == k.s[j] && k'.h[j] == k.h[j] && k'.a[j] == k.a[j] && k'.b[j] == k.b[j]
      ensures k.r[j] == Factor(items[j]) && k'.r[j] == Factor(items'[j])
    {
      BlockAt(c, base, items, j);
      BlockAt(c, base, items', j);
      SameItem(c, items[j], items'[j]);
    }
    assert k'.r == k.r[i := k'.r[i]];
  }

  lemma BlockBase<G(!new)>(c: Curve<G>, base: G, items: seq<Item>)
    requires AllDecode(c, items)
    ensures BlockOf(c, base, items).base == base
  {}

  lemma BlockAt<G(!new)>(c: Curve<G>, base: G, items: seq<Item>, j: nat)
    requires AllDecode(c, items) && j < |items|
    ensures var k := BlockOf(c, base, items);
            && k.r[j] == Factor(items[j]) && k.s[j] == ResponseOf(items[j]) && k.h[j] == ChallengeOf(items[j])
            && Some(k.a[j]) == KeyOf(c, items[j]) && Some(k.b[j]) == NonceOf(c, items[j])
  {
    hide Factor, ResponseOf, ChallengeOf, KeyOf, NonceOf;
    NumbersAt(items, j);
  }

  lemma SameItem<G(!new)>(c: Curve<G>, it: Item, it': Item)
    requires it' == it.(random := it'.random)
    ensures ResponseOf(it') == ResponseOf(it) && ChallengeOf(it') == ChallengeOf(it)
    ensures KeyOf(c, it') == KeyOf(c, it) && NonceOf(c, it') == NonceOf(c, it)
  {
    hide DecodeNegative, Challenge, Bytes.LittleEndian;
  }

  /**
   Soundness: a block that is regular and passes under two different draws of 16 bytes
   for item i proves the equation of item i. So with the other factors fixed, at most
   one of the factors that leave the block regular hides an equation that does not hold.
   */
  lemma PassedTwice<G(!new)>(l: Layout, c: Curve<G>, base: G, items: seq<Item>, i: nat, random: seq<int>)
    requires Ed25519(c) && PrimeOrder(c.group) && AllWellFormed(items) && i < |items| && |random| == 16 && Digits(256, random)
    requires Regular(c, base, items) && Regular(c, base, Redrawn(items, i, random))
    requires random != items[i].random
    requires BlockResult(l, c, base, items, Passed) && BlockResult(l, c, base, Redrawn(items, i, random), Passed)
    ensures Decodes(c, items[i]) && Equation(c, base, items[i]) == c.group.zero
  {
    hide Factor, BlockOf, DriesUp, InSubgroup, Weighted, Term, Equation, AllDecode, Decodes, PrimeOrder, Ed25519, Redrawn;
    var items' := Redrawn(items, i, random);
    RedrawnFactor(items, i, random);
    RedrawnBlock(c, base, items, i, random);
    var (k, k') := (BlockOf(c, base, items), BlockOf(c, base, items'));
    GroupOf(c);
    TwoFactorsForce(c.group, k, k', i);
    TermIsEquation(c, base, items, i);
  }

  lemma RedrawnFactor(items: seq<Item>, i: nat, random: seq<int>)
    requires AllWellFormed(items) && i < |items| && |random| == 16 && Digits(256, random)
    ensures |Redrawn(items, i, random)| == |items| && Redrawn(items, i, random)[i] == items[i].(random := random)
    ensures 0 <= Factor(items[i]) < TWO128 && 0 <= Factor(items[i].(random := random)) < TWO128
    ensures random != items[i].random ==> Factor(items[i]) != Factor(items[i].(random := random))
  {
    if random != items[i].random && Factor(items[i]) == Factor(items[i].(random := random)) {
      assert WellFormed(items[i]);
      ValueInjective(256, items[i].random, random);
    }
    hide Factor;
    assert WellFormed(items[i]);
    FactorBound(items[i], 16);
    FactorBound(items[i].(random := random), 16);
  }

  /** y = 1 has the root x = 0, whatever the modulus. */
  lemma UnpackOne(f: Field)
    ensures UnpackX(f, 1, 0) == Some(0)
  {
    ZeroRoot(f, Den(f, 1));
    SmallMod(0, f.p);
    SmallMod(1, f.p);
    assert Num(f, 1) == 0;
    hide Den, Num, SquareRoot.Root;
  }

  lemma ZeroRoot(f: Field, den: int)
    ensures SquareRoot.Root(f, 0, den) == Some(0)
  {
    ZeroProducts(f, den);
    hide FMul, SquareRoot.Candidate;
    SmallMod(0, f.p);
  }

  lemma ZeroProducts(f: Field, den: int)
    ensures SquareRoot.Candidate(f, 0, den) == 0 && FMul(f, 0, 0) == 0 && FMul(f, 0, den) == 0
  {
    hide FPow;
    SmallMod(0, f.p);
  }

  lemma NeutralAt<G(!new)>(c: Curve<G>)
    requires EdwardsCurve(c) && EveryPoint(c)
    ensures c.at(0, 1) == c.group.zero
  {
    assert PointAt(c, 0, 1) && Solves(c.f, 0, 1) && SamePoint(c, c.at(0, 1), c.group.zero);
  }

  /** Both 1 and P + 1 in place of y decode to the neutral element. */
  lemma NeutralDecodes<G(!new)>(c: Curve<G>, y: int)
    requires Ed25519(c) && EveryPoint(c) && (y == 1 || y == Field51.P + 1)
    ensures |FieldEncoding.Encode(y)| == 32 && Digits(256, FieldEncoding.Encode(y))
    ensures DecodeNegative(c, FieldEncoding.Encode(y)) == Some(c.group.zero)
  {
    hide FieldEncoding.Encode, YOf, UnpackX, Value, Suitable, Ed25519, EdwardsCurve, EveryPoint;
    var p := FieldEncoding.Encode(y);
    EncodeValue(y, 32);
    TopByte(p, y, 31);
    FieldOf(c);
    YIsOne(p, y);
    UnpackOne(c.f);
    NeutralAt(c);
  }

  lemma YIsOne(p: seq<int>, y: int)
    requires |p| == 32 && Bytes.LittleEndian(p) == y && (y == 1 || y == Field51.P + 1)
    ensures YOf(p) == 1
  {
    SmallMod(y, FieldEncoding.TWO255);
  }

  /** The encoding of a point has y below P. */
  lemma EncodedBelowP<G(!new)>(c: Curve<G>, q: G, p: seq<int>)
    requires c.f == Field51.F25519 && p == PointBytes(c, q)
    ensures Bytes.LittleEndian(p) % FieldEncoding.TWO255 < Field51.P
  {
    var (x, y) := (c.x(q) % c.f.p, c.y(q) % c.f.p);
    PackBytesValue(x, y);
    hide PackBytes;
    DivModUnique(Bytes.LittleEndian(p), FieldEncoding.TWO255, x % 2, y);
  }

  /** Single verification rejects every R that spells y as P or more. */
  lemma HighNonceRejected<G(!new)>(c: Curve<G>, base: G, it: Item)
    requires Ed25519(c) && |it.rs| == 64 && Bytes.LittleEndian(it.rs[..32]) % FieldEncoding.TWO255 >= Field51.P
    ensures !Verdict(c, base, it)
  {
    if Verdict(c, base, it) {
      FieldOf(c);
      EncodedBelowP(c, Lin(c.group, Challenge(it.rs[..32], it.pk, it.m), DecodeNegative(c, it.pk).value,
                           Bytes.LittleEndian(it.rs[32..]) % M, base), it.rs[..32]);
      assert false;
    }
  }

  /** Single verification rejects every S of 2m or more; its top three bits are not clear. */
  lemma LargeResponseRejected<G(!new)>(c: Curve<G>, base: G, it: Item)
    requires WellFormed(it) && Bytes.LittleEndian(it.rs[32..]) >= 2 * M
    ensures it.rs[63] >= 32 && !Verdict(c, base, it)
  {
    TopBitsOf(it.rs[32..], 31);
  }

  lemma TopBitsOf(s: seq<int>, n: nat)
    requires n == 31 && |s| == 32 && Digits(256, s) && Bytes.LittleEndian(s) >= 2 * M
    ensures s[n] >= 32
  {
    hide Value, Pow;
    Bytes.BytePow(n);
    ValueSnoc(256, s, n);
    assert s[..32] == s;
    ValueBound(256, s[..31]);
    TopBelow(Value(256, s[..31]), Pow(256, n), s[n], 32);
  }

  /** Responses that differ by a multiple of m have the same equation. */
  lemma SameResponse<G(!new)>(c: Curve<G>, base: G, it: Item, it': Item)
    requires |it.rs| == |it'.rs| == 64 && it'.m == it.m && it'.pk == it.pk && it'.rs[..32] == it.rs[..32]
    requires Bytes.LittleEndian(it'.rs[32..]) % M == Bytes.LittleEndian(it.rs[32..]) % M
    ensures Decodes(c, it') <==> Decodes(c, it)
    ensures Decodes(c, it) ==> Equation(c, base, it') == Equation(c, base, it)
  {
    hide DecodeNegative, Challenge, Bytes.LittleEndian, Lin;
  }

  /** Key and nonce are the neutral element and the response is a multiple of m. */
  ghost predicate Harmless<G(!new)>(c: Curve<G>, it: Item) {
    KeyOf(c, it) == Some(c.group.zero) && NonceOf(c, it) == Some(c.group.zero) && ResponseOf(it) == 0
  }

  /** With the neutral element as key and nonce and a response divisible by m, the equation holds. */
  lemma NeutralEquation<G(!new)>(c: Curve<G>, base: G, it: Item)
    requires Abelian(c.group) && Harmless(c, it)
    ensures Decodes(c, it) && Equation(c, base, it) == c.group.zero
  {
    hide KeyOf, NonceOf, ResponseOf, ChallengeOf;
    MulZero(c.group, ChallengeOf(it));
    NoMultiple(c.group, base);
    AddZero(c.group, c.group.zero);
  }

  /** A signature made of the encodings of a key, a nonce and a response. */
  function Spelled(m: seq<int>, key: int, nonce: int, s: int, random: seq<int>): Item {
    Item(m, FieldEncoding.Encode(key), FieldEncoding.Encode(nonce) + FieldEncoding.Encode(s), random)
  }

  lemma SpelledItem<G(!new)>(c: Curve<G>, base: G, it: Item, m: seq<int>, nonce: int, s: int, random: seq<int>)
    requires Ed25519(c) && EveryPoint(c) && |random| == 16 && Digits(256, random)
    requires (nonce == 1 || nonce == Field51.P + 1) && (s == 0 || s == 2 * M) && it == Spelled(m, 1, nonce, s, random)
    ensures WellFormed(it) && it.rs[..32] == FieldEncoding.Encode(nonce) && Bytes.LittleEndian(it.rs[32..]) == s
    ensures Bytes.LittleEndian(it.rs[..32]) == nonce && Harmless(c, it) && Decodes(c, it) && Equation(c, base, it) == c.group.zero
  {
    hide FieldEncoding.Encode, DecodeNegative, Bytes.LittleEndian, Challenge, Ed25519, EveryPoint, Equation;
    NeutralDecodes(c, 1);
    NeutralDecodes(c, nonce);
    EncodedBytes(nonce);
    EncodedBytes(s);
    GroupOf(c);
    assert it.rs[..32] == FieldEncoding.Encode(nonce) && it.rs[32..] == FieldEncoding.Encode(s);
    MultipleOfM(s);
    NeutralEquation(c, base, it);
  }

  lemma EncodedBytes(y: int)
    requires 0 <= y < FieldEncoding.TWO255
    ensures |FieldEncoding.Encode(y)| == 32 && Digits(256, FieldEncoding.Encode(y))
    ensures Bytes.LittleEndian(FieldEncoding.Encode(y)) == y
  {
    hide FieldEncoding.Encode;
    EncodeValue(y, 32);
  }

  lemma MultipleOfM(s: int)
    requires s == 0 || s == 2 * M
    ensures s % M == 0
  {}

  /**
   A nonce that spells the neutral element as P + 1: for every message and every
   curve its equation holds and the top bits of S are clear, yet it is rejected.
   */
  lemma HighNonceItem<G(!new)>(c: Curve<G>, base: G, m: seq<int>, random: seq<int>)
    requires Ed25519(c) && EveryPoint(c) && |random| == 16 && Digits(256, random)
    ensures var it := Spelled(m, 1, Field51.P + 1, 0, random);
            && WellFormed(it) && it.rs[63] < 32 && Decodes(c, it)
            && Equation(c, base, it) == c.group.zero && !Verdict(c, base, it)
  {
    hide FieldEncoding.Encode, Spelled, Verdict, Equation, Decodes, Ed25519, EveryPoint, Bytes.LittleEndian;
    var it := Spelled(m, 1, Field51.P + 1, 0, random);
    SpelledItem(c, base, it, m, Field51.P + 1, 0, random);
    SmallMod(Field51.P + 1, FieldEncoding.TWO255);
    HighNonceRejected(c, base, it);
    TopByteBelow32(it.rs[32..], 31);
  }

  /** The response 2m in place of 0: the equation holds and R is canonical, yet it is rejected for its top bits. */
  lemma LargeResponseItem<G(!new)>(c: Curve<G>, base: G, m: seq<int>, random: seq<int>)
    requires Ed25519(c) && EveryPoint(c) && |random| == 16 && Digits(256, random)
    ensures var it := Spelled(m, 1, 1, 2 * M, random);
            && WellFormed(it) && it.rs[63] >= 32 && Decodes(c, it) && CanonicalNonce(c, it)
            && Equation(c, base, it) == c.group.zero && !Verdict(c, base, it)
  {
    hide Spelled, Verdict, Equation, DecodeNegative, Ed25519, EveryPoint, PointBytes, Bytes.LittleEndian, FieldEncoding.Encode;
    var it := Spelled(m, 1, 1, 2 * M, random);
    SpelledItem(c, base, it, m, 1, 2 * M, random);
    LargeResponseRejected(c, base, it);
    NeutralBytes(c);
    NeutralDecodes(c, 1);
    GroupOf(c);
    AddNeg(c.group, c.group.zero);
    AddZero(c.group, c.group.neg(c.group.zero));
    AddComm(c.group, c.group.zero, c.group.neg(c.group.zero));
  }

  lemma NeutralBytes<G(!new)>(c: Curve<G>)
    requires Ed25519(c)
    ensures PointBytes(c, c.group.zero) == FieldEncoding.Encode(1)
  {
    hide FieldEncoding.Encode, Suitable;
    EncodeValue(1, 32);
    FieldOf(c);
    SmallMod(0, c.f.p);
    SmallMod(1, c.f.p);
    var e := FieldEncoding.Encode(1);
    assert e[31 := e[31] + 128 * 0] == e;
  }

  /** A block whose random factors are all zero passes, whatever its signatures. */
  lemma ZeroFactorsPass<G(!new)>(l: Layout, c: Curve<G>, base: G, items: seq<Item>, out: Outcome)
    requires BlockResult(l, c, base, items, out) && AllDecode(c, items)
    requires forall i :: 0 <= i < |items| ==> Factor(items[i]) == 0
    ensures out.Passed?
  {
    ZeroLeftOver(items);
    hide AllDecode, LeftOver, UsedSum, Factor, Torsion;
    var q :| Ends(l, c, base, items, out.Passed?, q);
  }

  lemma ZeroLeftOver(items: seq<Item>)
    requires forall i :: 0 <= i < |items| ==> Factor(items[i]) == 0
    ensures LeftOver(items) == 0
  {
    hide Factor, LayoutScalars, Used, ChallengeOf, ResponseOf;
    var n, s := |items|, LayoutScalars(items);
    LayoutScalarsAt(items);
    NoResponses(items, n);
    forall i | 0 <= i < 2 * n + 1 ensures s[i] == 0 {
      if 1 <= i <= n {
        assert s[(i - 1) + 1] == ChallengeOf(items[i - 1]) * Factor(items[i - 1]) % M;
      } else if i > n {
        assert s[n + 1 + (i - n - 1)] == Factor(items[i - n - 1]);
      }
    }
    GcdOfBelow(s, Used(items), 1);
  }

  lemma {:induction false} NoResponses(items: seq<Item>, k: nat)
    requires k <= |items| && forall i :: 0 <= i < |items| ==> Factor(items[i]) == 0
    ensures ResponseSum(items, k) == 0
  {
    hide Factor, ResponseOf;
    if k > 0 {
      NoResponses(items, k - 1);
    }
  }

  /** The sixteen bytes of the random factor 1. */
  const ONE_BYTES: seq<int> := [1] + Zeros(15)

  lemma FactorOne(it: Item)
    requires it.random == ONE_BYTES
    ensures |it.random| == 16 && Digits(256, it.random) && Factor(it) == 1
  {
    ValueZero(256, Zeros(15));
    assert ([1] + Zeros(15))[1..] == Zeros(15);
  }

  /** A signature with the neutral key, the base point as R and S = 1. */
  ghost function BaseItem<G(!new)>(c: Curve<G>, base: G, m: seq<int>): Item {
    Item(m, FieldEncoding.Encode(1), PointBytes(c, base) + FieldEncoding.Encode(1), ONE_BYTES)
  }

  lemma BaseItemFacts<G(!new)>(c: Curve<G>, base: G, m: seq<int>)
    requires Ed25519(c) && Fermat(c.f) && EveryPoint(c)
    ensures var it := BaseItem(c, base, m);
            && WellFormed(it) && KeyOf(c, it) == Some(c.group.zero) && NonceOf(c, it) == Some(c.group.neg(base)) && ResponseOf(it) == 1
            && Decodes(c, it) && Equation(c, base, it) == c.group.zero
  {
    hide FieldEncoding.Encode, DecodeNegative, Bytes.LittleEndian, Challenge, Ed25519, Fermat, EveryPoint, PointBytes, Digits;
    var it := BaseItem(c, base, m);
    FactorOne(it);
    NeutralDecodes(c, 1);
    EncodedBytes(1);
    PackedPoint(c, base);
    KeyDecodes(c, base);
    BytesJoin(PointBytes(c, base), FieldEncoding.Encode(1));
    SmallMod(1, M);
    GroupOf(c);
    BaseEquation(c, base, it);
  }

  lemma PackedPoint<G(!new)>(c: Curve<G>, q: G)
    requires Ed25519(c)
    ensures |PointBytes(c, q)| == 32 && Digits(256, PointBytes(c, q))
  {
    FieldOf(c);
    PackBytesValue(c.x(q) % c.f.p, c.y(q) % c.f.p);
  }

  lemma BytesJoin(a: seq<int>, b: seq<int>)
    requires |a| == |b| == 32 && Digits(256, a) && Digits(256, b)
    ensures |a + b| == 64 && (a + b)[..32] == a && (a + b)[32..] == b && Digits(256, a + b)
  {}

  lemma BaseEquation<G(!new)>(c: Curve<G>, base: G, it: Item)
    requires Abelian(c.group) && KeyOf(c, it) == Some(c.group.zero) && NonceOf(c, it) == Some(c.group.neg(base)) && ResponseOf(it) == 1
    ensures Decodes(c, it) && Equation(c, base, it) == c.group.zero
  {
    hide KeyOf, NonceOf, ResponseOf, ChallengeOf;
    var g := c.group;
    MulZero(g, ChallengeOf(it));
    MulOne(g, base);
    AddComm(g, g.zero, base);
    AddZero(g, base);
    AddNeg(g, base);
  }

  /** Five signatures with the random factor 1, of which only the first is of interest. */
  ghost function WitnessBatch<G(!new)>(c: Curve<G>, base: G, m: seq<int>, first: Item): seq<Item> {
    var filler := Spelled(m, 1, 1, 0, ONE_BYTES);
    [first, BaseItem(c, base, m), filler, filler, filler]
  }

  /** What item j of the witness batch holds. */
  ghost predicate WitnessItem<G(!new)>(c: Curve<G>, base: G, it: Item, j: nat) {
    && WellFormed(it) && it.random == ONE_BYTES && KeyOf(c, it) == Some(c.group.zero)
    && NonceOf(c, it) == Some(if j == 1 then c.group.neg(base) else c.group.zero)
    && ResponseOf(it) == (if j == 1 then 1 else 0)
    && Decodes(c, it) && Equation(c, base, it) == c.group.zero
  }

  lemma WitnessItems<G(!new)>(c: Curve<G>, base: G, m: seq<int>, first: Item)
    requires Ed25519(c) && Fermat(c.f) && EveryPoint(c)
    requires WellFormed(first) && first.random == ONE_BYTES && Harmless(c, first)
    ensures forall j :: 0 <= j < 5 ==> WitnessItem(c, base, WitnessBatch(c, base, m, first)[j], j)
  {
    hide Ed25519, Fermat, EveryPoint, WellFormed, KeyOf, NonceOf, ResponseOf, Decodes, Equation, Spelled, BaseItem;
    var filler := Spelled(m, 1, 1, 0, ONE_BYTES);
    FillerFacts(c, base, m, filler);
    BaseItemFacts(c, base, m);
    BaseItemRandom(c, base, m);
    GroupOf(c);
    NeutralEquation(c, base, first);
  }

  lemma BaseItemRandom<G(!new)>(c: Curve<G>, base: G, m: seq<int>)
    ensures BaseItem(c, base, m).random == ONE_BYTES
  {}

  lemma FillerFacts<G(!new)>(c: Curve<G>, base: G, m: seq<int>, it: Item)
    requires Ed25519(c) && EveryPoint(c) && it == Spelled(m, 1, 1, 0, ONE_BYTES)
    ensures WellFormed(it) && it.random == ONE_BYTES && Harmless(c, it) && Decodes(c, it) && Equation(c, base, it) == c.group.zero
  {
    hide FieldEncoding.Encode, Ed25519, EveryPoint, Bytes.LittleEndian, Harmless, Decodes, Equation;
    FactorOne(it);
    SpelledItem(c, base, it, m, 1, 0, ONE_BYTES);
  }

  /** The witness batch is regular whatever the hashes: slots 0 and 6 of its first seven hold 1. */
  lemma WitnessRegular<G(!new)>(c: Curve<G>, base: G, items: seq<Item>)
    requires Abelian(c.group) && Mul(c.group, M, base) == c.group.zero && |items| == 5
    requires forall j :: 0 <= j < 5 ==> WitnessItem(c, base, items[j], j)
    ensures Regular(c, base, items)
  {
    hide *;
    WitnessDecodes(c, base, items);
    WitnessSubgroup(c, base, items);
    WitnessScalars(c, base, items);
    IsRegular(c, base, items);
  }

  lemma IsRegular<G(!new)>(c: Curve<G>, base: G, items: seq<Item>)
    requires AllDecode(c, items) && !DriesUp(items) && InSubgroup(c.group, BlockOf(c, base, items))
    ensures Regular(c, base, items)
  {
    hide AllDecode, DriesUp, InSubgroup, BlockOf;
  }

  lemma WitnessDecodes<G(!new)>(c: Curve<G>, base: G, items: seq<Item>)
    requires |items| == 5 && forall j :: 0 <= j < 5 ==> WitnessItem(c, base, items[j], j)
    ensures AllDecode(c, items)
  {
    hide WellFormed, KeyOf, NonceOf, ResponseOf, Decodes, Equation;
    forall j | 0 <= j < |items| ensures Decodes(c, items[j]) {
      assert WitnessItem(c, base, items[j], j);
    }
  }

  lemma WitnessSubgroup<G(!new)>(c: Curve<G>, base: G, items: seq<Item>)
    requires Abelian(c.group) && Mul(c.group, M, base) == c.group.zero && |items| == 5 && AllDecode(c, items)
    requires forall j :: 0 <= j < 5 ==> WitnessItem(c, base, items[j], j)
    ensures InSubgroup(c.group, BlockOf(c, base, items))
  {
    var g, k := c.group, BlockOf(c, base, items);
    BlockBase(c, base, items);
    MulZero(g, M);
    MulNeg(g, M, base);
    MulOf(g, M, base);
    hide WellFormed, KeyOf, NonceOf, ResponseOf, Decodes, Equation, BlockOf, AllDecode, Mul;
    forall j | 0 <= j < 5 ensures Torsion(g, k.a[j]) && Torsion(g, k.b[j]) {
      assert WitnessItem(c, base, items[j], j);
      BlockAt(c, base, items, j);
    }
  }

  /** A multiple of the negation is the negation of the multiple. */
  lemma MulOf<G(!new)>(g: Group<G>, k: int, q: G)
    requires Abelian(g) && Mul(g, k, q) == g.zero
    ensures Mul(g, k, g.neg(q)) == g.zero
  {
    hide Mul;
    AddNeg(g, q);
    MulDistrib(g, k, q, g.neg(q));
    MulZero(g, k);
    AddComm(g, g.zero, Mul(g, k, g.neg(q)));
    AddZero(g, Mul(g, k, g.neg(q)));
  }

  lemma WitnessScalars<G(!new)>(c: Curve<G>, base: G, items: seq<Item>)
    requires |items| == 5 && forall j :: 0 <= j < 5 ==> WitnessItem(c, base, items[j], j)
    ensures !DriesUp(items)
  {
    hide WellFormed, KeyOf, NonceOf, ResponseOf, Decodes, Equation, Factor, LayoutScalars, ChallengeOf;
    forall j | 0 <= j < 5 ensures Factor(items[j]) == 1 && ResponseOf(items[j]) == if j == 1 then 1 else 0 {
      assert WitnessItem(c, base, items[j], j);
      FactorOne(items[j]);
    }
    LayoutScalarsAt(items);
    var s := LayoutScalars(items);
    FiveResponses(items);
    SmallMod(1, M);
    assert s[|items| + 1 + 0] == Factor(items[0]);
    NotDry(s, 7, 6);
    assert FirstHeap(11) == 7;
  }

  lemma FiveResponses(items: seq<Item>)
    requires |items| == 5
    requires forall j :: 0 <= j < 5 ==> Factor(items[j]) == 1 && ResponseOf(items[j]) == if j == 1 then 1 else 0
    ensures ResponseSum(items, 5) == 1
  {
    hide Factor, ResponseOf;
    assert ResponseSum(items, 1) == ResponseOf(items[0]) * Factor(items[0]);
    assert ResponseSum(items, 2) == ResponseSum(items, 1) + ResponseOf(items[1]) * Factor(items[1]);
    assert ResponseSum(items, 3) == ResponseSum(items, 2) + ResponseOf(items[2]) * Factor(items[2]);
    assert ResponseSum(items, 4) == ResponseSum(items, 3) + ResponseOf(items[3]) * Factor(items[3]);
    assert ResponseSum(items, 5) == ResponseSum(items, 4) + ResponseOf(items[4]) * Factor(items[4]);
  }

  lemma NotDry(s: seq<int>, k: nat, j: nat)
    requires 0 < j < k <= |s| && s[0] == 1 && s[j] == 1
    ensures !RunsDry(s, k, TWO128)
  {
    forall d | d >= TWO128 ensures !CommonDivisor(d, s, k) {
      SmallMod(1, d);
    }
  }

  /**
   A batch on which flag and verdict differ: whatever a run on the witness batch
   answers, its first flag is set, although single verification rejects the item.
   */
  lemma FlagDiffers<G(!new)>(l: Layout, c: Curve<G>, base: G, m: seq<int>, first: Item, outs: seq<Outcome>, valid: seq<int>)
    requires Setting(c, base) && WellFormed(first) && first.random == ONE_BYTES && Harmless(c, first) && !Verdict(c, base, first)
    requires var items := WitnessBatch(c, base, m, first);
             && |outs| == Blocks(|items|) && BlockResults(l, c, base, items, outs) && |valid| == |items|
             && forall k :: 0 <= k < |items| ==> valid[k] == Flag(InPassed(outs, k) || Verdict(c, base, items[k]))
    ensures valid[0] == 1 && WitnessBatch(c, base, m, first)[0] == first
  {
    hide Verdict, WellFormed, Harmless, Ed25519, Fermat, EveryPoint, BlockResult, Mul, BaseItem, Spelled;
    var items := WitnessBatch(c, base, m, first);
    assert BlockItems(items, 0) == items;
    assert BlockResult(l, c, base, items, outs[0]);
    WitnessPasses(l, c, base, m, first, outs[0]);
  }

  lemma WitnessPasses<G(!new)>(l: Layout, c: Curve<G>, base: G, m: seq<int>, first: Item, out: Outcome)
    requires Setting(c, base) && WellFormed(first) && first.random == ONE_BYTES && Harmless(c, first)
    requires BlockResult(l, c, base, WitnessBatch(c, base, m, first), out)
    ensures out.Passed?
  {
    hide WellFormed, Harmless, Ed25519, Fermat, EveryPoint, BlockResult, WitnessItem, Regular, Mul, BaseItem, Spelled;
    var items := WitnessBatch(c, base, m, first);
    GroupOf(c);
    WitnessItems(c, base, m, first);
    WitnessRegular(c, base, items);
    WitnessEquations(c, base, items);
    EquationsPass(l, c, base, items, out);
  }

  lemma WitnessEquations<G(!new)>(c: Curve<G>, base: G, items: seq<Item>)
    requires |items| == 5 && forall j :: 0 <= j < 5 ==> WitnessItem(c, base, items[j], j)
    ensures forall j :: 0 <= j < |items| ==> Decodes(c, items[j]) && Equation(c, base, items[j]) == c.group.zero
  {
    hide WellFormed, KeyOf, NonceOf, ResponseOf, Decodes, Equation;
    forall j | 0 <= j < |items| ensures Decodes(c, items[j]) && Equation(c, base, items[j]) == c.group.zero {
      assert WitnessItem(c, base, items[j], j);
    }
  }

  /** The batch accepts the nonce spelled as P + 1, for every message. */
  lemma HighNonceBatch<G(!new)>(l: Layout, c: Curve<G>, base: G, m: seq<int>, outs: seq<Outcome>, valid: seq<int>)
    requires Setting(c, base)
    requires var items := WitnessBatch(c, base, m, Spelled(m, 1, Field51.P + 1, 0, ONE_BYTES));
             && |outs| == Blocks(|items|) && BlockResults(l, c, base, items, outs) && |valid| == |items|
             && forall k :: 0 <= k < |items| ==> valid[k] == Flag(InPassed(outs, k) || Verdict(c, base, items[k]))
    ensures valid[0] == 1 && !Verdict(c, base, WitnessBatch(c, base, m, Spelled(m, 1, Field51.P + 1, 0, ONE_BYTES))[0])
  {
    hide Spelled, Verdict, Ed25519, Fermat, EveryPoint, BlockResults, WitnessBatch, InPassed, Mul, Blocks, FieldEncoding.Encode, Equation;
    var it := Spelled(m, 1, Field51.P + 1, 0, ONE_BYTES);
    SpelledRandom(m, 1, Field51.P + 1, 0);
    HighNonceItem(c, base, m, ONE_BYTES);
    SpelledItem(c, base, it, m, Field51.P + 1, 0, ONE_BYTES);
    FlagDiffers(l, c, base, m, it, outs, valid);
  }

  /** The batch accepts the response 2m, for every message. */
  lemma LargeResponseBatch<G(!new)>(l: Layout, c: Curve<G>, base: G, m: seq<int>, outs: seq<Outcome>, valid: seq<int>)
    requires Setting(c, base)
    requires var items := WitnessBatch(c, base, m, Spelled(m, 1, 1, 2 * M, ONE_BYTES));
             && |outs| == Blocks(|items|) && BlockResults(l, c, base, items, outs) && |valid| == |items|
             && forall k :: 0 <= k < |items| ==> valid[k] == Flag(InPassed(outs, k) || Verdict(c, base, items[k]))
    ensures valid[0] == 1 && !Verdict(c, base, WitnessBatch(c, base, m, Spelled(m, 1, 1, 2 * M, ONE_BYTES))[0])
  {
    hide Spelled, Verdict, Ed25519, Fermat, EveryPoint, BlockResults, WitnessBatch, InPassed, Mul, Blocks, FieldEncoding.Encode, Equation, CanonicalNonce;
    var it := Spelled(m, 1, 1, 2 * M, ONE_BYTES);
    SpelledRandom(m, 1, 1, 2 * M);
    LargeResponseItem(c, base, m, ONE_BYTES);
    SpelledItem(c, base, it, m, 1, 2 * M, ONE_BYTES);
    FlagDiffers(l, c, base, m, it, outs, valid);
  }

  lemma SpelledRandom(m: seq<int>, key: int, nonce: int, s: int)
    ensures Spelled(m, key, nonce, s, ONE_BYTES).random == ONE_BYTES && |ONE_BYTES| == 16 && Digits(256, ONE_BYTES)
  {
    hide FieldEncoding.Encode;
    FactorOne(Spelled(m, key, nonce, s, ONE_BYTES));
  }
}
