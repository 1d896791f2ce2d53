/** Scalars reduced modulo the group order, as the signature code handles them. */
module Scalars {
  import opened Arithmetic
  import opened Limbs
  import opened ScalarModm
  import opened ScalarEncoding
  import opened Recoding

  ghost predicate Reduced(l: Layout, s: seq<int>) {
    Known(l) && IsScalar(l, s) && 0 <= Val(l, s) < M
  }

  /** expand256_modm. */
  method FromBytes(l: Layout, bytes: seq<int>) returns (s: seq<int>)
    requires Known(l) && Digits(256, bytes) && |bytes| <= 64
    ensures Reduced(l, s) && Val(l, s) == LittleEndian(bytes) % M
  {
    hide Known, Value, IsScalar;
    s := Expand(l, bytes);
  }

  /** mul256_modm on reduced scalars. */
  method Times(l: Layout, x: seq<int>, y: seq<int>) returns (s: seq<int>)
    requires Reduced(l, x) && Reduced(l, y)
    ensures Reduced(l, s) && Val(l, s) == Val(l, x) * Val(l, y) % M
  {
    ProductBelow(Val(l, x), Val(l, y));
    hide Known, Value, IsScalar;
    s := Multiply(l, x, y);
  }

  lemma ProductBelow(x: int, y: int)
    requires 0 <= x < M && 0 <= y < M
    ensures 0 <= x * y < TWO510 && x * y % TWO510 == x * y
  {
    MulMono(x, M, y);
    MulMono(y, M, M);
    SmallMod(x * y, TWO510);
  }

  /** add256_modm. */
  method Plus(l: Layout, x: seq<int>, y: seq<int>) returns (s: seq<int>)
    requires Reduced(l, x) && Reduced(l, y)
    ensures Reduced(l, s) && Val(l, s) == (Val(l, x) + Val(l, y)) % M
  {
    hide Known, Value, IsScalar;
    s := Add(l, x, y);
  }

  /** contract256_modm: the top byte of a reduced scalar has its three high bits clear. */
  method ToBytes(l: Layout, s: seq<int>) returns (out: seq<int>)
    requires Reduced(l, s)
    ensures |out| == 32 && Digits(256, out) && LittleEndian(out) == Val(l, s) && out[31] < 32
  {
    KnownByteLayouts(l);
    ContractValue(l, s);
    hide Known, ByteLayout, Value, Contract, LittleEndian;
    out := Contract(l, s);
    TopByteBelow32(out, 31);
  }

  lemma TopByteBelow32(out: seq<int>, n: nat)
    requires n == 31 && |out| == 32 && Digits(256, out) && LittleEndian(out) < M
    ensures 0 <= out[n] < 32
  {
    hide Value, Pow;
    BytePow(n);
    ValueSnoc(256, out, n);
    assert out[..32] == out;
    ValueBound(256, out[..31]);
    TopBelow(Value(256, out[..31]), Pow(256, n), out[n], 32);
  }

  /** Reduced scalars can be recoded. */
  lemma ReducedRecodable(l: Layout, s: seq<int>)
    requires Reduced(l, s)
    ensures RecodeLayout(l) && Recodable(l, s) && Known(l)
  {
    KnownRecode(l);
    KnownPowers(l);
    TopLimb(l, s, MARKS);
  }

  lemma KnownRecode(l: Layout)
    requires Known(l)
    ensures RecodeLayout(l)
  {}

  lemma TopLimb(l: Layout, s: seq<int>, w: Marks)
    requires LayoutPowers(l, w) && IsScalar(l, s) && Val(l, s) < w.b256
    ensures s[l.limbs - 1] < Pow2(Top256(l))
  {
    var n := l.limbs - 1;
    hide Value, Pow, Pow2;
    ValueSnoc(Base(l), s, n);
    assert s[..n + 1] == s;
    ValueBound(Base(l), s[..n]);
    TopBelow(Value(Base(l), s[..n]), Pow(Base(l), n), s[n], Pow2(Top256(l)));
  }
}
