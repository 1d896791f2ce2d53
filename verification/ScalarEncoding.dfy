/** Scalars to and from little-endian bytes. */
module ScalarEncoding {
  import opened Arithmetic
  import opened Limbs
  import opened DigitCutting
  import opened ScalarModm

  /** The number a little-endian byte string stands for. */
  function LittleEndian(s: seq<int>): int {
    Value(256, s)
  }

  /** Words are whole bytes and divide a 64-byte buffer, and word j starts inside limb j. */
  ghost predicate ByteLayout(l: Layout) {
    && l.word % 8 == 0 && l.word >= 8 && l.bits >= 1
    && 64 % (l.word / 8) == 0 && 32 % (l.word / 8) == 0
    && l.bits <= l.word
    && (forall j :: 0 <= j < 32 / (l.word / 8) ==> StartsInLimb(l, j))
  }

  predicate StartsInLimb(l: Layout, j: int) {
    0 <= (l.word - l.bits) * j < l.bits && l.word <= 2 * l.bits - (l.word - l.bits) * j
  }

  lemma KnownByteLayouts(l: Layout)
    requires Known(l)
    ensures ByteLayout(l)
  {}

  /** Bytes read as little-endian machine words. */
  function WordsOf(l: Layout, bytes: seq<int>): seq<int>
    requires l.word >= 8
  {
    Grouped(256, bytes, l.word / 8)
  }

  lemma WordRadix(l: Layout)
    requires l.word % 8 == 0
    ensures Pow(256, l.word / 8) == Pow2(l.word)
  {
    assert Pow2(8) == 256;
    PowOfPow2(8, l.word / 8);
  }

  lemma WordsValue(l: Layout, bytes: seq<int>)
    requires ByteLayout(l) && Digits(256, bytes) && |bytes| % (l.word / 8) == 0
    ensures Digits(Pow2(l.word), WordsOf(l, bytes)) && Value(Pow2(l.word), WordsOf(l, bytes)) == LittleEndian(bytes)
  {
    WordRadix(l);
    GroupedValue(256, bytes, l.word / 8);
  }

  /** The limbs of a 64-byte buffer from bit off on. */
  function LimbsFrom(l: Layout, work: seq<int>, off: nat): seq<int>
    requires l.word >= 8
  {
    Cut(WordsOf(l, work), l.word, off, l.bits, l.limbs)
  }

  lemma LimbsFromValue(l: Layout, work: seq<int>, off: nat)
    requires ByteLayout(l) && Digits(256, work) && |work| % (l.word / 8) == 0
    ensures IsScalar(l, LimbsFrom(l, work, off))
    ensures Val(l, LimbsFrom(l, work, off)) == LittleEndian(work) / Pow2(off) % Pow(Base(l), l.limbs)
  {
    WordsValue(l, work);
    CutValue(WordsOf(l, work), l.word, off, l.bits, l.limbs);
  }

  /** Bit 248, where the Barrett quotient starts. */
  function Off248(l: Layout): nat
    requires l.limbs >= 1
  {
    l.bits * (l.limbs - 1) + Top248(l)
  }

  lemma Off248Value(l: Layout, w: Marks)
    requires LayoutPowers(l, w)
    ensures Pow2(Off248(l)) == w.b248
  {
    BasePow(l, l.limbs - 1);
    Pow2Add(l.bits * (l.limbs - 1), Top248(l));
  }

  lemma BytePowers(n4: nat, n31: nat, n32: nat, n64: nat)
    requires n4 == 4 && n31 == 31 && n32 == 32 && n64 == 64
    ensures Pow(256, n31) == TWO248 && Pow(256, n32) == TWO256 && Pow(256, n64) == TWO512
  {
    assert Pow(256, n4) == 0x100000000 by {
      assert Pow(256, 4) == 0x100000000;
    }
    PowSquare(256, n4, 0x100000000);
    PowSquare(256, 2 * n4, 0x10000000000000000);
    PowSquare(256, 4 * n4, 0x100000000000000000000000000000000);
    PowSquare(256, 8 * n4, TWO256);
    assert Pow(256, n32) == 256 * Pow(256, n31);
    hide Pow;
    assert 8 * n4 == n32 && 16 * n4 == n64;
  }

  /** 256^31, 256^32 and 256^64 as numbers. */
  lemma BytePow(n: nat)
    ensures n == 31 ==> Pow(256, n) == TWO248
    ensures n == 32 ==> Pow(256, n) == TWO256
    ensures n == 64 ==> Pow(256, n) == TWO512
  {
    BytePowers(4, 31, 32, 64);
  }

  lemma Padded(bytes: seq<int>, n: nat)
    requires Digits(256, bytes) && |bytes| <= n
    ensures var work := bytes + Zeros(n - |bytes|);
            Digits(256, work) && |work| == n && LittleEndian(work) == LittleEndian(bytes)
  {
    ValueConcat(256, bytes, Zeros(n - |bytes|));
    ValueZero(256, Zeros(n - |bytes|));
  }

  /** Up to 64 bytes, reduced modulo m; below 32 bytes there is nothing to reduce. */
  method Expand(l: Layout, bytes: seq<int>) returns (out: seq<int>)
    requires Known(l) && Digits(256, bytes) && |bytes| <= 64
    ensures IsScalar(l, out) && Val(l, out) == LittleEndian(bytes) % M
  {
    KnownPowers(l);
    KnownByteLayouts(l);
    hide Known, LayoutPowers, ByteLayout, Value;
    var n := l.limbs;
    var work := bytes + Zeros(64 - |bytes|);
    ghost var x := LittleEndian(bytes);
    Padded(bytes, 64);
    ByteBound(bytes);
    out := LimbsFrom(l, work, 0);
    LowLimbs(l, work, MARKS);
    out := out[n - 1 := out[n - 1] % Pow2(Top264(l))];
    if |bytes| < 32 {
      SmallMod(x, M);
      SmallMod(x, TWO264);
      return;
    }
    var q1 := LimbsFrom(l, work, Off248(l));
    HighLimbs(l, work, MARKS);
    out := BarrettReduce(l, q1, out, x);
  }

  lemma LowLimbs(l: Layout, work: seq<int>, w: Marks)
    requires LayoutPowers(l, w) && w.b264 >= 1 && ByteLayout(l) && Digits(256, work) && |work| % (l.word / 8) == 0
    ensures var n, out := l.limbs, LimbsFrom(l, work, 0);
            && |out| == n
            && var r1 := out[n - 1 := out[n - 1] % Pow2(Top264(l))];
               IsScalar(l, r1) && r1[n - 1] < Pow2(Top264(l)) && Val(l, r1) == LittleEndian(work) % w.b264
  {
    LimbsFromValue(l, work, 0);
    TruncateTop(l, LimbsFrom(l, work, 0), Top264(l));
    LowBits(l, w, LittleEndian(work));
  }

  lemma HighLimbs(l: Layout, work: seq<int>, w: Marks)
    requires LayoutPowers(l, w) && w.b248 >= 1 && ByteLayout(l) && Digits(256, work) && |work| % (l.word / 8) == 0
    requires 0 <= LittleEndian(work) < w.b248 * w.b264
    ensures IsScalar(l, LimbsFrom(l, work, Off248(l)))
    ensures Val(l, LimbsFrom(l, work, Off248(l))) == LittleEndian(work) / w.b248
  {
    LimbsFromValue(l, work, Off248(l));
    Off248Value(l, w);
    QuotientBelow(LittleEndian(work), w.b248, w.b264);
    HighBits(l, w, LittleEndian(work) / w.b248);
  }

  lemma BoundUpTo(k: nat, n: nat)
    ensures k <= n ==> Pow(256, k) <= Pow(256, n)
    ensures n == 31 ==> Pow(256, n) == TWO248
    ensures n == 32 ==> Pow(256, n) == TWO256
    ensures n == 64 ==> Pow(256, n) == TWO512
  {
    BytePow(n);
    if k <= n {
      PowMono(256, k, n);
    }
  }

  lemma ByteBound(bytes: seq<int>)
    requires Digits(256, bytes) && |bytes| <= 64
    ensures 0 <= LittleEndian(bytes) < TWO512
    ensures |bytes| <= 32 ==> LittleEndian(bytes) < TWO256
    ensures |bytes| < 32 ==> LittleEndian(bytes) < TWO248
  {
    ValueBound(256, bytes);
    BoundUpTo(|bytes|, 31);
    BoundUpTo(|bytes|, 32);
    BoundUpTo(|bytes|, 64);
  }

  /** Limbs hold more than 264 bits, so masking them to 264 masks the number. */
  lemma LowBits(l: Layout, w: Marks, x: int)
    requires LayoutPowers(l, w) && w.b264 >= 1
    ensures x / Pow2(0) % Pow(Base(l), l.limbs) % w.b264 == x % w.b264
  {
    var p := Pow(Base(l), l.limbs);
    FundamentalDivMod(x, p);
    AboveTop(l, w, x % p, x / p);
  }

  lemma FundamentalDivMod(x: int, p: int)
    requires p >= 1
    ensures x == x % p + p * (x / p)
  {}

  lemma HighBits(l: Layout, w: Marks, q: int)
    requires LayoutPowers(l, w) && 0 <= q < w.b264
    ensures q % Pow(Base(l), l.limbs) == q
  {
    var p := Pow(Base(l), l.limbs - 1);
    Pow2Mono(Top264(l), l.bits);
    assert Pow(Base(l), l.limbs) == Base(l) * p;
    LargeRadix(p, Pow2(Top264(l)), Base(l));
    SmallMod(q, Pow(Base(l), l.limbs));
  }

  lemma LargeRadix(p: int, e: int, b: int)
    requires p >= 1 && e <= b
    ensures p * e <= b * p
  {
    MulMono(e, b, p);
  }

  /** The 32 bytes of a scalar: word j straddles limbs j and j+1. */
  function Contract(l: Layout, s: seq<int>): seq<int>
    requires ByteLayout(l)
  {
    Spread(256, ContractWords(l, s), l.word / 8)
  }

  function ContractWords(l: Layout, s: seq<int>): seq<int>
    requires ByteLayout(l)
  {
    seq(32 / (l.word / 8), j requires 0 <= j && StartsInLimb(l, j) => Pair(s, l.bits, j, (l.word - l.bits) * j, l.word))
  }

  lemma ContractWordsValue(l: Layout, s: seq<int>)
    requires ByteLayout(l) && Digits(Base(l), s)
    ensures ContractWords(l, s) == DigitsOf(Pow2(l.word), Val(l, s), 32 / (l.word / 8))
  {
    var n, r, w := 32 / (l.word / 8), Pow2(l.word), ContractWords(l, s);
    forall j | 0 <= j < n ensures w[j] == DigitsOf(r, Val(l, s), n)[j] {
      assert StartsInLimb(l, j);
      ContractWord(l, s, j);
      DigitsOfAt(r, Val(l, s), n, j);
    }
  }

  lemma ContractWord(l: Layout, s: seq<int>, j: nat)
    requires l.bits >= 1 && Digits(Base(l), s) && StartsInLimb(l, j)
    ensures Pair(s, l.bits, j, (l.word - l.bits) * j, l.word) == Val(l, s) / Pow(Pow2(l.word), j) % Pow2(l.word)
  {
    PowOfPow2(l.word, j);
    MulDist(l.bits, l.word - l.bits, j);
    PieceAt(s, l.bits, l.word * j, j, (l.word - l.bits) * j, l.word);
  }

  /** Contracting writes the scalar in little-endian order, for every scalar below 2^256. */
  lemma ContractValue(l: Layout, s: seq<int>)
    requires ByteLayout(l) && Digits(Base(l), s) && Val(l, s) < TWO256
    ensures |Contract(l, s)| == 32 && Digits(256, Contract(l, s)) && LittleEndian(Contract(l, s)) == Val(l, s)
  {
    var k := l.word / 8;
    ContractWordsValue(l, s);
    DigitsOfValue(Pow2(l.word), Val(l, s), 32 / k);
    WordRadix(l);
    SpreadValue(256, ContractWords(l, s), k);
    ContractModulus(k);
    ValueBound(Base(l), s);
    SmallMod(Val(l, s), TWO256);
  }

  lemma ContractModulus(k: nat)
    requires k >= 1 && 32 % k == 0
    ensures k * (32 / k) == 32 && Pow(Pow(256, k), 32 / k) == TWO256
  {
    DivNonneg(32, k);
    assert 32 == k * (32 / k) + 32 % k;
    ByteGroups(k, 32 / k);
  }

  lemma ByteGroups(k: nat, n: nat)
    requires k * n == 32
    ensures Pow(Pow(256, k), n) == TWO256
  {
    PowMul(256, k, n);
    BytePow(k * n);
  }

  /** Contracting and expanding again gives the scalar modulo m back, whatever its limbs. */
  method ContractThenExpand(l: Layout, s: seq<int>) returns (out: seq<int>)
    requires Known(l) && IsScalar(l, s) && Val(l, s) < M
    ensures out == s
  {
    KnownByteLayouts(l);
    hide Known, ByteLayout, Contract, Value;
    ContractValue(l, s);
    out := Expand(l, Contract(l, s));
    ValueBound(Base(l), s);
    SmallMod(Val(l, s), M);
    ValueInjective(Base(l), out, s);
  }
}
