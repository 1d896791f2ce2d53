/** Field elements to and from 32 little-endian bytes. */
module FieldEncoding {
  import opened Arithmetic
  import opened Limbs
  import opened DigitCutting
  import opened Field51
  import Bytes = ScalarEncoding

  const TWO255: int := P + 19

  /** Every limb within its 51 bits. */
  predicate Tight(a: Fe) {
    Bounded(a, B)
  }

  lemma TightValue(a: Fe)
    requires Tight(a)
    ensures 0 <= Eval(a) < TWO255 && a.a0 as int <= Eval(a)
  {}

  /** The n-th 64-bit word of a little-endian string. */
  function Word(s: seq<int>, n: nat): int
    requires |s| == 32 && n < 4
  {
    Value(256, s[8 * n..8 * n + 8])
  }

  lemma WordBound(s: seq<int>, n: nat)
    requires |s| == 32 && n < 4 && Digits(256, s)
    ensures 0 <= Word(s, n) < WORD
  {
    BytesInWord(8);
    ValueBound(256, s[8 * n..8 * n + 8]);
  }

  lemma BytesInWord(n: nat)
    requires n == 8
    ensures Pow(256, n) == WORD
  {
    assert Pow(256, 4) == 0x100000000;
    PowSquare(256, 4, 0x100000000);
  }

  /** A 32-byte number is its four words. */
  lemma FourWords(s: seq<int>)
    requires |s| == 32
    ensures Value(256, s) == Word(s, 0) + WORD * (Word(s, 1) + WORD * (Word(s, 2) + WORD * Word(s, 3)))
  {
    var n := 8;
    BytesInWord(n);
    hide Value, Pow;
    SplitWord(s, n);
    SplitWord(s[8..], n);
    SplitWord(s[16..], n);
    assert s[8..][..8] == s[8..16] && s[8..][8..] == s[16..];
    assert s[16..][..8] == s[16..24] && s[16..][8..] == s[24..];
    assert s[..8] == s[0..8] && s[24..] == s[24..32];
  }

  lemma SplitWord(s: seq<int>, n: nat)
    requires n == 8 <= |s|
    ensures Value(256, s) == Value(256, s[..8]) + WORD * Value(256, s[8..])
  {
    BytesInWord(n);
    ValueSplit(256, s, n);
  }

  /** x shifted right and y shifted left until they meet, the overflow of y lost. */
  function Funnel(x: int, y: int, right: int, left: int): int
    requires right > 0
  {
    x / right + (y * left) % WORD
  }

  /** The low 51 bits of such a join are all of x and the first bits of y. */
  lemma FunnelMasked(x: int, y: int, right: int, left: int, next: int)
    requires 0 <= x < WORD && right > 0 && left > 0 && next > 0 && right * left == WORD && left * next == B
    ensures Funnel(x, y, right, left) % B == x / right + left * (y % next)
    ensures 0 <= x / right < left
  {
    QuotientBelow(x, right, left);
    var q, r := y / next, y % next;
    ScaledSplit(y, next, q, r, left);
    var k := (y * left) / WORD;
    assert WORD == 0x2000 * B;
    LowPart(x / right, left, r, next);
    DivModUnique(Funnel(x, y, right, left), B, q - 0x2000 * k, x / right + left * r);
  }

  lemma ScaledSplit(y: int, n: int, q: int, r: int, k: int)
    requires y == n * q + r
    ensures y * k == (k * n) * q + k * r
  {
    MulDist(n * q, r, k);
    MulAssoc(k, n, q);
  }

  /** Two digits side by side fit the joint radix. */
  lemma LowPart(lo: int, left: int, hi: int, next: int)
    requires 0 <= lo < left && 0 <= hi < next
    ensures 0 <= lo + left * hi < left * next
  {
    MulMono(hi, next - 1, left);
    MulDist(next, 1, left);
  }

  /** curve25519_expand: the number modulo 2^255, with the top bit ignored. */
  method Expand(s: seq<int>) returns (o: Fe)
    requires |s| == 32 && Digits(256, s)
    ensures Tight(o) && Eval(o) == Bytes.LittleEndian(s) % TWO255
  {
    WordBound(s, 0);
    WordBound(s, 1);
    WordBound(s, 2);
    WordBound(s, 3);
    FourWords(s);
    hide Word, Value;
    o := CutWords(Word(s, 0), Word(s, 1), Word(s, 2), Word(s, 3));
  }

  method CutWords(x0: int, x1: int, x2: int, x3: int) returns (o: Fe)
    requires 0 <= x0 < WORD && 0 <= x1 < WORD && 0 <= x2 < WORD && 0 <= x3 < WORD
    ensures Tight(o) && Eval(o) == (x0 + WORD * (x1 + WORD * (x2 + WORD * x3))) % TWO255
  {
    var o1 := Cut51(x0, x1, 0x8000000000000, 0x2000, 0x4000000000);
    var o2 := Cut51(x1, x2, 0x4000000000, 0x4000000, 0x2000000);
    var o3 := Cut51(x2, x3, 0x2000000, 0x8000000000, 0x1000);
    o := Fe((x0 % B) as u64, o1, o2, o3, (x3 / 0x1000 % B) as u64);
    TightValue(o);
    DivModUnique(x0 + WORD * (x1 + WORD * (x2 + WORD * x3)), TWO255, x3 / 0x1000 / B, Eval(o));
  }

  method Cut51(x: int, y: int, right: int, left: int, ghost next: int) returns (o: u64)
    requires 0 <= x < WORD && right > 0 && left > 0 && next > 0 && right * left == WORD && left * next == B
    ensures o as int == x / right + left * (y % next) && (o as int) < B
  {
    FunnelMasked(x, y, right, left, next);
    o := (Funnel(x, y, right, left) % B) as u64;
  }

  /** One carry pass along the limbs, returning what leaves the top. */
  method CarryPass(t: Fe) returns (o: Fe, c: u64)
    requires Bounded(t, 0x8000000000000000)
    ensures Tight(o) && Eval(t) == Eval(o) + TWO255 * c as int && c <= 0x1000
  {
    var b: u64 := 0x8000000000000;
    var t1 := t.a1 + t.a0 / b;
    var t2 := t.a2 + t1 / b;
    var t3 := t.a3 + t2 / b;
    var t4 := t.a4 + t3 / b;
    o, c := Fe(t.a0 % b, t1 % b, t2 % b, t3 % b, t4 % b), t4 / b;
  }

  /** A pass that brings what left the top back in with weight 19. */
  method CarryFull(t: Fe) returns (o: Fe)
    requires Bounded(t, 0x8000000000000000)
    ensures Eval(o) == Eval(t) % TWO255 + 19 * (Eval(t) / TWO255)
    ensures o.a0 as int < B + 0x20000 && o.a1 as int < B && o.a2 as int < B && o.a3 as int < B && o.a4 as int < B
    ensures Eval(o) < B ==> o.a0 as int <= Eval(o)
    ensures Eval(t) < TWO255 ==> Tight(o)
    ensures 0 <= Eval(o) < TWO255 + 0x20000
  {
    var x, c := CarryPass(t);
    TightValue(x);
    DivModUnique(Eval(t), TWO255, c as int, Eval(x));
    o := Fe(x.a0 + 19 * c, x.a1, x.a2, x.a3, x.a4);
  }

  /** Two full passes bring the limbs into range. */
  method CarryTwice(t: Fe) returns (o: Fe)
    requires Bounded(t, 0x8000000000000000)
    ensures Tight(o) && Fv(o) == Fv(t)
  {
    hide Fv, Sum5;
    var x := CarryFull(t);
    ShiftedResidue(x, t, -(Eval(t) / TWO255));
    if Eval(x) >= TWO255 {
      DivModUnique(Eval(x), TWO255, 1, Eval(x) - TWO255);
    }
    o := CarryFull(x);
    ShiftedResidue(o, x, -(Eval(x) / TWO255));
  }

  /**
   The limbs of the least residue. Adding 19 carries out of the top exactly when
   the number is at least P; adding 2^255 - 19 and dropping bit 255 then takes the
   19 off again.
   */
  method Freeze(a: Fe) returns (t: Fe)
    requires Bounded(a, 0x8000000000000000)
    ensures Tight(t) && Eval(t) == Fv(a)
  {
    t := CarryTwice(a);
    TightValue(t);
    Offset19(Eval(t));
    assert Fv(t) == Eval(t) % P;
    hide Fv;
    t := CarryFull(t.(a0 := t.a0 + 19));
    t := DropOffset(t, Fv(a));
  }

  lemma Offset19(v: int)
    requires 0 <= v < TWO255
    ensures (v + 19) % TWO255 + 19 * ((v + 19) / TWO255) == v % P + 19
  {}

  method DropOffset(t: Fe, ghost v: int) returns (o: Fe)
    requires Bounded(t, N54) && Eval(t) == v + 19 && 0 <= v < P
    ensures Tight(o) && Eval(o) == v
  {
    var x := Fe(t.a0 + 0x7ffffffffffed, t.a1 + 0x7ffffffffffff, t.a2 + 0x7ffffffffffff, t.a3 + 0x7ffffffffffff, t.a4 + 0x7ffffffffffff);
    var top;
    o, top := CarryPass(x);
    TightValue(o);
  }

  /** The 32 bytes of a residue. */
  function Encode(x: int): seq<int> {
    DigitsOf(256, x, 32)
  }

  /** The join of two limbs as a whole 64-bit word. */
  lemma FunnelWord(x: int, y: int, right: int, left: int, next: int)
    requires 0 <= x < B && right > 0 && left > 0 && next > 0 && right * left == B && left * next == WORD
    ensures Funnel(x, y, right, left) == x / right + left * (y % next)
    ensures 0 <= Funnel(x, y, right, left) < WORD
  {
    QuotientBelow(x, right, left);
    ScaledSplit(y, next, y / next, y % next, left);
    LowPart(0, left, y % next, next);
    DivModUnique(y * left, WORD, y / next, left * (y % next));
    LowPart(x / right, left, y % next, next);
  }

  /** The eight bytes of a word, lowest first. */
  method WriteWord(f: int) returns (out: seq<int>)
    ensures out == DigitsOf(256, f, 8)
  {
    out := [];
    var rest := f;
    for i := 0 to 8
      invariant |out| == i && out + DigitsOf(256, rest, 8 - i) == DigitsOf(256, f, 8)
    {
      assert out + DigitsOf(256, rest, 8 - i) == out + [rest % 256] + DigitsOf(256, rest / 256, 7 - i);
      out := out + [rest % 256];
      rest := rest / 256;
    }
  }

  /** curve25519_contract: the bytes of the least residue, so equal residues give equal bytes. */
  method Contract(a: Fe) returns (out: seq<int>)
    requires Bounded(a, 0x8000000000000000)
    ensures out == Encode(Fv(a))
    ensures |out| == 32 && Digits(256, out) && Bytes.LittleEndian(out) == Fv(a)
  {
    var t := Freeze(a);
    hide Fv, Eval, DigitsOf;
    var f0, f1, f2, f3 := Words(t);
    var w0 := WriteWord(f0);
    var w1 := WriteWord(f1);
    var w2 := WriteWord(f2);
    var w3 := WriteWord(f3);
    out := w0 + w1 + w2 + w3;
    JoinWords(f0, f1, f2, f3);
    EncodeUnique(out, Fv(a));
  }

  /** Five limbs as four words. */
  method Words(t: Fe) returns (f0: int, f1: int, f2: int, f3: int)
    requires Tight(t)
    ensures 0 <= f0 < WORD && 0 <= f1 < WORD && 0 <= f2 < WORD && 0 <= f3 < WORD
    ensures f0 + WORD * (f1 + WORD * (f2 + WORD * f3)) == Eval(t)
  {
    var (t0, t1, t2, t3, t4) := (t.a0 as int, t.a1 as int, t.a2 as int, t.a3 as int, t.a4 as int);
    FunnelWord(t0, t1, 1, 0x8000000000000, 0x2000);
    FunnelWord(t1, t2, 0x2000, 0x4000000000, 0x4000000);
    FunnelWord(t2, t3, 0x4000000, 0x2000000, 0x8000000000);
    FunnelWord(t3, t4, 0x8000000000, 0x1000, 0x10000000000000);
    hide Funnel;
    f0, f1 := Funnel(t0, t1, 1, 0x8000000000000), Funnel(t1, t2, 0x2000, 0x4000000000);
    f2, f3 := Funnel(t2, t3, 0x4000000, 0x2000000), Funnel(t3, t4, 0x8000000000, 0x1000);
  }

  lemma JoinWords(f0: int, f1: int, f2: int, f3: int)
    requires 0 <= f0 < WORD && 0 <= f1 < WORD && 0 <= f2 < WORD && 0 <= f3 < WORD
    ensures var out := DigitsOf(256, f0, 8) + DigitsOf(256, f1, 8) + DigitsOf(256, f2, 8) + DigitsOf(256, f3, 8);
            && |out| == 32 && Digits(256, out)
            && Value(256, out) == f0 + WORD * (f1 + WORD * (f2 + WORD * f3))
  {
    var out := DigitsOf(256, f0, 8) + DigitsOf(256, f1, 8) + DigitsOf(256, f2, 8) + DigitsOf(256, f3, 8);
    WordDigits(f0, 8);
    WordDigits(f1, 8);
    WordDigits(f2, 8);
    WordDigits(f3, 8);
    hide DigitsOf, Value;
    Slices(DigitsOf(256, f0, 8), DigitsOf(256, f1, 8), DigitsOf(256, f2, 8), DigitsOf(256, f3, 8), out);
    FourWords(out);
  }

  lemma Slices(a: seq<int>, b: seq<int>, c: seq<int>, d: seq<int>, out: seq<int>)
    requires |a| == 8 && |b| == 8 && |c| == 8 && |d| == 8 && out == a + b + c + d
    ensures |out| == 32 && out[0..8] == a && out[8..16] == b && out[16..24] == c && out[24..32] == d
    ensures Digits(256, a) && Digits(256, b) && Digits(256, c) && Digits(256, d) ==> Digits(256, out)
  {}

  lemma WordDigits(f: int, n: nat)
    requires 0 <= f < WORD && n == 8
    ensures |DigitsOf(256, f, n)| == 8 && Digits(256, DigitsOf(256, f, n)) && Value(256, DigitsOf(256, f, n)) == f
  {
    BytesInWord(n);
    DigitsOfValue(256, f, n);
    SmallMod(f, WORD);
  }

  /** The encoding is the only 32-byte string with its value. */
  lemma EncodeUnique(s: seq<int>, x: int)
    requires |s| == 32 && Digits(256, s) && Value(256, s) == x
    ensures s == Encode(x)
  {
    var n := 32;
    ValueBound(256, s);
    DigitsOfValue(256, x, n);
    SmallMod(x, Pow(256, n));
    ValueInjective(256, s, Encode(x));
  }

  /** Expanding canonical bytes and contracting again gives them back. */
  method ExpandThenContract(s: seq<int>) returns (out: seq<int>)
    requires |s| == 32 && Digits(256, s)
    ensures Bytes.LittleEndian(s) < P ==> out == s
    ensures out == Encode(Bytes.LittleEndian(s) % TWO255 % P)
  {
    var a := Expand(s);
    out := Contract(a);
    if Bytes.LittleEndian(s) < P {
      ValueBound(256, s);
      SmallMod(Bytes.LittleEndian(s), TWO255);
      SmallMod(Bytes.LittleEndian(s), P);
      EncodeUnique(s, Bytes.LittleEndian(s));
    }
  }
}
