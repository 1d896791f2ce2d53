/**
 The SHA-512 compression function: the definition of section 6.4.2 of FIPS 180-4
 and the loops that compute it.
 */
module Sha512Compress {
  import opened Arithmetic

  /** The round constants, four to a row. */
  const K: seq<seq<int>> := [
    [0x428a2f98d728ae22, 0x7137449123ef65cd, 0xb5c0fbcfec4d3b2f, 0xe9b5dba58189dbbc],
    [0x3956c25bf348b538, 0x59f111f1b605d019, 0x923f82a4af194f9b, 0xab1c5ed5da6d8118],
    [0xd807aa98a3030242, 0x12835b0145706fbe, 0x243185be4ee4b28c, 0x550c7dc3d5ffb4e2],
    [0x72be5d74f27b896f, 0x80deb1fe3b1696b1, 0x9bdc06a725c71235, 0xc19bf174cf692694],
    [0xe49b69c19ef14ad2, 0xefbe4786384f25e3, 0x0fc19dc68b8cd5b5, 0x240ca1cc77ac9c65],
    [0x2de92c6f592b0275, 0x4a7484aa6ea6e483, 0x5cb0a9dcbd41fbd4, 0x76f988da831153b5],
    [0x983e5152ee66dfab, 0xa831c66d2db43210, 0xb00327c898fb213f, 0xbf597fc7beef0ee4],
    [0xc6e00bf33da88fc2, 0xd5a79147930aa725, 0x06ca6351e003826f, 0x142929670a0e6e70],
    [0x27b70a8546d22ffc, 0x2e1b21385c26c926, 0x4d2c6dfc5ac42aed, 0x53380d139d95b3df],
    [0x650a73548baf63de, 0x766a0abb3c77b2a8, 0x81c2c92e47edaee6, 0x92722c851482353b],
    [0xa2bfe8a14cf10364, 0xa81a664bbc423001, 0xc24b8b70d0f89791, 0xc76c51a30654be30],
    [0xd192e819d6ef5218, 0xd69906245565a910, 0xf40e35855771202a, 0x106aa07032bbd1b8],
    [0x19a4c116b8d2d0c8, 0x1e376c085141ab53, 0x2748774cdf8eeb99, 0x34b0bcb5e19b48a8],
    [0x391c0cb3c5c95a63, 0x4ed8aa4ae3418acb, 0x5b9cca4f7763e373, 0x682e6ff3d6b2b8a3],
    [0x748f82ee5defb2fc, 0x78a5636f43172f60, 0x84c87814a1f0ab72, 0x8cc702081a6439ec],
    [0x90befffa23631e28, 0xa4506cebde82bde9, 0xbef9a3f7b2c67915, 0xc67178f2e372532b],
    [0xca273eceea26619c, 0xd186b8c721c0c207, 0xeada7dd6cde0eb1e, 0xf57d4f7fee6ed178],
    [0x06f067aa72176fba, 0x0a637dc5a2c898a6, 0x113f9804bef90dae, 0x1b710b35131c471b],
    [0x28db77f523047d84, 0x32caab7b40c72493, 0x3c9ebe0a15c9bebc, 0x431d67c49c100d4c],
    [0x4cc5d4becb3e42b6, 0x597f299cfc657e2a, 0x5fcb6fab3ad6faec, 0x6c44198c4a475817]
  ]

  /** A 64-bit word as its bits, lowest first. */
  type Word = seq<bool>

  function Bit(x: Word, i: int): bool {
    0 <= i < |x| && x[i]
  }

  /** The low n bits of a number. */
  function BitsOf(v: int, n: nat): (r: Word)
    ensures |r| == n
    decreases n
  {
    if n == 0 then [] else [v % 2 == 1] + BitsOf(v / 2, n - 1)
  }

  /** The low 64 bits of a number. */
  function Bits(v: int): Word {
    seq(64, i requires 0 <= i => v / Pow2(i) % 2 == 1)
  }

  /** The number a word stands for. */
  function Num(x: Word): (v: nat)
  {
    if x == [] then 0 else (if x[0] then 1 else 0) + 2 * Num(x[1..])
  }

  /** Cutting a number to n bits takes it modulo 2^n. */
  lemma {:induction false} NumBits(v: int, n: nat)
    ensures Num(BitsOf(v, n)) == v % Pow2(n)
    decreases n
  {
    if n > 0 {
      NumBits(v / 2, n - 1);
      BitAndRest(v, Pow2(n - 1));
      assert BitsOf(v, n)[1..] == BitsOf(v / 2, n - 1);
    }
  }

  lemma BitAndRest(v: int, p: int)
    requires p >= 1
    ensures v % (2 * p) == v % 2 + 2 * (v / 2 % p)
  {
    var h := v / 2;
    assert h == p * (h / p) + h % p;
    MulAssoc(2, p, h / p);
    DivModUnique(v, 2 * p, h / p, v % 2 + 2 * (h % p));
  }

  lemma {:induction false} BitsOfAt(v: int, n: nat, i: nat)
    requires i < n
    ensures BitsOf(v, n)[i] == (v / Pow2(i) % 2 == 1)
    decreases n
  {
    if i > 0 {
      BitsOfAt(v / 2, n - 1, i - 1);
      DivDiv(v, 2, Pow2(i - 1));
    }
  }

  /** A word holds a number modulo 2^64. */
  lemma WordValue(v: int, n: nat)
    requires n == 64
    ensures Num(Bits(v)) == v % Pow2(n)
  {
    forall i | 0 <= i < n ensures Bits(v)[i] == BitsOf(v, n)[i] {
      BitsOfAt(v, n, i);
    }
    assert Bits(v) == BitsOf(v, n);
    NumBits(v, n);
  }

  /** Addition modulo 2^64. */
  function Sum(x: Word, y: Word): Word {
    Bits(Num(x) + Num(y))
  }

  function Xor(x: Word, y: Word): Word {
    seq(64, i => Bit(x, i) != Bit(y, i))
  }

  function And(x: Word, y: Word): Word {
    seq(64, i => Bit(x, i) && Bit(y, i))
  }

  function Or(x: Word, y: Word): Word {
    seq(64, i => Bit(x, i) || Bit(y, i))
  }

  function Not(x: Word): Word {
    seq(64, i => !Bit(x, i))
  }

  function Shr(x: Word, k: nat): Word {
    seq(64, i => Bit(x, i + k))
  }

  function Shl(x: Word, k: nat): Word {
    seq(64, i => i < 64 && Bit(x, i - k))
  }

  /** Rotation as sha512_ROTR64 forms it. */
  function Rotr(x: Word, k: nat): Word
    requires 0 < k < 64
  {
    Or(Shr(x, k), Shl(x, 64 - k))
  }

  /** Rotation moves bit i + k, counted around the word, to bit i. */
  lemma RotrBits(x: Word, k: nat, i: nat)
    requires |x| == 64 && 0 < k < 64 && i < 64
    ensures Rotr(x, k)[i] == x[(i + k) % 64]
  {
    assert Rotr(x, k)[i] == (Bit(Shr(x, k), i) || Bit(Shl(x, 64 - k), i));
    assert Bit(Shr(x, k), i) == Bit(x, i + k) && Bit(Shl(x, 64 - k), i) == Bit(x, i + k - 64);
  }

  function Ch(x: Word, y: Word, z: Word): Word {
    Xor(And(x, y), And(Not(x), z))
  }

  function Maj(x: Word, y: Word, z: Word): Word {
    Xor(Xor(And(x, y), And(x, z)), And(y, z))
  }

  /** The forms the code computes choice and majority by. */
  function FastCh(x: Word, y: Word, z: Word): Word {
    Xor(z, And(x, Xor(y, z)))
  }

  function FastMaj(x: Word, y: Word, z: Word): Word {
    Or(And(Or(x, y), z), And(x, y))
  }

  lemma FastForms(x: Word, y: Word, z: Word)
    ensures FastCh(x, y, z) == Ch(x, y, z) && FastMaj(x, y, z) == Maj(x, y, z)
  {
    assert forall i :: 0 <= i < 64 ==> FastCh(x, y, z)[i] == Ch(x, y, z)[i];
    assert forall i :: 0 <= i < 64 ==> FastMaj(x, y, z)[i] == Maj(x, y, z)[i];
  }

  function Sum0(x: Word): Word {
    Xor(Xor(Rotr(x, 28), Rotr(x, 34)), Rotr(x, 39))
  }

  function Sum1(x: Word): Word {
    Xor(Xor(Rotr(x, 14), Rotr(x, 18)), Rotr(x, 41))
  }

  function Sigma0(x: Word): Word {
    Xor(Xor(Rotr(x, 1), Rotr(x, 8)), Shr(x, 7))
  }

  function Sigma1(x: Word): Word {
    Xor(Xor(Rotr(x, 19), Rotr(x, 61)), Shr(x, 6))
  }

  /** The constant of round t. */
  function KAt(t: nat): Word
    requires t < 80
  {
    Bits(K[t / 4][t % 4])
  }

  /** A big-endian number. */
  function BigEndian(s: seq<int>): int {
    if s == [] then 0 else 256 * BigEndian(s[..|s| - 1]) + s[|s| - 1]
  }

  function Load64(s: seq<int>): Word {
    Bits(BigEndian(s))
  }

  /** Word t of the message schedule of a block. */
  function Schedule(block: seq<int>, t: nat): Word
    requires |block| == 128
  {
    if t < 16 then Load64(block[8 * t..8 * t + 8])
    else NextWord(Schedule(block, t - 2), Schedule(block, t - 7), Schedule(block, t - 15), Schedule(block, t - 16))
  }

  function NextWord(w2: Word, w7: Word, w15: Word, w16: Word): Word {
    Sum(Sigma1(w2), Sum(w7, Sum(Sigma0(w15), w16)))
  }

  datatype Vars = Vars(a: Word, b: Word, c: Word, d: Word, e: Word, f: Word, g: Word, h: Word)

  /** One round with constant k and schedule word w. */
  function Round(v: Vars, k: Word, w: Word): Vars {
    var t1 := Sum(v.h, Sum(Sum1(v.e), Sum(Ch(v.e, v.f, v.g), Sum(k, w))));
    var t2 := Sum(Sum0(v.a), Maj(v.a, v.b, v.c));
    Vars(Sum(t1, t2), v.a, v.b, v.c, Sum(v.d, t1), v.e, v.f, v.g)
  }

  /** The working variables after t rounds. */
  function Rounds(v: Vars, block: seq<int>, t: nat): Vars
    requires |block| == 128 && t <= 80
  {
    if t == 0 then v else Round(Rounds(v, block, t - 1), KAt(t - 1), Schedule(block, t - 1))
  }

  function AddVars(v: Vars, w: Vars): Vars {
    Vars(Sum(v.a, w.a), Sum(v.b, w.b), Sum(v.c, w.c), Sum(v.d, w.d), Sum(v.e, w.e), Sum(v.f, w.f), Sum(v.g, w.g), Sum(v.h, w.h))
  }

  /** The hash value after one more block. */
  function Compress(h: Vars, block: seq<int>): Vars
    requires |block| == 128
  {
    AddVars(Rounds(h, block, 80), h)
  }

  lemma ScheduleStep(block: seq<int>, t: nat)
    requires |block| == 128
    ensures t < 16 ==> Schedule(block, t) == Load64(block[8 * t..8 * t + 8])
    ensures t >= 16 ==> Schedule(block, t)
                        == NextWord(Schedule(block, t - 2), Schedule(block, t - 7), Schedule(block, t - 15), Schedule(block, t - 16))
  {
    hide NextWord, Load64;
  }

  lemma RoundsStep(v: Vars, block: seq<int>, t: nat)
    requires |block| == 128 && t < 80
    ensures Rounds(v, block, 0) == v && Rounds(v, block, t + 1) == Round(Rounds(v, block, t), KAt(t), Schedule(block, t))
  {
    hide Round, Schedule, KAt;
  }

  /** The eighty schedule words, computed in an array. */
  method Expand(block: seq<int>) returns (w: array<Word>)
    requires |block| == 128
    ensures fresh(w) && w.Length == 80 && forall t :: 0 <= t < 80 ==> w[t] == Schedule(block, t)
  {
    hide *;
    w := new Word[80](_ => []);
    for i := 0 to 16
      invariant forall t :: 0 <= t < i ==> w[t] == Schedule(block, t)
    {
      ScheduleStep(block, i);
      w[i] := Load64(block[8 * i..8 * i + 8]);
    }
    for i := 16 to 80
      invariant forall t :: 0 <= t < i ==> w[t] == Schedule(block, t)
    {
      ScheduleStep(block, i);
      w[i] := NextWord(w[i - 2], w[i - 7], w[i - 15], w[i - 16]);
    }
  }

  /** One step of the code, on its eight variables. */
  method Step(v: Vars, k: Word, w: Word) returns (r: Vars)
    ensures r == Round(v, k, w)
  {
    FastForms(v.e, v.f, v.g);
    FastForms(v.a, v.b, v.c);
    hide Sum, Sum0, Sum1, Ch, Maj, FastCh, FastMaj;
    var t1 := Sum(Sum0(v.a), FastMaj(v.a, v.b, v.c));
    var t0 := Sum(v.h, Sum(Sum1(v.e), Sum(FastCh(v.e, v.f, v.g), Sum(k, w))));
    r := Vars(Sum(t0, t1), v.a, v.b, v.c, Sum(v.d, t0), v.e, v.f, v.g);
  }

  /** The body of sha512_blocks for one block. */
  method CompressBlock(h: Vars, block: seq<int>) returns (r: Vars)
    requires |block| == 128
    ensures r == Compress(h, block)
  {
    hide *;
    var w := Expand(block);
    RoundsStep(h, block, 0);
    r := h;
    for i := 0 to 80
      invariant r == Rounds(h, block, i)
      invariant forall t :: 0 <= t < 80 ==> w[t] == Schedule(block, t)
    {
      RoundsStep(h, block, i);
      assert w[i] == Schedule(block, i);
      r := Step(r, KAt(i), w[i]);
    }
    r := AddVars(r, h);
    CompressIs(h, block);
  }

  lemma CompressIs(h: Vars, block: seq<int>)
    requires |block| == 128
    ensures Compress(h, block) == AddVars(Rounds(h, block, 80), h)
  {
    hide AddVars, Rounds;
  }
}
