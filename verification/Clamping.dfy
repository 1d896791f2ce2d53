/** The clamping of secret scalars, shared by signing and the Montgomery ladder. */
module Clamping {
  import opened Arithmetic
  import opened Limbs
  import opened FieldEncoding
  import Bytes = ScalarEncoding

  /** Clearing the low three bits and bit 255, and setting bit 254, of the first 32 bytes. */
  function Clamp(n: seq<int>): (e: seq<int>)
    requires |n| >= 32
    ensures |e| == |n| && e[32..] == n[32..]
  {
    n[0 := n[0] - n[0] % 8][31 := n[31] % 64 + 64]
  }

  /** A clamped scalar is a multiple of 8 between 2^254 and 2^255. */
  lemma ClampedRange(n: seq<int>, top: nat)
    requires |n| >= 32 && Digits(256, n) && top == 31
    ensures Digits(256, Clamp(n)) && Clamped(Bytes.LittleEndian(Clamp(n)[..32]))
  {
    var e := Clamp(n)[..32];
    assert Digits(256, Clamp(n)) && e[0] % 8 == 0 && 64 <= e[31] < 128;
    hide Clamp, Value;
    LowBitsClear(e);
    TopBitsSet(e, top);
  }

  const TWO254: int := TWO255 / 2

  /** Of the number v of the first 32 bytes the bits 3 to 253 are kept. */
  lemma ClampedNumber(n: seq<int>, top: nat)
    requires |n| >= 32 && Digits(256, n) && top == 31
    ensures var v := Bytes.LittleEndian(n[..32]);
            Bytes.LittleEndian(Clamp(n)[..32]) == TWO254 + v % TWO254 - v % 8
  {
    var m := n[..32];
    assert Digits(256, m);
    var e := m[0 := m[0] - m[0] % 8];
    assert Clamp(n)[..32] == e[31 := m[31] % 64 + 64];
    hide Clamp, Value, Pow, Digits;
    ValueUpdate(256, m, 0, m[0] - m[0] % 8);
    ValueUpdate(256, e, top, m[31] % 64 + 64);
    PowZero();
    LowThree(m);
    TopSix(m, top);
    ClampArith(Bytes.LittleEndian(m), m[0] % 8, m[31], m[31] % 64, Pow(256, top));
  }

  lemma PowZero()
    ensures Pow(256, 0) == 1
  {}

  lemma ClampArith(v: int, low: int, d: int, r: int, p: int)
    ensures v + -low * 1 + (r + 64 - d) * p == 64 * p + (v - (d - r) * p) - low
  {}

  lemma LowThree(m: seq<int>)
    requires m != []
    ensures Bytes.LittleEndian(m) % 8 == m[0] % 8
  {
    var rest := Value(256, m[1..]);
    assert Value(256, m) == m[0] + 256 * rest;
    hide Value;
    DivModShift(m[0], 8, 32 * rest);
  }

  lemma TopSix(m: seq<int>, top: nat)
    requires |m| == 32 && Digits(256, m) && top == 31
    ensures Pow(256, top) * 64 == TWO254
    ensures Bytes.LittleEndian(m) % TWO254 == Bytes.LittleEndian(m) - (m[top] - m[top] % 64) * Pow(256, top)
  {
    hide Value, Pow;
    Bytes.BytePow(top);
    ValueSnoc(256, m, top);
    assert m[..32] == m;
    ValueBound(256, m[..31]);
    TopSixArith(Value(256, m[..31]), Pow(256, top), m[top], TWO254);
  }

  lemma TopSixArith(low: int, p: int, d: int, t: int)
    requires 0 <= low < p && d >= 0 && t == 64 * p
    ensures t > 0 && (low + p * d) % t == low + p * d - (d - d % 64) * p
  {
    var q, r := d / 64, d % 64;
    MulMono(0, r, p);
    MulMono(r, 63, p);
    assert p * d == t * q + p * r by {
      assert d == 64 * q + r;
      MulDist(64 * q, r, p);
      MulAssoc(64, q, p);
      MulAssoc(64, p, q);
    }
    assert (d - r) * p == t * q by {
      assert d - r == 64 * q;
      MulAssoc(64, q, p);
      MulAssoc(64, p, q);
    }
    DivModUnique(low + p * d, t, q, low + p * r);
  }

  predicate Clamped(x: int) {
    TWO255 <= 2 * x < 2 * TWO255 && x % 8 == 0
  }

  lemma LowBitsClear(e: seq<int>)
    requires e != [] && e[0] % 8 == 0
    ensures Bytes.LittleEndian(e) % 8 == 0
  {
    var rest := Value(256, e[1..]);
    assert Value(256, e) == e[0] + 256 * rest;
    hide Value;
    DivModShift(e[0], 8, 32 * rest);
  }

  lemma TopBitsSet(e: seq<int>, top: nat)
    requires |e| == 32 && Digits(256, e) && top == 31 && 64 <= e[top] < 128
    ensures TWO255 <= 2 * Bytes.LittleEndian(e) < 2 * TWO255
  {
    hide Value, Pow;
    Bytes.BytePow(top);
    ValueSnoc(256, e, top);
    assert e[..32] == e;
    ValueBound(256, e[..31]);
    TopByteRange(e[top], Pow(256, top), Value(256, e[..31]));
  }

  lemma TopByteRange(d: int, p: int, low: int)
    requires 64 <= d < 128 && 0 <= low < p
    ensures 64 * p <= low + p * d < 128 * p
  {
    MulMono(64, d, p);
    MulMono(d, 127, p);
  }
}
