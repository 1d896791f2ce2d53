/** The fixed exponentiation chains: z^(2^255 - 21) for inverses and z^(2^252 - 3) for square roots. */
module FieldPower {
  import opened Arithmetic
  import opened Residues
  import opened Field51

  /** 2^n - 1. */
  function Ones(n: nat): nat {
    Pow2(n) - 1
  }

  lemma OnesJoin(a: nat, b: nat)
    ensures Ones(a) * Pow2(b) + Ones(b) == Ones(a + b)
  {
    Pow2Add(a, b);
    MulDist(Pow2(a), 1, Pow2(b));
  }

  /** a stands for the e-th power of x. */
  ghost predicate Is(a: Fe, x: int, e: nat) {
    Carried(a) && Fv(a) == FPow(F25519, x, e)
  }

  method Squared(a: Fe, n: u64, ghost x: int, ghost e: nat) returns (o: Fe)
    requires Is(a, x, e) && n > 0
    ensures e * Pow2(n as nat) >= 0 && Is(o, x, e * Pow2(n as nat))
  {
    hide FPow, Pow2, Fv;
    PowersCompose(F25519, x, e, Pow2(n as nat));
    o := SquareTimes(a, n);
  }

  method Times(a: Fe, b: Fe, ghost x: int, ghost e: nat, ghost f: nat) returns (o: Fe)
    requires Is(a, x, e) && Is(b, x, f)
    ensures Is(o, x, e + f)
  {
    hide FPow, Fv, FMul;
    PowersMultiply(F25519, x, e, f);
    o := FeMul(a, b);
  }

  /** n squarings of x^(2^a - 1), times x^(2^n - 1). */
  method Append(hi: Fe, lo: Fe, n: u64, ghost x: int, ghost a: nat) returns (o: Fe)
    requires Is(hi, x, Ones(a)) && n > 0 && Is(lo, x, Ones(n as nat))
    ensures Is(o, x, Ones(a + n as nat))
  {
    OnesJoin(a, n as nat);
    hide Is, Ones, Pow2;
    o := Squared(hi, n, x, Ones(a));
    o := Times(o, lo, x, Ones(a) * Pow2(n as nat), Ones(n as nat));
  }

  /** curve25519_pow_two5mtwo0_two250mtwo0. */
  method Ones250(b: Fe, ghost x: int) returns (o: Fe)
    requires Is(b, x, Ones(5))
    ensures Is(o, x, Ones(250))
  {
    hide Is, Ones;
    var b10 := Append(b, b, 5, x, 5);
    var c := Append(b10, b10, 10, x, 10);
    var t0 := Append(c, c, 20, x, 20);
    var b50 := Append(t0, b10, 10, x, 40);
    c := Append(b50, b50, 50, x, 50);
    t0 := Append(c, c, 100, x, 100);
    o := Append(t0, b50, 50, x, 200);
  }

  /** The common head of both chains: z^11 and z^(2^250 - 1). */
  method Head(z: Fe) returns (z11: Fe, o: Fe)
    requires Carried(z)
    ensures Is(z11, Fv(z), 11) && Is(o, Fv(z), Ones(250))
  {
    ghost var x := Fv(z);
    FirstPower(z);
    assert Pow2(1) == 2 && Pow2(2) == 4 && Ones(5) == 31;
    hide Is, Ones, Pow2;
    var z2 := Squared(z, 1, x, 1);
    var t0 := Squared(z2, 2, x, 2);
    var b := Times(t0, z, x, 8, 1);
    z11 := Times(b, z2, x, 9, 2);
    t0 := Squared(z11, 1, x, 11);
    b := Times(t0, b, x, 22, 9);
    o := Ones250(b, x);
  }

  lemma FirstPower(z: Fe)
    requires Carried(z)
    ensures Is(z, Fv(z), 1)
  {
    assert Pow(Fv(z), 1) == Fv(z);
    SmallMod(Fv(z), P);
  }

  /** The exponent P - 2 of the inverse. */
  function RecipExponent(): nat {
    Ones(250) * 32 + 11
  }

  /** The exponent (P - 5) / 8 of the square root. */
  function RootExponent(): nat {
    Ones(250) * 4 + 1
  }

  lemma Exponents()
    ensures RecipExponent() == P - 2 && 8 * RootExponent() == P - 5
  {
    PowerOf250(250);
  }

  lemma PowerOf250(n: nat)
    requires n == 250
    ensures 32 * Pow2(n) == P + 19
  {
    assert Pow2(5) == 32;
    hide Pow2;
    Pow2Join(5, 5, 32, 32);
    Pow2Join(10, 10, 0x400, 0x400);
    Pow2Join(20, 20, 0x100000, 0x100000);
    Pow2Join(40, 10, 0x10000000000, 0x400);
    Pow2Join(50, 50, 0x4000000000000, 0x4000000000000);
    Pow2Join(100, 100, 0x10000000000000000000000000, 0x10000000000000000000000000);
    Pow2Join(200, 50, 0x100000000000000000000000000000000000000000000000000, 0x4000000000000);
  }

  lemma Pow2Join(a: nat, b: nat, x: int, y: int)
    requires Pow2(a) == x && Pow2(b) == y
    ensures Pow2(a + b) == x * y
  {
    Pow2Add(a, b);
  }

  /** curve25519_recip. */
  method Recip(z: Fe) returns (o: Fe)
    requires Carried(z)
    ensures Is(o, Fv(z), RecipExponent())
  {
    assert Pow2(5) == 32;
    hide Ones, Pow2, Is, Fv;
    var z11, b := Head(z);
    b := Squared(b, 5, Fv(z), Ones(250));
    o := Times(b, z11, Fv(z), Ones(250) * 32, 11);
  }

  /** curve25519_pow_two252m3. */
  method PowTwo252m3(z: Fe) returns (o: Fe)
    requires Carried(z)
    ensures Is(o, Fv(z), RootExponent())
  {
    assert Pow2(2) == 4;
    FirstPower(z);
    hide Ones, Pow2, Is, Fv;
    var _, b := Head(z);
    b := Squared(b, 2, Fv(z), Ones(250));
    o := Times(b, z, Fv(z), Ones(250) * 4, 1);
  }
}
