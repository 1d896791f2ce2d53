/**
 Arithmetic modulo p, for any modulus: congruence, the field operations on least
 residues, and powers. That p is prime enters as two named hypotheses.
 */
module Residues {
  import opened Arithmetic

  type Modulus = m: int | m > 5 witness 7

  /** A modulus with the curve constant d and a root i of -1. */
  datatype Field = Field(p: Modulus, d: int, i: int)

  /** What the square roots use of the constants. */
  ghost predicate Suitable(f: Field) {
    f.p % 8 == 5 && Eq(f, f.i * f.i, -1) && Nonzero(f, f.d + 1)
  }

  ghost predicate Eq(f: Field, a: int, b: int) {
    Cong(a, b, f.p)
  }

  lemma EqMul(f: Field, a: int, b: int, x: int, y: int)
    requires Eq(f, a, b) && Eq(f, x, y)
    ensures Eq(f, a * x, b * y)
  {
    CongMul(a, b, x, y, f.p);
  }

  lemma EqAdd(f: Field, a: int, b: int, x: int, y: int)
    requires Eq(f, a, b) && Eq(f, x, y)
    ensures Eq(f, a + x, b + y) && Eq(f, a - x, b - y)
  {
    CongAdd(a, b, x, y, f.p);
  }

  function FAdd(f: Field, x: int, y: int): int {
    (x + y) % f.p
  }

  function FSub(f: Field, x: int, y: int): int {
    (x - y) % f.p
  }

  function FMul(f: Field, x: int, y: int): int {
    (x * y) % f.p
  }

  function FPow(f: Field, x: int, e: nat): int {
    Pow(x, e) % f.p
  }

  lemma ModSelf(x: int, m: int)
    requires m > 0
    ensures Cong(x, x % m, m)
  {
    SmallMod(x % m, m);
  }

  lemma EqOps(f: Field, x: int, y: int)
    ensures Eq(f, FAdd(f, x, y), x + y) && Eq(f, FSub(f, x, y), x - y) && Eq(f, FMul(f, x, y), x * y)
  {
    ModSelf(x + y, f.p);
    ModSelf(x - y, f.p);
    ModSelf(x * y, f.p);
  }

  /** Operations may be done on residues. */
  lemma ReducedOps(f: Field, x: int, y: int)
    ensures (x + y) % f.p == FAdd(f, x % f.p, y % f.p)
    ensures (x - y) % f.p == FSub(f, x % f.p, y % f.p)
    ensures (x * y) % f.p == FMul(f, x % f.p, y % f.p)
  {
    ModSelf(x, f.p);
    ModSelf(y, f.p);
    CongAdd(x, x % f.p, y, y % f.p, f.p);
    CongMul(x, x % f.p, y, y % f.p, f.p);
  }

  lemma DifferenceZero(f: Field, a: int, b: int)
    ensures (a - b) % f.p == 0 <==> a % f.p == b % f.p
  {
    DivModUnique(0, f.p, 0, 0);
    if a % f.p == b % f.p {
      CongAdd(a, b, b, b, f.p);
    }
    if (a - b) % f.p == 0 {
      CongAdd(a - b, 0, b, b, f.p);
    }
  }

  lemma EqZero(f: Field, a: int, b: int)
    ensures FSub(f, a, b) == 0 <==> Eq(f, a, b)
    ensures FAdd(f, a, b) == 0 <==> Eq(f, a, -b)
  {
    DifferenceZero(f, a, b);
    DifferenceZero(f, a, -b);
  }

  ghost predicate Nonzero(f: Field, a: int) {
    a % f.p != 0
  }

  ghost predicate NoZeroDivisors(f: Field, a: int, b: int) {
    Nonzero(f, a) && Nonzero(f, b) ==> Nonzero(f, a * b)
  }

  /** Hypothesis: p has no zero divisors. */
  ghost predicate PrimeField(f: Field) {
    forall a, b {:trigger NoZeroDivisors(f, a, b)} :: NoZeroDivisors(f, a, b)
  }

  lemma NonzeroMul(f: Field, a: int, b: int)
    requires PrimeField(f) && Nonzero(f, a) && Nonzero(f, b)
    ensures Nonzero(f, a * b)
  {
    assert NoZeroDivisors(f, a, b);
  }

  lemma PowersMultiply(f: Field, x: int, e: nat, k: nat)
    ensures FMul(f, FPow(f, x, e), FPow(f, x, k)) == FPow(f, x, e + k)
  {
    PowAdd(x, e, k);
    ReducedOps(f, Pow(x, e), Pow(x, k));
  }

  lemma PowersCompose(f: Field, x: int, e: nat, k: nat)
    ensures e * k >= 0 && FPow(f, FPow(f, x, e), k) == FPow(f, x, e * k)
  {
    PowMul(x, e, k);
    ModSelf(Pow(x, e), f.p);
    CongPow(Pow(x, e), FPow(f, x, e), k, f.p);
  }

  ghost predicate FermatAt(f: Field, z: int) {
    Nonzero(f, z) ==> Eq(f, Pow(z, f.p - 1), 1)
  }

  /** Hypothesis: Fermat's little theorem for p. */
  ghost predicate Fermat(f: Field) {
    forall z {:trigger FermatAt(f, z)} :: FermatAt(f, z)
  }

  /** Inverses by exponentiation. */
  lemma Inverse(f: Field, z: int, e: nat)
    requires Fermat(f) && Nonzero(f, z) && e == f.p - 2
    ensures Eq(f, z * FPow(f, z, e), 1)
  {
    assert FermatAt(f, z);
    ModSelf(Pow(z, e), f.p);
    EqMul(f, z, z, FPow(f, z, e), Pow(z, e));
    assert Pow(z, e + 1) == z * Pow(z, e);
  }

  /** Dividing by Z recovers the affine coordinate. */
  lemma Affine(f: Field, x: int, z: int, u: int, e: nat)
    requires Fermat(f) && Nonzero(f, z) && Eq(f, x, u * z) && e == f.p - 2
    ensures FMul(f, x, FPow(f, z, e)) == u % f.p
  {
    Inverse(f, z, e);
    hide FPow, Fermat;
    var zi := FPow(f, z, e);
    EqMul(f, x, u * z, zi, zi);
    MulAssoc(u, z, zi);
    EqMul(f, u, u, z * zi, 1);
  }

  /** The exponentiation takes a multiple of p to 0. */
  lemma {:induction false} ZeroPower(f: Field, z: int, e: nat)
    requires !Nonzero(f, z) && e >= 1
    ensures FPow(f, z, e) == 0
  {
    SmallMod(0, f.p);
    CongMul(z, 0, Pow(z, e - 1), Pow(z, e - 1), f.p);
  }
}
