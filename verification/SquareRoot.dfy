/**
 The square root of num/den that point decompression takes: sound whenever it
 answers, and it answers for every curve point. Fermat's little theorem is a
 hypothesis.
 */
module SquareRoot {
  import opened Arithmetic
  import opened Residues
  import opened Wrappers

  /** The candidate num * den^3 * (num * den^7)^((p - 5) / 8). */
  function Candidate(f: Field, num: int, den: int): int {
    var d3 := FMul(f, FMul(f, den, den), den);
    var w := FMul(f, FMul(f, FMul(f, d3, d3), den), num);
    FMul(f, FMul(f, FPow(f, w, (f.p - 5) / 8), d3), num)
  }

  /** A root of num/den: the candidate, the candidate times the root of -1, or none. */
  function Root(f: Field, num: int, den: int): Option<int> {
    var x := Candidate(f, num, den);
    var t := FMul(f, FMul(f, x, x), den);
    if FSub(f, t, num) == 0 then Some(x)
    else if FAdd(f, t, num) == 0 then Some(FMul(f, x, f.i))
    else None
  }

  /** Whatever Root returns is a root. */
  lemma RootSound(f: Field, num: int, den: int)
    requires Suitable(f) && Root(f, num, den).Some?
    ensures var x := Root(f, num, den).value; Eq(f, (x * x) * den, num)
  {
    var x := Candidate(f, num, den);
    hide Candidate, FMul, FSub, FAdd;
    SquareTimesDen(f, x, den);
    EqZero(f, FMul(f, FMul(f, x, x), den), num);
    if FSub(f, FMul(f, FMul(f, x, x), den), num) != 0 {
      OtherRoot(f, x, den, num);
    }
  }

  /** Multiplying a root of -num/den by the root of -1 gives a root of num/den. */
  lemma OtherRoot(f: Field, x: int, den: int, num: int)
    requires Eq(f, (x * x) * den, -num) && Eq(f, f.i * f.i, -1)
    ensures var y := FMul(f, x, f.i); Eq(f, (y * y) * den, num)
  {
    var y, s := FMul(f, x, f.i), f.i;
    EqOps(f, x, s);
    EqMul(f, y, x * s, y, x * s);
    hide FMul;
    Regroup4(x, s);
    EqMul(f, x * x, x * x, s * s, -1);
    EqMul(f, y * y, (x * x) * -1, den, den);
    EqAdd(f, 0, 0, (x * x) * den, -num);
    MulDist(0, x * x, den);
  }

  lemma Regroup4(x: int, s: int)
    ensures (x * s) * (x * s) == (x * x) * (s * s)
  {}

  lemma SquareTimesDen(f: Field, x: int, den: int)
    ensures Eq(f, FMul(f, FMul(f, x, x), den), (x * x) * den)
  {
    EqOps(f, x, x);
    EqOps(f, FMul(f, x, x), den);
    EqMul(f, FMul(f, x, x), x * x, den, den);
  }

  lemma {:induction false} PowProduct(a: int, b: int, n: nat)
    ensures Pow(a * b, n) == Pow(a, n) * Pow(b, n)
  {
    if n > 0 {
      PowProduct(a, b, n - 1);
      ProductOfFour(a, b, Pow(a, n - 1), Pow(b, n - 1));
    }
  }

  lemma ProductOfFour(a: int, b: int, c: int, d: int)
    ensures (a * b) * (c * d) == (a * c) * (b * d)
  {}

  /** The eighth power of v as the code builds it. */
  lemma PowEight(v: int, v3: int)
    requires v3 == (v * v) * v
    ensures Pow(v, 8) == ((v3 * v3) * v) * v && v3 * v == Pow(v, 4)
  {
    assert Pow(v, 2) == v * v;
    PowAdd(v, 2, 2);
    PowAdd(v, 4, 4);
    SixFold(v * v, v);
  }

  lemma SixFold(s: int, v: int)
    requires s == v * v
    ensures (s * v) * v == s * s && ((((s * v) * (s * v)) * v) * v) == (s * s) * (s * s)
  {
    MulAssoc(s, v, v);
    MulAssoc(s * v, s * v, v);
    MulAssoc((s * v), (s * v) * v, v);
    assert ((s * v) * (s * v)) * v == (s * v) * (s * s);
    MulAssoc(s * v, s * s, v);
    assert (s * v) * (s * s) * v == (s * s) * (s * s);
  }

  /** With num = x^2 den, the candidate is a power of x alone. */
  lemma CandidatePower(f: Field, x: int, v: int, v3: int, n: nat)
    requires v3 == (v * v) * v && 8 * n == f.p - 5 && Fermat(f) && Nonzero(f, v)
    ensures Eq(f, (Pow(((v3 * v3) * v) * ((x * x) * v), n) * v3) * ((x * x) * v), Pow(x, 2 * n + 2))
  {
    var v8 := Pow(v, 8);
    PowEight(v, v3);
    assert ((v3 * v3) * v) * ((x * x) * v) == (x * x) * v8 by {
      Reorder(v3 * v3, v, x * x);
    }
    PowProduct(x * x, v8, n);
    PowMul(v, 8, n);
    assert Pow(x, 2) == x * x;
    PowMul(x, 2, n);
    hide Pow;
    CollectPowers(Pow(x, 2 * n), Pow(v, 8 * n), v3, x * x, v);
    PowAdd(x, 2 * n, 2);
    PowAdd(v, 8 * n, 4);
    assert FermatAt(f, v);
    EqMul(f, Pow(x, 2 * n + 2), Pow(x, 2 * n + 2), Pow(v, 8 * n + 4), 1);
  }

  lemma Reorder(s: int, v: int, y: int)
    ensures (s * v) * (y * v) == y * ((s * v) * v)
  {}

  lemma CollectPowers(a: int, b: int, c: int, y: int, v: int)
    ensures ((a * b) * c) * (y * v) == (a * y) * (b * (c * v))
  {}

  lemma CandidateInteger(f: Field, num: int, den: int, d3: int, n: nat)
    requires d3 == (den * den) * den && n == (f.p - 5) / 8
    ensures Eq(f, Candidate(f, num, den), (Pow(((d3 * d3) * den) * num, n) * d3) * num)
  {
    var e3 := FMul(f, FMul(f, den, den), den);
    SquareTimesDen(f, den, den);
    var w6, w7 := FMul(f, e3, e3), FMul(f, FMul(f, e3, e3), den);
    SquareTimesDen(f, e3, den);
    EqMul(f, e3, d3, e3, d3);
    EqMul(f, e3 * e3, d3 * d3, den, den);
    var w := FMul(f, w7, num);
    EqOps(f, w7, num);
    EqMul(f, w7, (d3 * d3) * den, num, num);
    CongPow(w, ((d3 * d3) * den) * num, n, f.p);
    ModSelf(Pow(w, n), f.p);
    var p := FPow(f, w, n);
    EqOps(f, p, e3);
    EqMul(f, p, Pow(((d3 * d3) * den) * num, n), e3, d3);
    EqOps(f, FMul(f, p, e3), num);
    EqMul(f, FMul(f, p, e3), Pow(((d3 * d3) * den) * num, n) * d3, num, num);
  }

  /** The (p - 1)/2-th power of a nonzero x is 1 or -1. */
  lemma HalfPower(f: Field, x: int, n: nat)
    requires 8 * n == f.p - 5 && Fermat(f) && PrimeField(f) && Nonzero(f, x)
    ensures Eq(f, Pow(x, 4 * n + 2), 1) || Eq(f, Pow(x, 4 * n + 2), -1)
  {
    hide Pow, Eq;
    PowAdd(x, 4 * n + 2, 4 * n + 2);
    assert FermatAt(f, x);
    RootsOfOne(f, Pow(x, 4 * n + 2));
  }

  lemma RootsOfOne(f: Field, h: int)
    requires PrimeField(f) && Eq(f, h * h, 1)
    ensures Eq(f, h, 1) || Eq(f, h, -1)
  {
    assert (h - 1) * (h + 1) == h * h - 1;
    DifferenceZero(f, h * h, 1);
    DifferenceZero(f, h, 1);
    DifferenceZero(f, h, -1);
    assert NoZeroDivisors(f, h - 1, h + 1);
  }

  /** Replacing num by an equal residue in the candidate's integer form. */
  lemma CandidateOf(f: Field, num: int, den: int, u: int, d3: int, n: nat)
    requires d3 == (den * den) * den && n == (f.p - 5) / 8 && Eq(f, num, u)
    ensures Eq(f, Candidate(f, num, den), (Pow(((d3 * d3) * den) * u, n) * d3) * u)
  {
    hide Candidate, Pow;
    var k := (d3 * d3) * den;
    CandidateInteger(f, num, den, d3, n);
    EqMul(f, k, k, num, u);
    CongPow(k * num, k * u, n, f.p);
    EqMul(f, Pow(k * num, n), Pow(k * u, n), d3, d3);
    EqMul(f, Pow(k * num, n) * d3, Pow(k * u, n) * d3, num, u);
  }

  lemma TestValue(f: Field, x0: int, x: int, den: int, n: nat)
    requires Eq(f, x0, Pow(x, 2 * n + 2))
    ensures Eq(f, (x0 * x0) * den, Pow(x, 4 * n + 2) * ((x * x) * den))
  {
    var p := Pow(x, 2 * n + 2);
    EqMul(f, x0, p, x0, p);
    EqMul(f, x0 * x0, p * p, den, den);
    PowAdd(x, 2 * n + 2, 2 * n + 2);
    assert Pow(x, 2) == x * x;
    PowAdd(x, 4 * n + 2, 2);
    MulAssoc(Pow(x, 4 * n + 2), x * x, den);
  }

  /** Root finds a root whenever there is one. */
  lemma RootComplete(f: Field, num: int, den: int, x: int)
    requires Suitable(f) && Fermat(f) && PrimeField(f) && Nonzero(f, den) && Eq(f, num, (x * x) * den)
    ensures Root(f, num, den).Some?
  {
    hide Fermat, PrimeField, Candidate, Pow, FMul, FSub, FAdd;
    var u, d3, n := (x * x) * den, (den * den) * den, (f.p - 5) / 8;
    CandidateOf(f, num, den, u, d3, n);
    CandidatePower(f, x, den, d3, n);
    var x0 := Candidate(f, num, den);
    TestValue(f, x0, x, den, n);
    SquareTimesDen(f, x0, den);
    var t, h := FMul(f, FMul(f, x0, x0), den), Pow(x, 4 * n + 2);
    EqMul(f, h, h, u, num);
    EqZero(f, t, num);
    SignedTest(f, t, h, num, u, x, den, n);
  }

  lemma SignedTest(f: Field, t: int, h: int, num: int, u: int, x: int, den: int, n: nat)
    requires Fermat(f) && PrimeField(f) && 8 * n == f.p - 5 && h == Pow(x, 4 * n + 2)
    requires u == (x * x) * den && Eq(f, num, u) && Eq(f, t, h * num)
    ensures Eq(f, t, num) || Eq(f, t, -num)
  {
    if Nonzero(f, x) {
      HalfPower(f, x, n);
      if Eq(f, h, 1) {
        EqMul(f, h, 1, num, num);
      } else {
        EqMul(f, h, -1, num, num);
      }
    } else {
      hide Pow;
      EqMul(f, x, 0, x, 0);
      EqMul(f, x * x, 0, den, den);
      EqMul(f, h, h, num, 0);
    }
  }
}
