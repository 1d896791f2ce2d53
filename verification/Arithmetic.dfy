/** Integer facts shared by every limb, digit and group proof. */
module Arithmetic {
  function Min(a: int, b: int): int {
    if a < b then a else b
  }

  /** b to the power e. */
  function Pow(b: int, e: nat): (r: int)
    ensures b >= 1 ==> r >= 1
    decreases e
  {
    if e == 0 then 1 else b * Pow(b, e - 1)
  }

  /** The word shifts and limb radices of the C code are all powers of two. */
  function Pow2(e: nat): (r: nat)
    ensures r >= 1
  {
    if e == 0 then 1 else 2 * Pow2(e - 1)
  }

  lemma {:induction false} Pow2Add(a: nat, b: nat)
    ensures Pow2(a + b) == Pow2(a) * Pow2(b)
  {
    if b > 0 {
      Pow2Add(a, b - 1);
      assert Pow2(a) * Pow2(b) == 2 * (Pow2(a) * Pow2(b - 1));
    }
  }

  lemma {:induction false} Pow2Mono(a: nat, b: nat)
    requires a <= b
    ensures Pow2(a) <= Pow2(b)
  {
    if a < b {
      Pow2Mono(a, b - 1);
    }
  }

  lemma Pow2StrictMono(a: nat, b: nat)
    requires a < b
    ensures 2 * Pow2(a) <= Pow2(b)
  {
    Pow2Mono(a + 1, b);
  }

  lemma {:induction false} PowOfPow2(w: nat, k: nat)
    ensures w * k >= 0
    ensures Pow(Pow2(w), k) == Pow2(w * k)
  {
    if k > 0 {
      PowOfPow2(w, k - 1);
      assert w * k == w * (k - 1) + w;
      Pow2Add(w * (k - 1), w);
    } else {
      assert w * k == 0;
    }
  }

  lemma {:induction false} PowAdd(b: int, i: nat, j: nat)
    ensures Pow(b, i + j) == Pow(b, i) * Pow(b, j)
  {
    if i > 0 {
      PowAdd(b, i - 1, j);
      MulAssoc(b, Pow(b, i - 1), Pow(b, j));
    }
  }

  lemma {:induction false} PowMul(b: int, i: nat, j: nat)
    ensures i * j >= 0
    ensures Pow(Pow(b, i), j) == Pow(b, i * j)
  {
    if j > 0 {
      PowMul(b, i, j - 1);
      assert i * j == i + i * (j - 1);
      PowAdd(b, i, i * (j - 1));
    } else {
      assert i * j == 0;
    }
  }

  lemma PowSquare(b: int, n: nat, v: int)
    requires Pow(b, n) == v
    ensures Pow(b, 2 * n) == v * v
  {
    PowAdd(b, n, n);
  }

  lemma MulAssoc(x: int, y: int, z: int)
    ensures (x * y) * z == x * (y * z)
  {}

  lemma MulDist(x: int, y: int, z: int)
    ensures (x + y) * z == x * z + y * z
    ensures (x - y) * z == x * z - y * z
    ensures z * (x + y) == z * x + z * y
    ensures z * (x - y) == z * x - z * y
  {}

  lemma MulMono(a: int, b: int, c: int)
    requires a <= b && c >= 0
    ensures a * c <= b * c
  {}

  /** Quotient and remainder are determined by x = q*d + r with 0 <= r < d. */
  lemma DivModUnique(x: int, d: int, q: int, r: int)
    requires x == q * d + r && 0 <= r < d
    ensures x / d == q && x % d == r
  {
    var q', r' := x / d, x % d;
    assert (q - q') * d == r' - r && (q' - q) * d == r - r';
    if q > q' {
      MulMono(1, q - q', d);
    } else if q < q' {
      MulMono(1, q' - q, d);
    }
  }

  lemma DivModSplit(x: int, d: int, q: int, r: int)
    requires x == r + d * q && 0 <= r < d
    ensures x / d == q && x % d == r
  {
    DivModUnique(x, d, q, r);
  }

  lemma SmallMod(x: int, d: int)
    requires 0 <= x < d
    ensures x % d == x && x / d == 0
  {
    DivModUnique(x, d, 0, x);
  }

  /** A higher digit outweighs everything below it. */
  lemma Outweighs(x: int, y: int, p: int, d: int)
    requires 0 <= x < p && 0 <= y < p
    ensures d > 0 ==> x + p * d > y
    ensures d < 0 ==> x + p * d < y
  {
    if d > 0 {
      MulMono(1, d, p);
    } else if d < 0 {
      MulMono(d, -1, p);
    }
  }

  lemma TopDigit(x: int, y: int, p: int, c: int, d: int)
    requires 0 <= x < p && 0 <= y < p
    ensures c > d ==> x + p * c > y + p * d
    ensures c < d ==> x + p * c < y + p * d
  {
    Outweighs(x, y, p, c - d);
    assert p * (c - d) == p * c - p * d;
  }

  /** With a smaller part below it, a top digit is below k exactly when the whole is below k units. */
  lemma TopBelow(low: int, p: int, d: int, k: int)
    requires 0 <= low < p
    ensures low + p * d < k * p <==> d < k
  {
    if d < k {
      MulMono(d, k - 1, p);
      MulDist(k, 1, p);
    } else {
      MulMono(k, d, p);
    }
  }

  lemma QuotientBelow(x: int, d: int, q: int)
    requires 0 <= x < d * q && d >= 1
    ensures 0 <= x / d < q
  {
    DivNonneg(x, d);
    if x / d >= q {
      MulMono(q, x / d, d);
    }
  }

  /** Adding a multiple of d does not change the remainder and shifts the quotient. */
  lemma DivModShift(x: int, d: int, k: int)
    requires d > 0
    ensures (x + k * d) % d == x % d
    ensures (x + k * d) / d == x / d + k
  {
    assert x + k * d == (x / d + k) * d + x % d;
    DivModUnique(x + k * d, d, x / d + k, x % d);
  }

  lemma DivNonneg(x: int, d: int)
    requires x >= 0 && d > 0
    ensures 0 <= x / d <= x
  {
    var q := x / d;
    assert x == d * q + x % d;
    if q < 0 {
      MulMono(q, -1, d);
    } else {
      MulMono(1, d, q);
    }
  }

  lemma DivMono(x: int, y: int, d: int)
    requires d > 0 && x <= y
    ensures x / d <= y / d
  {
    if x / d > y / d {
      MulMono(y / d + 1, x / d, d);
    }
  }

  /** floor(floor(x / a) / b) = floor(x / (a*b)), with the matching remainder. */
  lemma DivDiv(x: int, a: int, b: int)
    requires a > 0 && b > 0
    ensures a * b > 0
    ensures x / a / b == x / (a * b)
    ensures x % (a * b) == x % a + a * ((x / a) % b)
  {
    MulMono(1, b, a);
    var q, r := x / a, x % a;
    var q2, r2 := q / b, q % b;
    assert a * q2 * b == q2 * (a * b);
    assert x == q * a + r;
    assert q == q2 * b + r2;
    assert (q2 * b + r2) * a == q2 * (a * b) + r2 * a;
    MulMono(r2, b - 1, a);
    assert (b - 1) * a == a * b - a;
    DivModUnique(x, a * b, q2, r2 * a + r);
  }

  /** Congruence modulo m, stated with an explicit multiple. */
  ghost predicate Cong(x: int, y: int, m: int)
    requires m > 0
  {
    x % m == y % m
  }

  lemma CongBy(x: int, y: int, m: int, k: int)
    requires m > 0 && x == y + k * m
    ensures Cong(x, y, m)
  {
    DivModShift(y, m, k);
  }

  lemma CongWitness(x: int, y: int, m: int) returns (k: int)
    requires m > 0 && Cong(x, y, m)
    ensures x == y + k * m
  {
    k := x / m - y / m;
    assert (x / m - y / m) * m == x / m * m - y / m * m;
  }

  lemma ProductOfShifts(b: int, d: int, i: int, j: int, m: int)
    ensures (b + i * m) * (d + j * m) == b * d + (b * j + i * d + i * (j * m)) * m
  {
    MulDist(b, i * m, d + j * m);
    MulDist(d, j * m, b);
    MulDist(d, j * m, i * m);
    MulAssoc(b, j, m);
    MulAssoc(i, m, d);
    MulAssoc(i, d, m);
    MulAssoc(i, m, j * m);
    MulAssoc(i, j * m, m);
    MulDist(b * j + i * d, i * (j * m), m);
    MulDist(b * j, i * d, m);
  }

  lemma CongMul(a: int, b: int, c: int, d: int, m: int)
    requires m > 0 && Cong(a, b, m) && Cong(c, d, m)
    ensures Cong(a * c, b * d, m)
  {
    var i := CongWitness(a, b, m);
    var j := CongWitness(c, d, m);
    ProductOfShifts(b, d, i, j, m);
    CongBy(a * c, b * d, m, b * j + i * d + i * (j * m));
  }

  lemma CongAdd(a: int, b: int, c: int, d: int, m: int)
    requires m > 0 && Cong(a, b, m) && Cong(c, d, m)
    ensures Cong(a + c, b + d, m)
    ensures Cong(a - c, b - d, m)
  {
    var i := CongWitness(a, b, m);
    var j := CongWitness(c, d, m);
    assert (i + j) * m == i * m + j * m;
    assert (i - j) * m == i * m - j * m;
    CongBy(a + c, b + d, m, i + j);
    CongBy(a - c, b - d, m, i - j);
  }

  lemma {:induction false} CongPow(a: int, b: int, e: nat, m: int)
    requires m > 0 && Cong(a, b, m)
    ensures Cong(Pow(a, e), Pow(b, e), m)
  {
    if e > 0 {
      CongPow(a, b, e - 1, m);
      CongMul(a, b, Pow(a, e - 1), Pow(b, e - 1), m);
    }
  }
}
