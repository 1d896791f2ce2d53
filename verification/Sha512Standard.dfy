/**
 What the constants and the bit operations of SHA-512 are, by section of FIPS 180-4
 and without the definitions the code is proved against.
 */
module Sha512Standard {
  import opened Arithmetic
  import opened Limbs
  import opened Sha512Compress
  import opened Sha512

  ghost predicate IsPrime(n: int) {
    n >= 2 && forall d :: 2 <= d < n ==> n % d != 0
  }

  /** The first eighty primes, eight to a row. */
  const PRIMES: seq<seq<int>> := [
    [2, 3, 5, 7, 11, 13, 17, 19],
    [23, 29, 31, 37, 41, 43, 47, 53],
    [59, 61, 67, 71, 73, 79, 83, 89],
    [97, 101, 103, 107, 109, 113, 127, 131],
    [137, 139, 149, 151, 157, 163, 167, 173],
    [179, 181, 191, 193, 197, 199, 211, 223],
    [227, 229, 233, 239, 241, 251, 257, 263],
    [269, 271, 277, 281, 283, 293, 307, 311],
    [313, 317, 331, 337, 347, 349, 353, 359],
    [367, 373, 379, 383, 389, 397, 401, 409]
  ]

  function Prime(t: nat): int
    requires t < 80
  {
    PRIMES[t / 8][t % 8]
  }

  /** q is the first prime after p. */
  ghost predicate NextPrime(p: int, q: int) {
    p < q && IsPrime(q) && forall n :: p < n < q ==> !IsPrime(n)
  }

  /** No prime up to 19 divides n, unless it is n. */
  predicate Sieved(n: int) {
    && (n % 2 != 0 || n == 2) && (n % 3 != 0 || n == 3) && (n % 5 != 0 || n == 5) && (n % 7 != 0 || n == 7)
    && (n % 11 != 0 || n == 11) && (n % 13 != 0 || n == 13) && (n % 17 != 0 || n == 17) && (n % 19 != 0 || n == 19)
  }

  lemma DividesThrough(n: int, e: int, p: int)
    requires e >= 1 && p >= 1 && n % e == 0 && e % p == 0
    ensures n % p == 0
  {
    var k, j := n / e, e / p;
    assert n == e * k && e == p * j;
    MulAssoc(p, j, k);
    DivModUnique(n, p, j * k, 0);
  }

  lemma SmallDivisor(n: int, e: int)
    requires 2 <= e <= 22 && e < n && n % e == 0
    ensures !Sieved(n)
  {
    var p := if e % 2 == 0 then 2 else if e % 3 == 0 then 3 else e;
    hide Sieved;
    assert e % p == 0;
    DividesThrough(n, e, p);
    SieveFails(n, p);
  }

  lemma SieveFails(n: int, p: int)
    requires 0 < p < n && n % p == 0
    requires p == 2 || p == 3 || p == 5 || p == 7 || p == 11 || p == 13 || p == 17 || p == 19
    ensures !Sieved(n)
  {}

  /** A divisor or its cofactor is below 23. */
  lemma DivisorFound(n: int, d: int)
    requires 2 <= d < n < 529 && n % d == 0
    ensures !Sieved(n)
  {
    var q := n / d;
    assert n == d * q;
    if d <= 22 {
      SmallDivisor(n, d);
    } else {
      if q <= 1 {
        MulMono(q, 1, d);
      } else if q >= 23 {
        MulMono(23, d, 23);
        MulMono(23, q, d);
      }
      DivModUnique(n, q, d, 0);
      SmallDivisor(n, q);
    }
  }

  lemma SieveTest(n: int)
    requires 2 <= n < 529
    ensures IsPrime(n) <==> Sieved(n)
  {
    if Sieved(n) {
      forall d | 2 <= d < n ensures n % d != 0 {
        if n % d == 0 {
          DivisorFound(n, d);
        }
      }
    }
  }

  /** No number from n up to q passes the sieve. */
  predicate Gap(n: int, q: int)
    decreases q - n
  {
    n >= q || (!Sieved(n) && Gap(n + 1, q))
  }

  lemma {:induction false} GapHolds(n: int, q: int)
    requires 2 <= n <= q < 529 && Gap(n, q)
    ensures forall k :: n <= k < q ==> !IsPrime(k)
    decreases q - n
  {
    hide IsPrime, Sieved;
    if n < q {
      SieveTest(n);
      GapHolds(n + 1, q);
    }
  }

  /** q is the first prime from n on. */
  lemma First(n: int, q: int)
    requires 3 <= n <= q < 529 && Sieved(q) && Gap(n, q)
    ensures NextPrime(n - 1, q)
  {
    hide IsPrime, Sieved, Gap;
    SieveTest(q);
    GapHolds(n, q);
  }

  ghost predicate PrimeAt(t: nat)
    requires t < 79
  {
    NextPrime(Prime(t), Prime(t + 1))
  }

  lemma Primes0()
    ensures PrimeAt(0) && PrimeAt(1) && PrimeAt(2) && PrimeAt(3) && PrimeAt(4) && PrimeAt(5) && PrimeAt(6) && PrimeAt(7)
  {
    hide NextPrime;
    First(3, 3);
    First(4, 5);
    First(6, 7);
    First(8, 11);
    First(12, 13);
    First(14, 17);
    First(18, 19);
    First(20, 23);
  }

  lemma Primes1()
    ensures PrimeAt(8) && PrimeAt(9) && PrimeAt(10) && PrimeAt(11) && PrimeAt(12) && PrimeAt(13) && PrimeAt(14) && PrimeAt(15)
  {
    hide NextPrime;
    First(24, 29);
    First(30, 31);
    First(32, 37);
    First(38, 41);
    First(42, 43);
    First(44, 47);
    First(48, 53);
    First(54, 59);
  }

  lemma Primes2()
    ensures PrimeAt(16) && PrimeAt(17) && PrimeAt(18) && PrimeAt(19) && PrimeAt(20) && PrimeAt(21) && PrimeAt(22) && PrimeAt(23)
  {
    hide NextPrime;
    First(60, 61);
    First(62, 67);
    First(68, 71);
    First(72, 73);
    First(74, 79);
    First(80, 83);
    First(84, 89);
    First(90, 97);
  }

  lemma Primes3()
    ensures PrimeAt(24) && PrimeAt(25) && PrimeAt(26) && PrimeAt(27) && PrimeAt(28) && PrimeAt(29) && PrimeAt(30) && PrimeAt(31)
  {
    hide NextPrime;
    First(98, 101);
    First(102, 103);
    First(104, 107);
    First(108, 109);
    First(110, 113);
    First(114, 127);
    First(128, 131);
    First(132, 137);
  }

  lemma Primes4()
    ensures PrimeAt(32) && PrimeAt(33) && PrimeAt(34) && PrimeAt(35) && PrimeAt(36) && PrimeAt(37) && PrimeAt(38) && PrimeAt(39)
  {
    hide NextPrime;
    First(138, 139);
    First(140, 149);
    First(150, 151);
    First(152, 157);
    First(158, 163);
    First(164, 167);
    First(168, 173);
    First(174, 179);
  }

  lemma Primes5()
    ensures PrimeAt(40) && PrimeAt(41) && PrimeAt(42) && PrimeAt(43) && PrimeAt(44) && PrimeAt(45) && PrimeAt(46) && PrimeAt(47)
  {
    hide NextPrime;
    First(180, 181);
    First(182, 191);
    First(192, 193);
    First(194, 197);
    First(198, 199);
    First(200, 211);
    First(212, 223);
    First(224, 227);
  }

  lemma Primes6()
    ensures PrimeAt(48) && PrimeAt(49) && PrimeAt(50) && PrimeAt(51) && PrimeAt(52) && PrimeAt(53) && PrimeAt(54) && PrimeAt(55)
  {
    hide NextPrime;
    First(228, 229);
    First(230, 233);
    First(234, 239);
    First(240, 241);
    First(242, 251);
    First(252, 257);
    First(258, 263);
    First(264, 269);
  }

  lemma Primes7()
    ensures PrimeAt(56) && PrimeAt(57) && PrimeAt(58) && PrimeAt(59) && PrimeAt(60) && PrimeAt(61) && PrimeAt(62) && PrimeAt(63)
  {
    hide NextPrime;
    First(270, 271);
    First(272, 277);
    First(278, 281);
    First(282, 283);
    First(284, 293);
    First(294, 307);
    First(308, 311);
    First(312, 313);
  }

  lemma Primes8()
    ensures PrimeAt(64) && PrimeAt(65) && PrimeAt(66) && PrimeAt(67) && PrimeAt(68) && PrimeAt(69) && PrimeAt(70) && PrimeAt(71)
  {
    hide NextPrime;
    First(314, 317);
    First(318, 331);
    First(332, 337);
    First(338, 347);
    First(348, 349);
    First(350, 353);
    First(354, 359);
    First(360, 367);
  }

  lemma Primes9()
    ensures PrimeAt(72) && PrimeAt(73) && PrimeAt(74) && PrimeAt(75) && PrimeAt(76) && PrimeAt(77) && PrimeAt(78)
  {
    hide NextPrime;
    First(368, 373);
    First(374, 379);
    First(380, 383);
    First(384, 389);
    First(390, 397);
    First(398, 401);
    First(402, 409);
  }

  /** Every entry is the first prime after the one before it, and the first is 2. */
  lemma PrimesInOrder(t: nat)
    requires t < 79
    ensures Prime(0) == 2 && NextPrime(Prime(t), Prime(t + 1))
  {
    hide NextPrime, Prime;
    assert Prime(0) == 2 by {
      FirstPrime();
    }
    Primes0();
    Primes1();
    Primes2();
    Primes3();
    Primes4();
    Primes5();
    Primes6();
    Primes7();
    Primes8();
    Primes9();
    assert PrimeAt(t);
  }

  lemma FirstPrime()
    ensures Prime(0) == 2
  {}

  const TWO192: int := TWO64 * TWO64 * TWO64

  /** The integer part of the cube root of p. */
  function CubeRoot(p: int): int {
    if p < 8 then 1 else if p < 27 then 2 else if p < 64 then 3 else if p < 125 then 4
    else if p < 216 then 5 else if p < 343 then 6 else 7
  }

  function Cube(z: int): int {
    z * z * z
  }

  /** x is the integer part of the cube root of y. */
  ghost predicate FloorCubeRoot(x: int, y: int) {
    x >= 0 && forall z: nat {:trigger Cube(z)} :: Cube(z) <= y <==> z <= x
  }

  lemma CubeMono(x: int, z: int)
    requires 0 <= x <= z
    ensures Cube(x) <= Cube(z)
  {
    MulMono(x, z, x);
    MulMono(x, z, z);
    MulMono(x * x, z * z, x);
    MulMono(x, z, z * z);
  }

  lemma CubeBetween(x: int, y: int)
    requires x >= 0 && Cube(x) <= y < Cube(x + 1)
    ensures FloorCubeRoot(x, y)
  {
    hide Cube;
    forall z: nat ensures Cube(z) <= y <==> z <= x {
      if z <= x {
        CubeMono(z, x);
      } else {
        CubeMono(x + 1, z);
      }
    }
  }

  /** k is the first 64 bits of the fractional part of the cube root of p. */
  ghost predicate CubeRootBits(p: int, k: int) {
    0 <= k < TWO64 && FloorCubeRoot(CubeRoot(p) * TWO64 + k, p * TWO192)
  }

  ghost predicate ConstantAt(t: nat)
    requires t < 80
  {
    CubeRootBits(Prime(t), K[t / 4][t % 4])
  }

  /** The integer and fractional part of the root together. */
  function RootAt(t: nat): int
    requires t < 80
  {
    CubeRoot(Prime(t)) * TWO64 + K[t / 4][t % 4]
  }

  lemma Row0()
    ensures ConstantAt(0) && ConstantAt(1) && ConstantAt(2) && ConstantAt(3)
  {
    CubeBetween(RootAt(0), Prime(0) * TWO192);
    CubeBetween(RootAt(1), Prime(1) * TWO192);
    CubeBetween(RootAt(2), Prime(2) * TWO192);
    CubeBetween(RootAt(3), Prime(3) * TWO192);
    hide FloorCubeRoot;
  }

  lemma Row1()
    ensures ConstantAt(4) && ConstantAt(5) && ConstantAt(6) && ConstantAt(7)
  {
    CubeBetween(RootAt(4), Prime(4) * TWO192);
    CubeBetween(RootAt(5), Prime(5) * TWO192);
    CubeBetween(RootAt(6), Prime(6) * TWO192);
    CubeBetween(RootAt(7), Prime(7) * TWO192);
    hide FloorCubeRoot;
  }

  lemma Row2()
    ensures ConstantAt(8) && ConstantAt(9) && ConstantAt(10) && ConstantAt(11)
  {
    CubeBetween(RootAt(8), Prime(8) * TWO192);
    CubeBetween(RootAt(9), Prime(9) * TWO192);
    CubeBetween(RootAt(10), Prime(10) * TWO192);
    CubeBetween(RootAt(11), Prime(11) * TWO192);
    hide FloorCubeRoot;
  }

  lemma Row3()
    ensures ConstantAt(12) && ConstantAt(13) && ConstantAt(14) && ConstantAt(15)
  {
    CubeBetween(RootAt(12), Prime(12) * TWO192);
    CubeBetween(RootAt(13), Prime(13) * TWO192);
    CubeBetween(RootAt(14), Prime(14) * TWO192);
    CubeBetween(RootAt(15), Prime(15) * TWO192);
    hide FloorCubeRoot;
  }

  lemma Row4()
    ensures ConstantAt(16) && ConstantAt(17) && ConstantAt(18) && ConstantAt(19)
  {
    CubeBetween(RootAt(16), Prime(16) * TWO192);
    CubeBetween(RootAt(17), Prime(17) * TWO192);
    CubeBetween(RootAt(18), Prime(18) * TWO192);
    CubeBetween(RootAt(19), Prime(19) * TWO192);
    hide FloorCubeRoot;
  }

  lemma Row5()
    ensures ConstantAt(20) && ConstantAt(21) && ConstantAt(22) && ConstantAt(23)
  {
    CubeBetween(RootAt(20), Prime(20) * TWO192);
    CubeBetween(RootAt(21), Prime(21) * TWO192);
    CubeBetween(RootAt(22), Prime(22) * TWO192);
    CubeBetween(RootAt(23), Prime(23) * TWO192);
    hide FloorCubeRoot;
  }

  lemma Row6()
    ensures ConstantAt(24) && ConstantAt(25) && ConstantAt(26) && ConstantAt(27)
  {
    CubeBetween(RootAt(24), Prime(24) * TWO192);
    CubeBetween(RootAt(25), Prime(25) * TWO192);
    CubeBetween(RootAt(26), Prime(26) * TWO192);
    CubeBetween(RootAt(27), Prime(27) * TWO192);
    hide FloorCubeRoot;
  }

  lemma Row7()
    ensures ConstantAt(28) && ConstantAt(29) && ConstantAt(30) && ConstantAt(31)
  {
    CubeBetween(RootAt(28), Prime(28) * TWO192);
    CubeBetween(RootAt(29), Prime(29) * TWO192);
    CubeBetween(RootAt(30), Prime(30) * TWO192);
    CubeBetween(RootAt(31), Prime(31) * TWO192);
    hide FloorCubeRoot;
  }

  lemma Row8()
    ensures ConstantAt(32) && ConstantAt(33) && ConstantAt(34) && ConstantAt(35)
  {
    CubeBetween(RootAt(32), Prime(32) * TWO192);
    CubeBetween(RootAt(33), Prime(33) * TWO192);
    CubeBetween(RootAt(34), Prime(34) * TWO192);
    CubeBetween(RootAt(35), Prime(35) * TWO192);
    hide FloorCubeRoot;
  }

  lemma Row9()
    ensures ConstantAt(36) && ConstantAt(37) && ConstantAt(38) && ConstantAt(39)
  {
    CubeBetween(RootAt(36), Prime(36) * TWO192);
    CubeBetween(RootAt(37), Prime(37) * TWO192);
    CubeBetween(RootAt(38), Prime(38) * TWO192);
    CubeBetween(RootAt(39), Prime(39) * TWO192);
    hide FloorCubeRoot;
  }

  lemma Row10()
    ensures ConstantAt(40) && ConstantAt(41) && ConstantAt(42) && ConstantAt(43)
  {
    CubeBetween(RootAt(40), Prime(40) * TWO192);
    CubeBetween(RootAt(41), Prime(41) * TWO192);
    CubeBetween(RootAt(42), Prime(42) * TWO192);
    CubeBetween(RootAt(43), Prime(43) * TWO192);
    hide FloorCubeRoot;
  }

  lemma Row11()
    ensures ConstantAt(44) && ConstantAt(45) && ConstantAt(46) && ConstantAt(47)
  {
    CubeBetween(RootAt(44), Prime(44) * TWO192);
    CubeBetween(RootAt(45), Prime(45) * TWO192);
    CubeBetween(RootAt(46), Prime(46) * TWO192);
    CubeBetween(RootAt(47), Prime(47) * TWO192);
    hide FloorCubeRoot;
  }

  lemma Row12()
    ensures ConstantAt(48) && ConstantAt(49) && ConstantAt(50) && ConstantAt(51)
  {
    CubeBetween(RootAt(48), Prime(48) * TWO192);
    CubeBetween(RootAt(49), Prime(49) * TWO192);
    CubeBetween(RootAt(50), Prime(50) * TWO192);
    CubeBetween(RootAt(51), Prime(51) * TWO192);
    hide FloorCubeRoot;
  }

  lemma Row13()
    ensures ConstantAt(52) && ConstantAt(53) && ConstantAt(54) && ConstantAt(55)
  {
    CubeBetween(RootAt(52), Prime(52) * TWO192);
    CubeBetween(RootAt(53), Prime(53) * TWO192);
    CubeBetween(RootAt(54), Prime(54) * TWO192);
    CubeBetween(RootAt(55), Prime(55) * TWO192);
    hide FloorCubeRoot;
  }

  lemma Row14()
    ensures ConstantAt(56) && ConstantAt(57) && ConstantAt(58) && ConstantAt(59)
  {
    CubeBetween(RootAt(56), Prime(56) * TWO192);
    CubeBetween(RootAt(57), Prime(57) * TWO192);
    CubeBetween(RootAt(58), Prime(58) * TWO192);
    CubeBetween(RootAt(59), Prime(59) * TWO192);
    hide FloorCubeRoot;
  }

  lemma Row15()
    ensures ConstantAt(60) && ConstantAt(61) && ConstantAt(62) && ConstantAt(63)
  {
    CubeBetween(RootAt(60), Prime(60) * TWO192);
    CubeBetween(RootAt(61), Prime(61) * TWO192);
    CubeBetween(RootAt(62), Prime(62) * TWO192);
    CubeBetween(RootAt(63), Prime(63) * TWO192);
    hide FloorCubeRoot;
  }

  lemma Row16()
    ensures ConstantAt(64) && ConstantAt(65) && ConstantAt(66) && ConstantAt(67)
  {
    CubeBetween(RootAt(64), Prime(64) * TWO192);
    CubeBetween(RootAt(65), Prime(65) * TWO192);
    CubeBetween(RootAt(66), Prime(66) * TWO192);
    CubeBetween(RootAt(67), Prime(67) * TWO192);
    hide FloorCubeRoot;
  }

  lemma Row17()
    ensures ConstantAt(68) && ConstantAt(69) && ConstantAt(70) && ConstantAt(71)
  {
    CubeBetween(RootAt(68), Prime(68) * TWO192);
    CubeBetween(RootAt(69), Prime(69) * TWO192);
    CubeBetween(RootAt(70), Prime(70) * TWO192);
    CubeBetween(RootAt(71), Prime(71) * TWO192);
    hide FloorCubeRoot;
  }

  lemma Row18()
    ensures ConstantAt(72) && ConstantAt(73) && ConstantAt(74) && ConstantAt(75)
  {
    CubeBetween(RootAt(72), Prime(72) * TWO192);
    CubeBetween(RootAt(73), Prime(73) * TWO192);
    CubeBetween(RootAt(74), Prime(74) * TWO192);
    CubeBetween(RootAt(75), Prime(75) * TWO192);
    hide FloorCubeRoot;
  }

  lemma Row19()
    ensures ConstantAt(76) && ConstantAt(77) && ConstantAt(78) && ConstantAt(79)
  {
    CubeBetween(RootAt(76), Prime(76) * TWO192);
    CubeBetween(RootAt(77), Prime(77) * TWO192);
    CubeBetween(RootAt(78), Prime(78) * TWO192);
    CubeBetween(RootAt(79), Prime(79) * TWO192);
    hide FloorCubeRoot;
  }

  lemma ConstantsHold(t: nat)
    requires t < 80
    ensures ConstantAt(t)
  {
    hide ConstantAt;
    Row0();
    Row1();
    Row2();
    Row3();
    Row4();
    Row5();
    Row6();
    Row7();
    Row8();
    Row9();
    Row10();
    Row11();
    Row12();
    Row13();
    Row14();
    Row15();
    Row16();
    Row17();
    Row18();
    Row19();
  }

  /** Section 4.2.3: the round constants are the first 64 bits of the fractional parts of the cube roots of the primes. */
  lemma RoundConstant(t: nat)
    requires t < 80
    ensures CubeRootBits(Prime(t), Num(KAt(t)))
  {
    ConstantsHold(t);
    var k := K[t / 4][t % 4];
    WordNumber(k);
    hide Prime, CubeRoot, Num, Bits, FloorCubeRoot;
    SmallMod(k, TWO64);
  }

  lemma WordNumber(v: int)
    ensures Num(Bits(v)) == v % TWO64
  {
    hide Num, Bits;
    WordValue(v, 64);
    Pow64(64);
  }

  lemma Pow64(n: nat)
    requires n == 64
    ensures Pow2(n) == TWO64
  {
    assert Pow2(8) == 256;
    hide Pow2, Pow;
    PowOfPow2(8, 8);
    EightBytes(8);
    assert 8 * 8 == n;
  }

  function SquareRoot(p: int): int {
    if p < 4 then 1 else if p < 9 then 2 else if p < 16 then 3 else 4
  }

  function Square(z: int): int {
    z * z
  }

  /** x is the integer part of the square root of y. */
  ghost predicate FloorSquareRoot(x: int, y: int) {
    x >= 0 && forall z: nat {:trigger Square(z)} :: Square(z) <= y <==> z <= x
  }

  lemma SquareMono(x: int, z: int)
    requires 0 <= x <= z
    ensures Square(x) <= Square(z)
  {
    MulMono(x, z, x);
    MulMono(x, z, z);
  }

  lemma SquareBetween(x: int, y: int)
    requires x >= 0 && Square(x) <= y < Square(x + 1)
    ensures FloorSquareRoot(x, y)
  {
    hide Square;
    forall z: nat ensures Square(z) <= y <==> z <= x {
      if z <= x {
        SquareMono(z, x);
      } else {
        SquareMono(x + 1, z);
      }
    }
  }

  /** k is the first 64 bits of the fractional part of the square root of p. */
  ghost predicate SquareRootBits(p: int, k: int) {
    0 <= k < TWO64 && FloorSquareRoot(SquareRoot(p) * TWO64 + k, p * (TWO64 * TWO64))
  }

  /** Section 5.3.5: the initial hash value, from the square roots of the first eight primes. */
  lemma InitialValue()
    ensures SquareRootBits(2, Num(IV().a)) && SquareRootBits(3, Num(IV().b)) && SquareRootBits(5, Num(IV().c)) && SquareRootBits(7, Num(IV().d))
    ensures SquareRootBits(11, Num(IV().e)) && SquareRootBits(13, Num(IV().f)) && SquareRootBits(17, Num(IV().g)) && SquareRootBits(19, Num(IV().h))
  {
    hide Num, Bits, SquareRootBits;
    FirstWords();
    LastWords();
    WordIs(2, 0x6a09e667f3bcc908);
    WordIs(3, 0xbb67ae8584caa73b);
    WordIs(5, 0x3c6ef372fe94f82b);
    WordIs(7, 0xa54ff53a5f1d36f1);
    WordIs(11, 0x510e527fade682d1);
    WordIs(13, 0x9b05688c2b3e6c1f);
    WordIs(17, 0x1f83d9abfb41bd6b);
    WordIs(19, 0x5be0cd19137e2179);
  }

  lemma FirstWords()
    ensures SquareRootBits(2, 0x6a09e667f3bcc908) && SquareRootBits(3, 0xbb67ae8584caa73b)
    ensures SquareRootBits(5, 0x3c6ef372fe94f82b) && SquareRootBits(7, 0xa54ff53a5f1d36f1)
  {
    SquareBetween(0x16a09e667f3bcc908, 2 * (TWO64 * TWO64));
    SquareBetween(0x1bb67ae8584caa73b, 3 * (TWO64 * TWO64));
    SquareBetween(0x23c6ef372fe94f82b, 5 * (TWO64 * TWO64));
    SquareBetween(0x2a54ff53a5f1d36f1, 7 * (TWO64 * TWO64));
    hide FloorSquareRoot;
  }

  lemma LastWords()
    ensures SquareRootBits(11, 0x510e527fade682d1) && SquareRootBits(13, 0x9b05688c2b3e6c1f)
    ensures SquareRootBits(17, 0x1f83d9abfb41bd6b) && SquareRootBits(19, 0x5be0cd19137e2179)
  {
    SquareBetween(0x3510e527fade682d1, 11 * (TWO64 * TWO64));
    SquareBetween(0x39b05688c2b3e6c1f, 13 * (TWO64 * TWO64));
    SquareBetween(0x41f83d9abfb41bd6b, 17 * (TWO64 * TWO64));
    SquareBetween(0x45be0cd19137e2179, 19 * (TWO64 * TWO64));
    hide FloorSquareRoot;
  }

  lemma WordIs(p: int, k: int)
    requires SquareRootBits(p, k)
    ensures SquareRootBits(p, Num(Bits(k)))
  {
    WordNumber(k);
    SmallMod(k, TWO64);
    hide Num, Bits;
  }

  lemma XorBit(x: Word, y: Word, i: nat)
    requires i < 64
    ensures Xor(x, y)[i] == (Bit(x, i) != Bit(y, i))
  {}

  lemma ThreeRotations(x: Word, j: nat, k: nat, l: nat, i: nat)
    requires |x| == 64 && 0 < j < 64 && 0 < k < 64 && 0 < l < 64 && i < 64
    ensures Xor(Xor(Rotr(x, j), Rotr(x, k)), Rotr(x, l))[i] == ((x[(i + j) % 64] != x[(i + k) % 64]) != x[(i + l) % 64])
  {
    RotrBits(x, j, i);
    RotrBits(x, k, i);
    RotrBits(x, l, i);
    hide Rotr;
    XorBit(Rotr(x, j), Rotr(x, k), i);
    XorBit(Xor(Rotr(x, j), Rotr(x, k)), Rotr(x, l), i);
  }

  lemma TwoRotations(x: Word, j: nat, k: nat, l: nat, i: nat)
    requires |x| == 64 && 0 < j < 64 && 0 < k < 64 && i < 64
    ensures Xor(Xor(Rotr(x, j), Rotr(x, k)), Shr(x, l))[i] == ((x[(i + j) % 64] != x[(i + k) % 64]) != (i + l < 64 && x[i + l]))
  {
    RotrBits(x, j, i);
    RotrBits(x, k, i);
    hide Rotr;
    XorBit(Rotr(x, j), Rotr(x, k), i);
    XorBit(Xor(Rotr(x, j), Rotr(x, k)), Shr(x, l), i);
  }

  /** Section 4.1.3: which bits of a word make bit i of the sums of the rounds. */
  lemma SumBits(x: Word, i: nat)
    requires |x| == 64 && i < 64
    ensures |Sum0(x)| == 64 && Sum0(x)[i] == ((x[(i + 28) % 64] != x[(i + 34) % 64]) != x[(i + 39) % 64])
    ensures |Sum1(x)| == 64 && Sum1(x)[i] == ((x[(i + 14) % 64] != x[(i + 18) % 64]) != x[(i + 41) % 64])
  {
    ThreeRotations(x, 28, 34, 39, i);
    ThreeRotations(x, 14, 18, 41, i);
    hide Rotr;
  }

  /** The same for the schedule, where the last part is shifted and not rotated. */
  lemma SigmaBits(x: Word, i: nat)
    requires |x| == 64 && i < 64
    ensures |Sigma0(x)| == 64 && Sigma0(x)[i] == ((x[(i + 1) % 64] != x[(i + 8) % 64]) != (i + 7 < 64 && x[i + 7]))
    ensures |Sigma1(x)| == 64 && Sigma1(x)[i] == ((x[(i + 19) % 64] != x[(i + 61) % 64]) != (i + 6 < 64 && x[i + 6]))
  {
    TwoRotations(x, 1, 8, 7, i);
    TwoRotations(x, 19, 61, 6, i);
    hide Rotr;
  }

  /** Section 4.1.3: choice and majority, bit by bit. */
  lemma ChoiceBits(x: Word, y: Word, z: Word, i: nat)
    requires |x| == |y| == |z| == 64 && i < 64
    ensures Ch(x, y, z)[i] == if x[i] then y[i] else z[i]
    ensures Maj(x, y, z)[i] == ((x[i] && y[i]) || (x[i] && z[i]) || (y[i] && z[i]))
  {}

  /** Words add modulo 2^64. */
  lemma SumNumber(x: Word, y: Word)
    ensures Num(Sum(x, y)) == (Num(x) + Num(y)) % TWO64
  {
    WordNumber(Num(x) + Num(y));
  }

  lemma ModTwice(x: int, y: int)
    ensures (x + y % TWO64) % TWO64 == (x + y) % TWO64
  {}

  /** Section 6.4.2, step 1: the message schedule. */
  lemma ScheduleWord(block: seq<int>, t: nat)
    requires |block| == 128 && ByteString(block) && t < 80
    ensures t < 16 ==> Num(Schedule(block, t)) == BigEndian(block[8 * t..8 * t + 8])
    ensures t >= 16 ==>
              (Num(Schedule(block, t)) == (Num(Sigma1(Schedule(block, t - 2))) + Num(Schedule(block, t - 7))
                                           + Num(Sigma0(Schedule(block, t - 15))) + Num(Schedule(block, t - 16))) % TWO64)
  {
    hide *;
    ScheduleStep(block, t);
    if t < 16 {
      LoadNumber(block, t);
    } else {
      NextNumber(Schedule(block, t - 2), Schedule(block, t - 7), Schedule(block, t - 15), Schedule(block, t - 16));
    }
  }

  lemma LoadNumber(block: seq<int>, t: nat)
    requires |block| == 128 && ByteString(block) && t < 16
    ensures Num(Load64(block[8 * t..8 * t + 8])) == BigEndian(block[8 * t..8 * t + 8])
  {
    hide Num, Bits, BigEndian;
    var s := block[8 * t..8 * t + 8];
    WordNumber(BigEndian(s));
    BigEndianRange(s);
    EightBytes(8);
    SmallMod(BigEndian(s), TWO64);
  }

  lemma NextNumber(w2: Word, w7: Word, w15: Word, w16: Word)
    ensures Num(NextWord(w2, w7, w15, w16)) == (Num(Sigma1(w2)) + Num(w7) + Num(Sigma0(w15)) + Num(w16)) % TWO64
  {
    hide Num, Sum, Sigma0, Sigma1;
    var a, d := Sigma1(w2), Sigma0(w15);
    SumNumber(d, w16);
    SumNumber(w7, Sum(d, w16));
    SumNumber(a, Sum(w7, Sum(d, w16)));
    ModTwice(Num(w7), Num(d) + Num(w16));
    ModTwice(Num(a), Num(w7) + (Num(d) + Num(w16)));
  }

  /** Section 6.4.2, step 3: one round on the eight working variables. */
  lemma RoundNumbers(v: Vars, k: Word, w: Word)
    ensures var r := Round(v, k, w);
            var t1 := Num(v.h) + Num(Sum1(v.e)) + Num(Ch(v.e, v.f, v.g)) + Num(k) + Num(w);
            var t2 := Num(Sum0(v.a)) + Num(Maj(v.a, v.b, v.c));
            && Num(r.a) == (t1 + t2) % TWO64 && Num(r.e) == (Num(v.d) + t1) % TWO64
            && r.b == v.a && r.c == v.b && r.d == v.c && r.f == v.e && r.g == v.f && r.h == v.g
  {
    var c, s1, s0, m := Ch(v.e, v.f, v.g), Sum1(v.e), Sum0(v.a), Maj(v.a, v.b, v.c);
    hide Num, Sum, Ch, Maj, Sum0, Sum1;
    var t1 := Sum(v.h, Sum(s1, Sum(c, Sum(k, w))));
    FiveWords(v.h, s1, c, k, w);
    var n1 := Num(v.h) + Num(s1) + Num(c) + Num(k) + Num(w);
    SumNumber(s0, m);
    SumNumber(t1, Sum(s0, m));
    SumNumber(v.d, t1);
    ModTwice(Num(v.d), n1);
    ModTwice(Num(t1), Num(s0) + Num(m));
    ModTwice(Num(s0) + Num(m), n1);
  }

  lemma FiveWords(a: Word, b: Word, c: Word, d: Word, e: Word)
    ensures Num(Sum(a, Sum(b, Sum(c, Sum(d, e))))) == (Num(a) + Num(b) + Num(c) + Num(d) + Num(e)) % TWO64
  {
    hide Num, Sum;
    SumNumber(d, e);
    SumNumber(c, Sum(d, e));
    SumNumber(b, Sum(c, Sum(d, e)));
    SumNumber(a, Sum(b, Sum(c, Sum(d, e))));
    ModTwice(Num(c), Num(d) + Num(e));
    ModTwice(Num(b), Num(c) + (Num(d) + Num(e)));
    ModTwice(Num(a), Num(b) + (Num(c) + (Num(d) + Num(e))));
  }

  /** Section 6.4.2, steps 2 to 4: eighty rounds from the hash value, which is then added to the result. */
  lemma CompressNumbers(h: Vars, block: seq<int>)
    requires |block| == 128
    ensures Rounds(h, block, 0) == h
    ensures forall t :: 0 <= t < 80 ==> Rounds(h, block, t + 1) == Round(Rounds(h, block, t), KAt(t), Schedule(block, t))
    ensures var r, n := Rounds(h, block, 80), Compress(h, block);
            && Num(n.a) == (Num(r.a) + Num(h.a)) % TWO64 && Num(n.b) == (Num(r.b) + Num(h.b)) % TWO64
            && Num(n.c) == (Num(r.c) + Num(h.c)) % TWO64 && Num(n.d) == (Num(r.d) + Num(h.d)) % TWO64
            && Num(n.e) == (Num(r.e) + Num(h.e)) % TWO64 && Num(n.f) == (Num(r.f) + Num(h.f)) % TWO64
            && Num(n.g) == (Num(r.g) + Num(h.g)) % TWO64 && Num(n.h) == (Num(r.h) + Num(h.h)) % TWO64
  {
    hide Rounds, Round, Compress, KAt, Schedule, Num, Sum;
    RoundsStep(h, block, 0);
    forall t | 0 <= t < 80 ensures Rounds(h, block, t + 1) == Round(Rounds(h, block, t), KAt(t), Schedule(block, t)) {
      RoundsStep(h, block, t);
    }
    CompressIs(h, block);
    var r := Rounds(h, block, 80);
    SumNumber(r.a, h.a);
    SumNumber(r.b, h.b);
    SumNumber(r.c, h.c);
    SumNumber(r.d, h.d);
    SumNumber(r.e, h.e);
    SumNumber(r.f, h.f);
    SumNumber(r.g, h.g);
    SumNumber(r.h, h.h);
  }

  /** The first byte of a big-endian number weighs most. */
  lemma {:induction false} BigEndianFirst(s: seq<int>)
    requires s != []
    ensures BigEndian(s) == s[0] * Pow(256, |s| - 1) + BigEndian(s[1..])
    decreases |s|
  {
    if |s| > 1 {
      var n := |s| - 1;
      BigEndianFirst(s[..n]);
      assert s[1..][..n - 1] == s[..n][1..] && s[1..][n - 1] == s[n];
      MulAssoc(256, s[0], Pow(256, n - 1));
      MulAssoc(s[0], 256, Pow(256, n - 1));
    } else {
      assert s[1..] == [] && s[..0] == [] && Pow(256, 0) == 1;
    }
  }

  lemma {:induction false} BigEndianRange(s: seq<int>)
    requires ByteString(s)
    ensures 0 <= BigEndian(s) < Pow(256, |s|)
    decreases |s|
  {
    if s != [] {
      BigEndianRange(s[..|s| - 1]);
    }
  }

  lemma {:induction false} BigEndianConcat(a: seq<int>, b: seq<int>)
    ensures BigEndian(a + b) == BigEndian(a) * Pow(256, |b|) + BigEndian(b)
    decreases |b|
  {
    if b == [] {
      assert a + b == a;
    } else {
      var n := |b| - 1;
      assert (a + b)[..|a + b| - 1] == a + b[..n];
      BigEndianConcat(a, b[..n]);
      MulAssoc(256, BigEndian(a), Pow(256, n));
      MulAssoc(BigEndian(a), 256, Pow(256, n));
    }
  }

  lemma EightBytes(n: nat)
    requires n == 8
    ensures Pow(256, n) == TWO64
  {
    assert Pow(256, 4) == 0x100000000;
    PowSquare(256, 4, 0x100000000);
  }

  /** Storing writes the number with its highest byte first. */
  lemma StoreNumber(v: int)
    requires v >= 0
    ensures BigEndian(Store64(v)) == v % TWO64
  {
    var s := Store64(v);
    hide Store64, BigEndian;
    EightDigits(s);
    StoreDigits(v, s);
  }

  lemma EightDigits(s: seq<int>)
    requires |s| == 8
    ensures BigEndian(s) == s[7] + 256 * (s[6] + 256 * (s[5] + 256 * (s[4] + 256 * (s[3] + 256 * (s[2] + 256 * (s[1] + 256 * s[0]))))))
  {
    hide BigEndian;
    LastByte(s, 8);
    LastByte(s, 7);
    LastByte(s, 6);
    LastByte(s, 5);
    LastByte(s, 4);
    LastByte(s, 3);
    LastByte(s, 2);
    LastByte(s, 1);
    NoBytes();
    assert s[..8] == s && s[..0] == [];
  }

  lemma LastByte(s: seq<int>, n: nat)
    requires 1 <= n <= |s|
    ensures BigEndian(s[..n]) == 256 * BigEndian(s[..n - 1]) + s[n - 1]
  {
    assert s[..n][..n - 1] == s[..n - 1];
  }

  lemma NoBytes()
    ensures BigEndian([]) == 0
  {}

  /** One digit in radix b off a remainder. */
  lemma Peel(x: int, b: int, p: int)
    requires x >= 0 && b >= 1 && p >= 1
    ensures b * p >= 1 && x % (b * p) == x % b + b * (x / b % p)
  {
    MulMono(1, p, b);
    DivDiv(x, b, p);
    var q := x / b;
    assert x == b * q + x % b && q == p * (q / p) + q % p;
    MulDist(p * (q / p), q % p, b);
    MulAssoc(b, p, q / p);
    MulMono(q % p, p - 1, b);
    MulDist(p, 1, b);
    MulMono(0, q % p, b);
    DivModUnique(x, b * p, q / p, x % b + b * (q % p));
  }

  lemma StoreDigits(v: int, s: seq<int>)
    requires v >= 0 && s == Store64(v)
    ensures s[7] + 256 * (s[6] + 256 * (s[5] + 256 * (s[4] + 256 * (s[3] + 256 * (s[2] + 256 * (s[1] + 256 * s[0])))))) == v % TWO64
  {
    PeelByte(v, 0x1, 0x100000000000000);
    PeelByte(v, 0x100, 0x1000000000000);
    PeelByte(v, 0x10000, 0x10000000000);
    PeelByte(v, 0x1000000, 0x100000000);
    PeelByte(v, 0x100000000, 0x1000000);
    PeelByte(v, 0x10000000000, 0x10000);
    PeelByte(v, 0x1000000000000, 0x100);
  }

  /** The byte at weight w, and p times the number from the next byte on. */
  lemma PeelByte(v: int, w: int, p: int)
    requires v >= 0 && w >= 1 && p >= 1
    ensures v / w % (256 * p) == v / w % 256 + 256 * (v / (w * 256) % p)
  {
    DivNonneg(v, w);
    Peel(v / w, 256, p);
    DivDiv(v, w, 256);
  }

  /** Section 6.4.2: the digest is the eight words, each with its highest byte first. */
  lemma DigestWords(h: Vars)
    ensures var d := Digest(h);
            && |d| == 64
            && BigEndian(d[0..8]) == Num(h.a) % TWO64 && BigEndian(d[8..16]) == Num(h.b) % TWO64
            && BigEndian(d[16..24]) == Num(h.c) % TWO64 && BigEndian(d[24..32]) == Num(h.d) % TWO64
            && BigEndian(d[32..40]) == Num(h.e) % TWO64 && BigEndian(d[40..48]) == Num(h.f) % TWO64
            && BigEndian(d[48..56]) == Num(h.g) % TWO64 && BigEndian(d[56..64]) == Num(h.h) % TWO64
  {
    var d := Digest(h);
    hide Store64, BigEndian, Num;
    StoreNumber(Num(h.a));
    StoreNumber(Num(h.b));
    StoreNumber(Num(h.c));
    StoreNumber(Num(h.d));
    StoreNumber(Num(h.e));
    StoreNumber(Num(h.f));
    StoreNumber(Num(h.g));
    StoreNumber(Num(h.h));
    assert d[0..8] == Store64(Num(h.a)) && d[8..16] == Store64(Num(h.b)) && d[16..24] == Store64(Num(h.c)) && d[24..32] == Store64(Num(h.d));
    assert d[32..40] == Store64(Num(h.e)) && d[40..48] == Store64(Num(h.f)) && d[48..56] == Store64(Num(h.g)) && d[56..64] == Store64(Num(h.h));
  }

  /** Section 5.1.2: the message, a one bit, zeros and the length in bits modulo 2^128. */
  lemma PaddedMessage(msg: seq<int>)
    ensures var p, n := Pad(msg), |msg|;
            && |p| % 128 == 0 && n + 17 <= |p| < n + 17 + 128
            && p[..n] == msg && p[n] == 0x80 && (forall i :: n < i < |p| - 16 ==> p[i] == 0)
            && BigEndian(p[|p| - 16..]) == 8 * n % (TWO64 * TWO64)
  {
    PadLength(msg);
    var p, n := Pad(msg), |msg|;
    var high, low := Store64(LengthHigh(n)), Store64(LengthLow(n));
    hide Store64, BigEndian;
    assert p[|p| - 16..] == high + low;
    BigEndianConcat(high, low);
    EightBytes(8);
    StoreNumber(LengthHigh(n));
    StoreNumber(LengthLow(n));
    TwoWords(8 * n);
  }

  lemma TwoWords(x: int)
    requires x >= 0
    ensures (x / TWO64 % TWO64 % TWO64) * TWO64 + x % TWO64 % TWO64 == x % (TWO64 * TWO64)
  {
    Peel(x, TWO64, TWO64);
    SmallMod(x % TWO64, TWO64);
    SmallMod(x / TWO64 % TWO64, TWO64);
  }

  /** Section 6.4: the digest of a message, block after block from the initial value. */
  lemma DigestIs(msg: seq<int>)
    ensures Sha512Of(msg) == Digest(HashBlocks(IV(), Pad(msg)))
    ensures forall h, data {:trigger HashBlocks(h, data)} :: |data| >= 128 ==> HashBlocks(h, data) == HashBlocks(Compress(h, data[..128]), data[128..])
    ensures forall h {:trigger HashBlocks(h, [])} :: HashBlocks(h, []) == h
  {
    hide Digest, Pad, IV, Compress;
  }
}
