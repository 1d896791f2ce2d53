/**
 Arithmetic modulo 2^255 - 19 on five 51-bit limbs. The machine words are bounded
 types, so every sum, product and difference is shown to fit its word. Masks and
 shifts by constants are written as remainders and quotients.
 */
module Field51 {
  import opened Arithmetic
  import opened Residues

  const P: int := 0x7fffffffffffffffffffffffffffffffffffffffffffffffffffffffffffffed
  /** The curve constant d = -121665/121666 and a square root of -1. */
  const D: int := 0x52036cee2b6ffe738cc740797779e89800700a4d4141d8ab75eb4dca135978a3
  const SQRTM1: int := 0x2b8324804fc1df0b2b4d00993dfbd7a72f431806ad2fe478c4ee1b274a0ea0b0
  const F25519: Field := Field(P, D, SQRTM1)

  const B: int := 0x8000000000000
  const N54: int := 0x40000000000000
  const N108: int := 0x1000000000000000000000000000
  const WORD: int := 0x10000000000000000

  newtype u64 = x: int | 0 <= x < 0x10000000000000000
  newtype u128 = x: int | 0 <= x < 0x100000000000000000000000000000000

  /** A field element: bignum25519. */
  datatype Fe = Fe(a0: u64, a1: u64, a2: u64, a3: u64, a4: u64)

  function Sum5(x0: int, x1: int, x2: int, x3: int, x4: int): int {
    x0 + B * (x1 + B * (x2 + B * (x3 + B * x4)))
  }

  function Eval(a: Fe): int {
    Sum5(a.a0 as int, a.a1 as int, a.a2 as int, a.a3 as int, a.a4 as int)
  }

  /** The residue a limb vector stands for. */
  function Fv(a: Fe): int {
    Eval(a) % F25519.p
  }

  predicate Bounded(a: Fe, n: int) {
    a.a0 as int < n && a.a1 as int < n && a.a2 as int < n && a.a3 as int < n && a.a4 as int < n
  }

  /** What multiplication and the reducing operations leave: limbs a little over 51 bits at most. */
  predicate Carried(a: Fe) {
    Bounded(a, B + 0x10000)
  }

  /** A representation of z up to a multiple of P has its residue. */
  lemma FvBy(x: int, y: int, k: int)
    requires x == y + k * P
    ensures x % P == y % P
  {
    CongBy(x, y, P, k);
  }

  /** The sum of two carried elements. */
  predicate Doubled(a: Fe) {
    Bounded(a, 2 * B + 0x20000)
  }

  /** The difference of two carried elements, or a sum of three. */
  predicate Basic(a: Fe) {
    Bounded(a, 3 * B + 0x30000)
  }

  lemma SumResidue(o: Fe, a: Fe, b: Fe)
    requires Eval(o) == Eval(a) + Eval(b)
    ensures Fv(o) == FAdd(F25519, Fv(a), Fv(b))
  {
    ReducedOps(F25519, Eval(a), Eval(b));
  }

  lemma DifferenceResidue(o: Fe, a: Fe, b: Fe, k: int)
    requires Eval(o) == Eval(a) - Eval(b) + k * P
    ensures Fv(o) == FSub(F25519, Fv(a), Fv(b))
  {
    ReducedOps(F25519, Eval(a), Eval(b));
    FvBy(Eval(o), Eval(a) - Eval(b), k);
  }

  lemma ShiftedResidue(o: Fe, x: Fe, k: int)
    requires Eval(o) == Eval(x) + k * P
    ensures Fv(o) == Fv(x)
  {
    FvBy(Eval(o), Eval(x), k);
  }

  /** curve25519_add and curve25519_add_after_basic. */
  method FeAdd(a: Fe, b: Fe) returns (o: Fe)
    requires Bounded(a, N54) && Bounded(b, N54)
    ensures Fv(o) == FAdd(F25519, Fv(a), Fv(b))
    ensures Carried(a) && Carried(b) ==> Doubled(o)
    ensures Doubled(a) && Carried(b) ==> Basic(o)
  {
    hide Fv, FAdd;
    o := Fe(a.a0 + b.a0, a.a1 + b.a1, a.a2 + b.a2, a.a3 + b.a3, a.a4 + b.a4);
    SumResidue(o, a, b);
  }

  /** The limbs of 2P and 4P, from which the differences are taken. */
  const TWO_P: Fe := Fe(0xfffffffffffda, 0xffffffffffffe, 0xffffffffffffe, 0xffffffffffffe, 0xffffffffffffe)
  const FOUR_P: Fe := Fe(0x1fffffffffffb4, 0x1ffffffffffffc, 0x1ffffffffffffc, 0x1ffffffffffffc, 0x1ffffffffffffc)

  /** No limb of b exceeds that of p, so p - b does not wrap. */
  predicate Under(b: Fe, p: Fe) {
    b.a0 <= p.a0 && b.a1 <= p.a1 && b.a2 <= p.a2 && b.a3 <= p.a3 && b.a4 <= p.a4
  }

  /** a - b, computed limb by limb as a + p - b for a multiple p of P. */
  method SubFrom(p: Fe, a: Fe, b: Fe, ghost k: int) returns (o: Fe)
    requires Bounded(p, N54) && Eval(p) == k * P && Bounded(a, N54) && Under(b, p)
    ensures Eval(o) == Eval(a) - Eval(b) + k * P && Fv(o) == FSub(F25519, Fv(a), Fv(b))
    ensures o.a0 <= a.a0 + p.a0 && o.a1 <= a.a1 + p.a1 && o.a2 <= a.a2 + p.a2
    ensures o.a3 <= a.a3 + p.a3 && o.a4 <= a.a4 + p.a4
  {
    hide Fv, FSub;
    o := Fe(a.a0 + p.a0 - b.a0, a.a1 + p.a1 - b.a1, a.a2 + p.a2 - b.a2, a.a3 + p.a3 - b.a3, a.a4 + p.a4 - b.a4);
    DifferenceResidue(o, a, b, k);
  }

  /** curve25519_sub. */
  method FeSub(a: Fe, b: Fe) returns (o: Fe)
    requires Bounded(a, N54) && Under(b, TWO_P)
    ensures Fv(o) == FSub(F25519, Fv(a), Fv(b))
    ensures Carried(a) ==> Basic(o)
  {
    hide Fv, FSub;
    o := SubFrom(TWO_P, a, b, 2);
  }

  /** curve25519_sub_after_basic. */
  method FeSubAfterBasic(a: Fe, b: Fe) returns (o: Fe)
    requires Bounded(a, N54) && Under(b, FOUR_P)
    ensures Fv(o) == FSub(F25519, Fv(a), Fv(b))
    ensures Basic(a) ==> Bounded(o, N54)
  {
    hide Fv, FSub;
    o := SubFrom(FOUR_P, a, b, 4);
  }

  /**
   The carry chain of the reducing operations: each limb passes what exceeds 51
   bits on, and the last passes 19 times its excess to the first.
   */
  method FeReduce(x: Fe) returns (o: Fe)
    requires Bounded(x, 0x2000 * B - 0x2000) && x.a4 as int < 0x800 * B
    ensures Carried(o) && Fv(o) == Fv(x)
  {
    hide Fv;
    var b: u64 := 0x8000000000000;
    var x0, c := x.a0 % b, x.a0 / b;
    var x1, d := (x.a1 + c) % b, (x.a1 + c) / b;
    var x2, e := (x.a2 + d) % b, (x.a2 + d) / b;
    var x3, f := (x.a3 + e) % b, (x.a3 + e) / b;
    var x4, g := (x.a4 + f) % b, (x.a4 + f) / b;
    o := Fe(x0 + g * 19, x1, x2, x3, x4);
    ShiftedResidue(o, x, -(g as int));
  }

  /** curve25519_add_reduce. */
  method FeAddReduce(a: Fe, b: Fe) returns (o: Fe)
    requires Bounded(a, N54) && Bounded(b, N54)
    ensures Carried(o) && Fv(o) == FAdd(F25519, Fv(a), Fv(b))
  {
    hide Fv, FAdd;
    var s := Fe(a.a0 + b.a0, a.a1 + b.a1, a.a2 + b.a2, a.a3 + b.a3, a.a4 + b.a4);
    SumResidue(s, a, b);
    o := FeReduce(s);
  }

  /** curve25519_sub_reduce. */
  method FeSubReduce(a: Fe, b: Fe) returns (o: Fe)
    requires Bounded(a, N54) && Under(b, FOUR_P)
    ensures Carried(o) && Fv(o) == FSub(F25519, Fv(a), Fv(b))
  {
    hide Fv, FSub;
    var d := SubFrom(FOUR_P, a, b, 4);
    o := FeReduce(d);
  }

  /** curve25519_neg. */
  method FeNeg(a: Fe) returns (o: Fe)
    requires Under(a, TWO_P)
    ensures Carried(o) && Fv(o) == FSub(F25519, 0, Fv(a))
  {
    assert Fv(Fe(0, 0, 0, 0, 0)) == 0;
    hide Fv, FSub;
    var d := SubFrom(TWO_P, Fe(0, 0, 0, 0, 0), a, 2);
    o := FeReduce(d);
  }

  function Prod(x: int, y: int): int {
    x * y
  }

  lemma ProdBound(x: int, y: int, m: int, n: int)
    requires 0 <= x < m && 0 <= y < n
    ensures 0 <= x * y < m * n
  {
    MulMono(x, m - 1, y);
    MulMono(y, n - 1, m);
  }

  /** A full 64 by 64 bit product. */
  function Wide(x: u64, y: u64): (r: u128)
    ensures r as int == Prod(x as int, y as int)
    ensures x as int < N54 && y as int < N54 ==> (r as int) < N108
  {
    ProdBound(x as int, y as int, WORD, WORD);
    WideBounds(x as int, y as int);
    x as u128 * y as u128
  }

  lemma WideBounds(x: int, y: int)
    requires 0 <= x && 0 <= y
    ensures x < N54 && y < N54 ==> x * y < N108
  {
    if x < N54 && y < N54 {
      ProdBound(x, y, N54, N54);
    }
  }

  /** The five double-width columns of a product. */
  datatype Columns5 = Columns5(t0: u128, t1: u128, t2: u128, t3: u128, t4: u128)

  function Cols(t: Columns5): int {
    Sum5(t.t0 as int, t.t1 as int, t.t2 as int, t.t3 as int, t.t4 as int)
  }

  /** Narrow enough for every carry to fit a 64-bit word. */
  predicate Narrow(t: Columns5) {
    && t.t0 as int <= 77 * N108 && t.t1 as int <= 59 * N108 && t.t2 as int <= 41 * N108
    && t.t3 as int <= 23 * N108 && t.t4 as int <= 5 * N108
  }

  /**
   The wrapped columns of a product: those past the fifth are folded back with
   weight 19, and the difference from the true product is a multiple of P.
   */
  lemma WrapColumns(r0: int, r1: int, r2: int, r3: int, r4: int, s0: int, s1: int, s2: int, s3: int, s4: int)
    ensures Sum5(r0, r1, r2, r3, r4) * Sum5(s0, s1, s2, s3, s4)
            == Sum5(r0 * s0 + 19 * (r4 * s1 + r1 * s4 + r2 * s3 + r3 * s2),
                    r0 * s1 + r1 * s0 + 19 * (r4 * s2 + r2 * s4 + r3 * s3),
                    r0 * s2 + r2 * s0 + r1 * s1 + 19 * (r4 * s3 + r3 * s4),
                    r0 * s3 + r3 * s0 + r1 * s2 + r2 * s1 + 19 * (r4 * s4),
                    r0 * s4 + r4 * s0 + r3 * s1 + r1 * s3 + r2 * s2)
               + Sum5(r4 * s1 + r1 * s4 + r2 * s3 + r3 * s2, r4 * s2 + r2 * s4 + r3 * s3, r4 * s3 + r3 * s4, r4 * s4, 0) * P
  {}

  /** Products with each limb of the first factor scaled, as the columns use them. */
  lemma Scaled(k: int, x: int, y: int)
    ensures Prod(k * x, y) == k * Prod(x, y) && Prod(x, k * y) == k * Prod(x, y) && Prod(x, y) == Prod(y, x)
  {
    MulAssoc(k, x, y);
  }

  lemma ScaledBound(k: nat, x: int, y: int)
    requires 0 <= x && 0 <= y
    ensures x < N54 && y < N54 ==> k * Prod(x, y) <= k * N108
  {
    WideBounds(x, y);
    if x < N54 && y < N54 {
      MulMono(Prod(x, y), N108, k);
    }
  }

  function Wrapped(a: Fe, b: Fe): int {
    var (r0, r1, r2, r3, r4) := (a.a0 as int, a.a1 as int, a.a2 as int, a.a3 as int, a.a4 as int);
    var (s0, s1, s2, s3, s4) := (b.a0 as int, b.a1 as int, b.a2 as int, b.a3 as int, b.a4 as int);
    Sum5(Prod(r0, s0) + 19 * (Prod(r4, s1) + Prod(r1, s4) + Prod(r2, s3) + Prod(r3, s2)),
         Prod(r0, s1) + Prod(r1, s0) + 19 * (Prod(r4, s2) + Prod(r2, s4) + Prod(r3, s3)),
         Prod(r0, s2) + Prod(r2, s0) + Prod(r1, s1) + 19 * (Prod(r4, s3) + Prod(r3, s4)),
         Prod(r0, s3) + Prod(r3, s0) + Prod(r1, s2) + Prod(r2, s1) + 19 * Prod(r4, s4),
         Prod(r0, s4) + Prod(r4, s0) + Prod(r3, s1) + Prod(r1, s3) + Prod(r2, s2))
  }

  /** The wrapped columns differ from the true product by a multiple of P. */
  lemma WrappedProduct(a: Fe, b: Fe) returns (h: int)
    ensures Eval(a) * Eval(b) == Wrapped(a, b) + h * P
  {
    var (r0, r1, r2, r3, r4) := (a.a0 as int, a.a1 as int, a.a2 as int, a.a3 as int, a.a4 as int);
    var (s0, s1, s2, s3, s4) := (b.a0 as int, b.a1 as int, b.a2 as int, b.a3 as int, b.a4 as int);
    WrapColumns(r0, r1, r2, r3, r4, s0, s1, s2, s3, s4);
    h := Sum5(r4 * s1 + r1 * s4 + r2 * s3 + r3 * s2, r4 * s2 + r2 * s4 + r3 * s3, r4 * s3 + r3 * s4, r4 * s4, 0);
  }

  lemma ProductResidue(f: Field, x: int, y: int, t: int, h: int)
    requires x * y == t + h * f.p
    ensures t % f.p == FMul(f, x % f.p, y % f.p)
  {
    CongBy(x * y, t, f.p, h);
    ReducedOps(f, x, y);
  }

  method MulColumns(s: Fe, r: Fe) returns (t: Columns5)
    requires Bounded(s, N54) && Bounded(r, N54)
    ensures Narrow(t) && Cols(t) == Wrapped(r, s)
  {
    hide Prod, Wide;
    var t0 := Wide(r.a0, s.a0);
    var t1 := Wide(r.a0, s.a1) + Wide(r.a1, s.a0);
    var t2 := Wide(r.a0, s.a2) + Wide(r.a2, s.a0) + Wide(r.a1, s.a1);
    var t3 := Wide(r.a0, s.a3) + Wide(r.a3, s.a0) + Wide(r.a1, s.a2) + Wide(r.a2, s.a1);
    var t4 := Wide(r.a0, s.a4) + Wide(r.a4, s.a0) + Wide(r.a3, s.a1) + Wide(r.a1, s.a3) + Wide(r.a2, s.a2);
    var r1, r2, r3, r4 := r.a1 * 19, r.a2 * 19, r.a3 * 19, r.a4 * 19;
    t0 := t0 + WideBy(r4, s.a1, 19, r.a4) + WideBy(r1, s.a4, 19, r.a1) + WideBy(r2, s.a3, 19, r.a2) + WideBy(r3, s.a2, 19, r.a3);
    t1 := t1 + WideBy(r4, s.a2, 19, r.a4) + WideBy(r2, s.a4, 19, r.a2) + WideBy(r3, s.a3, 19, r.a3);
    t2 := t2 + WideBy(r4, s.a3, 19, r.a4) + WideBy(r3, s.a4, 19, r.a3);
    t3 := t3 + WideBy(r4, s.a4, 19, r.a4);
    t := Columns5(t0, t1, t2, t3, t4);
  }

  /** Wide, knowing that its first argument is k times a limb. */
  function WideBy(x: u64, y: u64, ghost k: nat, ghost limb: u64): (r: u128)
    requires x as int == k * limb as int && k <= 38
    ensures r as int == k * Prod(limb as int, y as int)
    ensures limb as int < N54 && y as int < N54 ==> r as int <= k * N108
  {
    Scaled(k, limb as int, y as int);
    ScaledBound(k, limb as int, y as int);
    Wide(x, y)
  }

  /** A column with its carry in, as its low 51 bits and its carry out. */
  method Split(t: u128, c: u64) returns (r: u64, d: u64)
    requires t as int < 78 * N108
    ensures t as int + c as int == r as int + B * d as int && (r as int) < B
  {
    var x := t + c as u128;
    r, d := (x % 0x8000000000000) as u64, (x / 0x8000000000000) as u64;
  }

  /** The carry chain of mul and square. */
  method CarryColumns(t: Columns5) returns (o: Fe)
    requires Narrow(t)
    ensures Carried(o) && Fv(o) == Cols(t) % P
  {
    hide Fv;
    var r0, c := Split(t.t0, 0);
    var r1, d := Split(t.t1, c);
    var r2, e := Split(t.t2, d);
    var r3, f := Split(t.t3, e);
    var r4, g := Split(t.t4, f);
    var x0, h := Split((r0 + g * 19) as u128, 0);
    o := Fe(x0, r1 + h, r2, r3, r4);
    ColumnsResidue(o, t, -(g as int));
  }

  lemma ColumnsResidue(o: Fe, t: Columns5, k: int)
    requires Eval(o) == Cols(t) + k * P
    ensures Fv(o) == Cols(t) % P
  {
    FvBy(Eval(o), Cols(t), k);
  }

  /** curve25519_mul: the product, for all limbs below 2^54 and without overflow. */
  method FeMul(a: Fe, b: Fe) returns (o: Fe)
    requires Bounded(a, N54) && Bounded(b, N54)
    ensures Carried(o) && Fv(o) == FMul(F25519, Fv(a), Fv(b))
  {
    var t := MulColumns(a, b);
    ghost var h := WrappedProduct(b, a);
    ProductResidue(F25519, Eval(a), Eval(b), Wrapped(b, a), h);
    hide FMul, Cols, Wrapped, Eval;
    o := CarryColumns(t);
  }

  lemma ProdComm(x: u64, y: u64)
    ensures Prod(x as int, y as int) == Prod(y as int, x as int)
  {}

  /** The columns of a square, each mixed product computed once and doubled. */
  method SquareColumns(r: Fe) returns (t: Columns5)
    requires Bounded(r, N54)
    ensures Narrow(t) && Cols(t) == Wrapped(r, r)
  {
    ProdComm(r.a0, r.a1);
    ProdComm(r.a0, r.a2);
    ProdComm(r.a0, r.a3);
    ProdComm(r.a0, r.a4);
    ProdComm(r.a1, r.a2);
    ProdComm(r.a1, r.a3);
    ProdComm(r.a1, r.a4);
    ProdComm(r.a2, r.a3);
    ProdComm(r.a2, r.a4);
    ProdComm(r.a3, r.a4);
    hide Prod, Wide;
    var d0, d1, d2, d419 := r.a0 * 2, r.a1 * 2, r.a2 * 2 * 19, r.a4 * 19;
    var d4 := d419 * 2;
    var t0 := Wide(r.a0, r.a0) + WideBy(d4, r.a1, 38, r.a4) + WideBy(d2, r.a3, 38, r.a2);
    var t1 := WideBy(d0, r.a1, 2, r.a0) + WideBy(d4, r.a2, 38, r.a4) + WideBy(r.a3 * 19, r.a3, 19, r.a3);
    var t2 := WideBy(d0, r.a2, 2, r.a0) + Wide(r.a1, r.a1) + WideBy(d4, r.a3, 38, r.a4);
    var t3 := WideBy(d0, r.a3, 2, r.a0) + WideBy(d1, r.a2, 2, r.a1) + WideBy(d419, r.a4, 19, r.a4);
    var t4 := WideBy(d0, r.a4, 2, r.a0) + WideBy(d1, r.a3, 2, r.a1) + Wide(r.a2, r.a2);
    t := Columns5(t0, t1, t2, t3, t4);
  }

  /** curve25519_square. */
  method FeSquare(a: Fe) returns (o: Fe)
    requires Bounded(a, N54)
    ensures Carried(o) && Fv(o) == FMul(F25519, Fv(a), Fv(a))
  {
    var t := SquareColumns(a);
    ghost var h := WrappedProduct(a, a);
    ProductResidue(F25519, Eval(a), Eval(a), Wrapped(a, a), h);
    hide FMul, Cols, Wrapped, Eval;
    o := CarryColumns(t);
  }

  /** All columns split at once, then carried in turn. */
  method SpreadCarry(t: Columns5) returns (o: Fe)
    requires Narrow(t)
    ensures Carried(o) && Fv(o) == Cols(t) % P
  {
    hide Fv;
    var r0, c0 := Split(t.t0, 0);
    var r1, c1 := Split(t.t1, 0);
    var r2, c2 := Split(t.t2, 0);
    var r3, c3 := Split(t.t3, 0);
    var r4, c4 := Split(t.t4, 0);
    var x := Fe(r0 + c4 * 19, r1 + c0, r2 + c1, r3 + c2, r4 + c3);
    ColumnsResidue(x, t, -(c4 as int));
    o := FeReduce(x);
  }

  /** One round of square_times. */
  method SquareRound(a: Fe) returns (o: Fe)
    requires Bounded(a, N54)
    ensures Carried(o) && Fv(o) == FMul(F25519, Fv(a), Fv(a))
  {
    var t := SquareColumns(a);
    ghost var h := WrappedProduct(a, a);
    ProductResidue(F25519, Eval(a), Eval(a), Wrapped(a, a), h);
    hide FMul, Cols, Wrapped, Eval;
    o := SpreadCarry(t);
  }

  /** The rounds of a do-while loop counting down to zero: a zero count wraps around. */
  function Rounds(count: u64): nat {
    if count == 0 then WORD else count as nat
  }

  /** curve25519_square_times: count squarings raise to the power 2^count. */
  method SquareTimes(a: Fe, count: u64) returns (o: Fe)
    requires Bounded(a, N54)
    ensures Carried(o) && Fv(o) == FPow(F25519, Fv(a), Pow2(Rounds(count)))
  {
    o := SquareRound(a);
    var left: u64 := if count == 0 then 0xffffffffffffffff else count - 1;
    ghost var done: nat := 1;
    FirstSquare(Fv(a));
    hide Fv, FMul, FPow, Pow2;
    while left != 0
      invariant Carried(o) && done + left as nat == Rounds(count)
      invariant Fv(o) == FPow(F25519, Fv(a), Pow2(done))
    {
      PowersMultiply(F25519, Fv(a), Pow2(done), Pow2(done));
      Pow2Next(done);
      o := SquareRound(o);
      left := left - 1;
      done := done + 1;
    }
  }

  lemma Pow2Next(n: nat)
    ensures Pow2(n + 1) == 2 * Pow2(n)
  {}

  lemma FirstSquare(x: int)
    ensures FMul(F25519, x, x) == FPow(F25519, x, Pow2(1))
  {
    assert Pow(x, 2) == x * x;
  }

  /** The exponents 2^count and 2 * count agree for the counts 1 and 2 only. */
  lemma {:induction false} CountInExponent(count: nat)
    ensures Pow2(count) == 2 * count <==> count == 1 || count == 2
    ensures count >= 3 ==> Pow2(count) > 2 * count
  {
    if count >= 3 {
      CountInExponent(count - 1);
    }
  }

  /** Three rounds on 2 give 2^8, not 2^6. */
  lemma ThreeRounds()
    ensures FPow(F25519, 2, Pow2(3)) == 256 && FPow(F25519, 2, 2 * 3) == 64
  {
    assert Pow2(3) == 8 && Pow(2, 8) == 256 && Pow(2, 6) == 64;
  }
}
