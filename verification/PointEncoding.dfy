/** Points to and from 32 bytes: y with the parity of x in the top bit. */
module PointEncoding {
  import opened Arithmetic
  import opened Limbs
  import opened DigitCutting
  import opened Residues
  import opened Field51
  import opened FieldPower
  import opened FieldEncoding
  import opened Edwards
  import opened SquareRoot
  import opened PointOps
  import opened Wrappers
  import Bytes = ScalarEncoding
  import BaseMult

  /** The encoding of the point with residues x and y. */
  function PackBytes(x: int, y: int): seq<int> {
    var e := Encode(y);
    e[31 := e[31] + 128 * (x % 2)]
  }

  /** The encoding of a curve point. */
  ghost function PointBytes<G(!new)>(c: Curve<G>, q: G): seq<int> {
    PackBytes(c.x(q) % c.f.p, c.y(q) % c.f.p)
  }

  /** The parity bit sits above the 255 bits of y. */
  lemma PackBytesValue(x: int, y: int)
    requires 0 <= y < TWO255
    ensures var b := PackBytes(x, y);
            |b| == 32 && Digits(256, b) && Bytes.LittleEndian(b) == y + TWO255 * (x % 2) && b[31] / 128 == x % 2
  {
    hide Encode;
    EncodeValue(y, 32);
    SetParity(Encode(y), y, x % 2, 31);
  }

  lemma EncodeValue(y: int, n: nat)
    requires 0 <= y < TWO255 && n == 32
    ensures |Encode(y)| == 32 && Digits(256, Encode(y)) && Value(256, Encode(y)) == y
  {
    hide DigitsOf, Value, Pow;
    Bytes.BytePow(n);
    DigitsOfValue(256, y, n);
    SmallMod(y, Pow(256, n));
  }

  /** The top byte of a residue is below 128. */
  lemma TopByte(e: seq<int>, y: int, n: nat)
    requires n == 31 && |e| == 32 && Digits(256, e) && Value(256, e) == y && 0 <= y < TWO255
    ensures 0 <= e[n] < 128
  {
    hide Value, Pow;
    Bytes.BytePow(n);
    ValueSnoc(256, e, n);
    assert e[..32] == e;
    ValueBound(256, e[..31]);
    TopBelow(Value(256, e[..31]), Pow(256, n), e[n], 128);
  }

  lemma SetParity(e: seq<int>, y: int, bit: int, n: nat)
    requires n == 31 && |e| == 32 && Digits(256, e) && Value(256, e) == y && 0 <= y < TWO255 && 0 <= bit <= 1
    ensures var r := e[n := e[n] + 128 * bit];
            Digits(256, r) && Value(256, r) == y + TWO255 * bit && r[n] / 128 == bit
  {
    hide Value, Pow;
    TopByte(e, y, n);
    ValueUpdate(256, e, n, e[n] + 128 * bit);
    Bytes.BytePow(n);
  }

  lemma FieldOf<G(!new)>(c: Curve<G>)
    requires Ed25519(c)
    ensures c.f == F25519 && EdwardsCurve(c) && Suitable(c.f)
  {
    FieldIs(c);
    Field25519();
  }

  /** ge25519_pack: any coordinates of q give the bytes of q. */
  method Pack<G(!new)>(p: Point, ghost c: Curve<G>, ghost q: G) returns (r: seq<int>)
    requires Ed25519(c) && Fermat(c.f) && IsPartial(c, p, q)
    ensures r == PointBytes(c, q) && |r| == 32 && Digits(256, r)
  {
    hide PackBytes, Fermat, Ed25519, IsPartial, Fv;
    var tx, ty := ToAffine(p, c, q);
    r := PackAffine(tx, ty);
  }

  /** X/Z and Y/Z. */
  method ToAffine<G(!new)>(p: Point, ghost c: Curve<G>, ghost q: G) returns (x: Fe, y: Fe)
    requires Ed25519(c) && Fermat(c.f) && IsPartial(c, p, q)
    ensures Carried(x) && Carried(y) && Fv(x) == c.x(q) % c.f.p && Fv(y) == c.y(q) % c.f.p
  {
    FieldOf(c);
    hide FPow, RecipExponent, Fermat, Ed25519, EdwardsCurve, Suitable, Fv, FMul, IsPartial;
    PartialFacts(c, p, q);
    var zi := Recip(p.z);
    Divided(p, zi, c, q);
    x := FeMul(p.x, zi);
    y := FeMul(p.y, zi);
  }

  /** The parity bit of x goes above the bytes of y. */
  method PackAffine(x: Fe, y: Fe) returns (r: seq<int>)
    requires Carried(x) && Carried(y)
    ensures r == PackBytes(Fv(x), Fv(y)) && |r| == 32 && Digits(256, r)
  {
    hide Fv, Encode, PackBytes, Bytes.LittleEndian;
    ResidueBound(y);
    PackBytesIs(Fv(x), Fv(y));
    r := Contract(y);
    var parity := Contract(x);
    LowByte(parity);
    r := SetTop(r, parity[0] % 2);
  }

  lemma ResidueBound(a: Fe)
    ensures 0 <= Fv(a) < TWO255
  {}

  method SetTop(e: seq<int>, bit: int) returns (r: seq<int>)
    requires |e| == 32
    ensures r == e[31 := e[31] + 128 * bit]
  {
    r := e[31 := e[31] + 128 * bit];
  }

  lemma PackBytesIs(x: int, y: int)
    requires 0 <= y < TWO255
    ensures |Encode(y)| == 32 && |PackBytes(x, y)| == 32 && Digits(256, PackBytes(x, y))
    ensures PackBytes(x, y) == Encode(y)[31 := Encode(y)[31] + 128 * (x % 2)]
  {
    PackBytesValue(x, y);
  }

  lemma PartialFacts<G(!new)>(c: Curve<G>, p: Point, q: G)
    requires IsPartial(c, p, q)
    ensures Carried(p.x) && Carried(p.y) && Carried(p.z)
  {}

  lemma Divided<G(!new)>(p: Point, zi: Fe, c: Curve<G>, q: G)
    requires c.f == F25519 && Fermat(c.f) && IsPartial(c, p, q) && Is(zi, Fv(p.z), RecipExponent())
    ensures FMul(c.f, Fv(p.x), Fv(zi)) == c.x(q) % c.f.p && FMul(c.f, Fv(p.y), Fv(zi)) == c.y(q) % c.f.p
    ensures Carried(zi)
  {
    hide RecipExponent, Fermat, Fv, FMul, FPow;
    Exponents();
    PartialIff(c, Fv(p.x), Fv(p.y), Fv(p.z), q);
    Affine(c.f, Fv(p.x), Fv(p.z), c.x(q), RecipExponent());
    Affine(c.f, Fv(p.y), Fv(p.z), c.y(q), RecipExponent());
  }

  lemma LowByte(s: seq<int>)
    requires |s| == 32
    ensures Bytes.LittleEndian(s) % 2 == s[0] % 2
  {
    assert Bytes.LittleEndian(s) == s[0] + 256 * Value(256, s[1..]);
  }

  /** The parts of x^2 = (y^2 - 1) / (d y^2 + 1). */
  function Num(f: Field, y: int): int {
    FSub(f, FMul(f, y, y), 1)
  }

  function Den(f: Field, y: int): int {
    FAdd(f, FMul(f, FMul(f, y, y), f.d), 1)
  }

  /** The x coordinate whose parity differs from the sign bit, when y has one. */
  function UnpackX(f: Field, y: int, sign: int): Option<int> {
    match Root(f, Num(f, y), Den(f, y))
    case None => None
    case Some(x) => Some(if x % 2 == sign then FSub(f, 0, x) else x)
  }

  function YOf(p: seq<int>): int
    requires |p| == 32
  {
    Bytes.LittleEndian(p) % TWO255 % F25519.p
  }

  /** The limb form of the root of -1. */
  const SQRTNEG1: Fe := Fe(0x00061b274a0ea0b0, 0x0000d5a5fc8f189d, 0x0007ef5e9cbd0c60, 0x00078595a6804c9e, 0x0002b8324804fc1d)

  lemma ConstantValues()
    ensures Carried(SQRTNEG1) && Fv(SQRTNEG1) == F25519.i
    ensures Carried(Fe(1, 0, 0, 0, 0)) && Fv(Fe(1, 0, 0, 0, 0)) == 1
    ensures Carried(BaseMult.ECD) && Fv(BaseMult.ECD) == F25519.d
  {
    BaseMult.ECDValue();
  }

  /** Whether a residue is zero, decided on its bytes. */
  method IsZero(a: Fe) returns (zero: bool)
    requires Bounded(a, N54)
    ensures zero == (Fv(a) == 0)
  {
    var check := Contract(a);
    hide Fv, Encode, Bytes.LittleEndian;
    zero := check == Zeros(32);
    ZeroBytes(check, Fv(a));
  }

  lemma ZeroBytes(s: seq<int>, x: int)
    requires |s| == 32 && Digits(256, s) && Bytes.LittleEndian(s) == x
    ensures s == Zeros(32) <==> x == 0
  {
    BaseMult.ByteOne(32);
    if x == 0 {
      ValueInjective(256, s, Zeros(32));
    }
  }

  /** Steps 1 and 2: the candidate root. */
  method CandidateRoot(num: Fe, den: Fe) returns (x: Fe)
    requires Carried(num) && Bounded(den, N54)
    ensures Carried(x) && Fv(x) == Candidate(F25519, Fv(num), Fv(den))
  {
    Exponents();
    hide Fv, FMul, FPow, RootExponent;
    var t := FeSquare(den);
    var d3 := FeMul(t, den);
    x := FeSquare(d3);
    x := FeMul(x, den);
    x := FeMul(x, num);
    x := PowTwo252m3(x);
    x := FeMul(x, d3);
    x := FeMul(x, num);
  }

  /** Step 3: the candidate, or the candidate times the root of -1, or nothing. */
  method CheckedRoot(num: Fe, den: Fe) returns (r: Option<Fe>)
    requires Carried(num) && Bounded(den, N54)
    ensures Root(F25519, Fv(num), Fv(den)) == if r.None? then None else Some(Fv(r.value))
    ensures r.Some? ==> Carried(r.value)
  {
    ConstantValues();
    hide Fv, FMul, FSub, FAdd, Candidate;
    var x := CandidateRoot(num, den);
    var t := FeSquare(x);
    t := FeMul(t, den);
    var root := FeSubReduce(t, num);
    var zero := IsZero(root);
    if !zero {
      t := FeAddReduce(t, num);
      zero := IsZero(t);
      if !zero {
        return None;
      }
      x := FeMul(x, SQRTNEG1);
    }
    r := Some(x);
  }

  /** The residues an unpacked point has. */
  ghost predicate Unpacked(f: Field, p: Point, x: int, y: int) {
    && Carried(p.x) && Carried(p.y) && Carried(p.z) && Carried(p.t)
    && Fv(p.x) == x && Fv(p.y) == y && Fv(p.z) == 1 && Fv(p.t) == FMul(f, x, y)
  }

  method Parts(y: Fe) returns (num: Fe, den: Fe)
    requires Carried(y)
    ensures Carried(num) && Bounded(den, N54) && Fv(num) == Num(F25519, Fv(y)) && Fv(den) == Den(F25519, Fv(y))
  {
    ConstantValues();
    hide Fv, FMul, FSub, FAdd;
    var one := Fe(1, 0, 0, 0, 0);
    num := FeSquare(y);
    den := FeMul(num, BaseMult.ECD);
    num := FeSubReduce(num, one);
    den := FeAdd(den, one);
  }

  /** Negates x when its parity is the sign bit. */
  method FixSign(x: Fe, sign: int) returns (x': Fe)
    requires Carried(x)
    ensures Carried(x') && Fv(x') == if Fv(x) % 2 == sign then FSub(F25519, 0, Fv(x)) else Fv(x)
  {
    hide Fv, FSub, Encode;
    x' := x;
    var check := Contract(x);
    LowByte(check);
    if check[0] % 2 == sign {
      x' := FeNeg(x);
    }
  }

  /** ge25519_unpack_negative_vartime. */
  method UnpackNegative(p: seq<int>) returns (r: Option<Point>)
    requires |p| == 32 && Digits(256, p)
    ensures r.None? == UnpackX(F25519, YOf(p), p[31] / 128).None?
    ensures r.Some? ==> Unpacked(F25519, r.value, UnpackX(F25519, YOf(p), p[31] / 128).value, YOf(p))
    ensures r.Some? ==> Solves(F25519, Fv(r.value.x), YOf(p))
    ensures Fermat(F25519) && PrimeField(F25519) ==> (r.None? <==> NoCoordinate(F25519, YOf(p)))
  {
    UnpackResult(YOf(p), p[31] / 128);
    UnpackXIs(YOf(p), p[31] / 128);
    ConstantValues();
    hide Solves, NoCoordinate, UnpackX, Fermat, PrimeField, Fv, FMul, FSub, FAdd, Root, YOf, Num, Den;
    var sign := p[31] / 128;
    var y := ExpandY(p);
    var num, den := Parts(y);
    var root := CheckedRoot(num, den);
    if root.None? {
      return None;
    }
    var x := FixSign(root.value, sign);
    var t := FeMul(x, y);
    r := Some(Point(x, y, Fe(1, 0, 0, 0, 0), t));
  }

  lemma UnpackXIs(y: int, sign: int)
    ensures UnpackX(F25519, y, sign) ==
            match Root(F25519, Num(F25519, y), Den(F25519, y))
            case None => None
            case Some(x) => Some(if x % 2 == sign then FSub(F25519, 0, x) else x)
  {}

  lemma UnpackResult(y: int, sign: int)
    ensures UnpackX(F25519, y, sign).Some? ==> Solves(F25519, UnpackX(F25519, y, sign).value, y)
    ensures Fermat(F25519) && PrimeField(F25519) ==> (UnpackX(F25519, y, sign).None? <==> NoCoordinate(F25519, y))
  {
    Field25519();
    hide UnpackX, Solves, Suitable, NoCoordinate;
    if UnpackX(F25519, y, sign).Some? {
      UnpackSound(F25519, y, sign);
    }
    if Fermat(F25519) && PrimeField(F25519) {
      UnpackFails(F25519, y, sign);
    }
  }

  method ExpandY(p: seq<int>) returns (y: Fe)
    requires |p| == 32 && Digits(256, p)
    ensures Carried(y) && Fv(y) == YOf(p)
  {
    y := Expand(p);
  }

  lemma PartsEq(f: Field, y: int)
    ensures Eq(f, Num(f, y), y * y - 1) && Eq(f, Den(f, y), f.d * (y * y) + 1)
  {
    EqOps(f, y, y);
    EqOps(f, FMul(f, y, y), 1);
    EqAdd(f, FMul(f, y, y), y * y, 1, 1);
    EqOps(f, FMul(f, y, y), f.d);
    EqMul(f, FMul(f, y, y), y * y, f.d, f.d);
    EqOps(f, FMul(f, FMul(f, y, y), f.d), 1);
    EqAdd(f, FMul(f, FMul(f, y, y), f.d), f.d * (y * y), 1, 1);
  }

  /** A root of num/den is an x coordinate for y, and conversely. */
  lemma RootIsCoordinate(f: Field, x: int, y: int)
    ensures Eq(f, (x * x) * Den(f, y), Num(f, y)) <==> Solves(f, x, y)
  {
    hide Num, Den;
    PartsEq(f, y);
    CrossMultiplied(f, x * x, y * y, Den(f, y), Num(f, y));
  }

  lemma CrossMultiplied(f: Field, a: int, b: int, den: int, num: int)
    requires Eq(f, den, f.d * b + 1) && Eq(f, num, b - 1)
    ensures Eq(f, a * den, num) <==> Eq(f, b - a, 1 + f.d * (a * b))
  {
    EqMul(f, a, a, den, f.d * b + 1);
    MulDist(f.d * b, 1, a);
    MulAssoc(f.d, b, a);
    MovedTerms(f, f.d * (a * b) + a, b - 1, b - a, 1 + f.d * (a * b));
  }

  lemma MovedTerms(f: Field, a: int, b: int, c: int, d: int)
    requires a - b == d - c
    ensures Eq(f, a, b) <==> Eq(f, c, d)
  {
    DifferenceZero(f, a, b);
    DifferenceZero(f, d, c);
  }

  /** A root is a canonical residue; its negation has the other parity unless it is zero. */
  lemma SignFixed(f: Field, x: int, sign: int)
    requires 0 <= x < f.p && f.p % 2 == 1
    ensures var x' := if x % 2 == sign then FSub(f, 0, x) else x;
            0 <= x' < f.p && (x' % 2 != sign || x' == 0) && Eq(f, x' * x', x * x)
  {
    NegatedResidue(f, x);
    hide FSub;
    if x % 2 == sign {
      NegatedSquare(f, x);
    }
  }

  lemma NegatedResidue(f: Field, x: int)
    requires 0 <= x < f.p
    ensures FSub(f, 0, x) == if x == 0 then 0 else f.p - x
  {
    if x != 0 {
      DivModUnique(-x, f.p, -1, f.p - x);
    }
  }

  lemma NegatedSquare(f: Field, x: int)
    ensures Eq(f, FSub(f, 0, x) * FSub(f, 0, x), x * x)
  {
    EqOps(f, 0, x);
    hide FSub;
    EqMul(f, FSub(f, 0, x), 0 - x, FSub(f, 0, x), 0 - x);
    assert (0 - x) * (0 - x) == x * x;
  }

  lemma RootRange(f: Field, num: int, den: int)
    requires Root(f, num, den).Some?
    ensures 0 <= Root(f, num, den).value < f.p
  {
    hide FPow;
  }

  /** Whatever unpacks lies on the curve, with the parity opposite to the sign bit unless x is zero. */
  lemma UnpackSound(f: Field, y: int, sign: int)
    requires Suitable(f) && UnpackX(f, y, sign).Some?
    ensures var x := UnpackX(f, y, sign).value;
            && 0 <= x < f.p && (x % 2 != sign || x == 0)
            && Solves(f, x, y)
            && Eq(f, (x * x) * Den(f, y), Num(f, y))
  {
    hide Num, Den, Root;
    var x := Root(f, Num(f, y), Den(f, y)).value;
    RootSound(f, Num(f, y), Den(f, y));
    RootRange(f, Num(f, y), Den(f, y));
    SignFixed(f, x, sign);
    var x' := UnpackX(f, y, sign).value;
    hide UnpackX;
    EqMul(f, x' * x', x * x, Den(f, y), Den(f, y));
    RootIsCoordinate(f, x', y);
  }

  /** On the curve the denominator does not vanish: otherwise y^2 = 1 and d = -1. */
  lemma DenNonzero(f: Field, x: int, y: int)
    requires Suitable(f) && Eq(f, (x * x) * Den(f, y), Num(f, y))
    ensures Nonzero(f, Den(f, y))
  {
    PartsEq(f, y);
    hide Num, Den;
    if !Nonzero(f, Den(f, y)) {
      EqMul(f, x * x, x * x, Den(f, y), 0);
      EqAdd(f, Num(f, y), 0, 1, 1);
      EqAdd(f, y * y - 1, 0, 1, 1);
      EqMul(f, f.d, f.d, y * y, 1);
      EqAdd(f, f.d * (y * y), f.d, 1, 1);
      assert false;
    }
  }

  /** y belongs to no point. */
  ghost predicate NoCoordinate(f: Field, y: int) {
    forall x {:trigger Solves(f, x, y)} :: !Solves(f, x, y)
  }

  /** Decompression fails exactly when no x satisfies the curve equation with y. */
  lemma UnpackFails(f: Field, y: int, sign: int)
    requires Suitable(f) && Fermat(f) && PrimeField(f)
    ensures UnpackX(f, y, sign).None? <==> NoCoordinate(f, y)
  {
    if UnpackX(f, y, sign).Some? {
      UnpackSound(f, y, sign);
    }
    if x :| Solves(f, x, y) {
      RootIsCoordinate(f, x, y);
      DenNonzero(f, x, y);
      RootComplete(f, Num(f, y), Den(f, y), x);
    }
  }

  /** Two roots of the same number differ at most in sign. */
  lemma SameSquares(f: Field, x: int, u: int, den: int)
    requires PrimeField(f) && Nonzero(f, den) && Eq(f, (x * x) * den, (u * u) * den)
    ensures Eq(f, x, u) || Eq(f, x, -u)
  {
    DifferenceZero(f, (x * x) * den, (u * u) * den);
    assert (x * x) * den - (u * u) * den == ((x - u) * (x + u)) * den by {
      MulDist(x * x, u * u, den);
      assert (x - u) * (x + u) == x * x - u * u;
    }
    assert NoZeroDivisors(f, (x - u) * (x + u), den);
    assert NoZeroDivisors(f, x - u, x + u);
    DifferenceZero(f, x, u);
    DifferenceZero(f, x, -u);
  }

  /** Unpacking the coordinates of a curve point succeeds and gives the negated x. */
  lemma UnpackNegates<G(!new)>(c: Curve<G>, q: G)
    requires EdwardsCurve(c) && Suitable(c.f) && Fermat(c.f)
    ensures var (y, sign) := (c.y(q) % c.f.p, c.x(q) % c.f.p % 2);
            UnpackX(c.f, y, sign).Some? && Eq(c.f, UnpackX(c.f, y, sign).value, -c.x(q))
  {
    var (x, y) := (c.x(q) % c.f.p, c.y(q) % c.f.p);
    ResidueOnCurve(c, q, x, y);
    RootIsCoordinate(c.f, x, y);
    DenNonzero(c.f, x, y);
    RootComplete(c.f, Num(c.f, y), Den(c.f, y), x);
    UnpackSound(c.f, y, x % 2);
    var x' := UnpackX(c.f, y, x % 2).value;
    hide UnpackX, Num, Den, EdwardsCurve, Fermat;
    SameSquares(c.f, x', x, Den(c.f, y));
    OppositeResidue(c.f, x', x, c.x(q));
  }

  lemma ResidueOnCurve<G(!new)>(c: Curve<G>, q: G, x: int, y: int)
    requires EdwardsCurve(c) && x == c.x(q) % c.f.p && y == c.y(q) % c.f.p
    ensures Solves(c.f, x, y)
  {
    var (u, v) := (c.x(q), c.y(q));
    assert OnCurve(c, q);
    ModSelf(u, c.f.p);
    ModSelf(v, c.f.p);
    EqMul(c.f, x, u, x, u);
    EqMul(c.f, y, v, y, v);
    EqAdd(c.f, y * y, v * v, x * x, u * u);
    EqMul(c.f, x * x, u * u, y * y, v * v);
    EqMul(c.f, c.f.d, c.f.d, (x * x) * (y * y), (u * u) * (v * v));
    EqAdd(c.f, 1, 1, c.f.d * ((x * x) * (y * y)), c.f.d * ((u * u) * (v * v)));
  }

  lemma OppositeResidue(f: Field, x': int, x: int, u: int)
    requires 0 <= x' < f.p && x == u % f.p && (Eq(f, x', x) || Eq(f, x', -x)) && (x' % 2 != x % 2 || x' == 0)
    ensures Eq(f, x', -u)
  {
    ModSelf(u, f.p);
    EqAdd(f, 0, 0, x, u);
    if Eq(f, x', x) {
      SmallMod(x', f.p);
      SmallMod(x, f.p);
    }
  }

  /** Unpacking the bytes of q gives coordinates of its negation. */
  method UnpackOf<G(!new)>(p: seq<int>, ghost c: Curve<G>, ghost q: G) returns (r: Option<Point>)
    requires Ed25519(c) && Fermat(c.f) && p == PointBytes(c, q)
    ensures r.Some? && IsPoint(c, r.value, c.group.neg(q))
  {
    hide *;
    PointUnpacks(c, q, p);
    r := UnpackNegative(p);
    UnpackedIsPoint(c, r.value, UnpackX(c.f, YOf(p), p[31] / 128).value, q);
  }

  lemma PointUnpacks<G(!new)>(c: Curve<G>, q: G, p: seq<int>)
    requires Ed25519(c) && Fermat(c.f) && p == PointBytes(c, q)
    ensures c.f == F25519 && EdwardsCurve(c) && |p| == 32 && Digits(256, p) && YOf(p) == c.y(q) % c.f.p
    ensures UnpackX(c.f, YOf(p), p[31] / 128).Some? && Eq(c.f, UnpackX(c.f, YOf(p), p[31] / 128).value, -c.x(q))
  {
    hide UnpackX, YOf, PackBytes, Bytes.LittleEndian, Fermat, Ed25519, EdwardsCurve, Unpacked, Suitable, Eq;
    FieldOf(c);
    PackBytesValue(c.x(q) % c.f.p, c.y(q) % c.f.p);
    YOfBytes(p, c.x(q) % c.f.p, c.y(q) % c.f.p);
    UnpackNegates(c, q);
  }

  lemma YOfBytes(p: seq<int>, x: int, y: int)
    requires |p| == 32 && 0 <= y < F25519.p && Bytes.LittleEndian(p) == y + TWO255 * (x % 2)
    ensures YOf(p) == y
  {
    DivModUnique(Bytes.LittleEndian(p), TWO255, x % 2, y);
    SmallMod(y, F25519.p);
  }

  lemma UnpackedIsPoint<G(!new)>(c: Curve<G>, r: Point, x: int, q: G)
    requires EdwardsCurve(c) && Unpacked(c.f, r, x, c.y(q) % c.f.p) && Eq(c.f, x, -c.x(q))
    ensures IsPoint(c, r, c.group.neg(q))
  {
    var n, y := c.group.neg(q), c.y(q) % c.f.p;
    assert NegLaw(c, q);
    ModSelf(c.y(q), c.f.p);
    AffineIsFull(c, x, y, n);
  }
}
