/** Key generation, signing and verification. */
module Signature {
  import opened Arithmetic
  import opened Limbs
  import opened AbelianGroup
  import opened Residues
  import opened Edwards
  import opened PointOps
  import opened PointEncoding
  import opened BaseMult
  import opened ScalarMult
  import opened ScalarModm
  import opened Scalars
  import opened Clamping
  import opened Wrappers
  import Bytes = ScalarEncoding
  import Hash = Sha512
  import Field51
  import FieldEncoding

  /** The curve, and a base point whose order divides the group order m. */
  ghost predicate Setting<G(!new)>(c: Curve<G>, base: G) {
    Ed25519(c) && Fermat(c.f) && EveryPoint(c) && Mul(c.group, M, base) == c.group.zero
  }

  lemma DigestLength(msg: seq<int>)
    ensures |Hash.Sha512Of(msg)| == 64 && Digits(256, Hash.Sha512Of(msg))
  {
    Hash.DigestBytes(Hash.HashBlocks(Hash.IV(), Hash.Pad(msg)));
    hide Hash.HashBlocks, Hash.Pad, Hash.IV, Hash.Digest;
  }

  /** The expanded secret key. */
  function Extended(sk: seq<int>): (e: seq<int>)
    ensures |e| == 64
  {
    DigestLength(sk);
    Clamp(Hash.Sha512Of(sk))
  }

  function SecretScalar(sk: seq<int>): int {
    DigestLength(sk);
    Bytes.LittleEndian(Extended(sk)[..32]) % M
  }

  /** The per-message nonce. */
  function Nonce(sk: seq<int>, m: seq<int>): int {
    DigestLength(sk);
    Bytes.LittleEndian(Hash.Sha512Of(Extended(sk)[32..] + m)) % M
  }

  /** H(R, A, m). */
  function Challenge(r: seq<int>, pk: seq<int>, m: seq<int>): int {
    Bytes.LittleEndian(Hash.Sha512Of(r + pk + m)) % M
  }

  /** ed25519_extsk. */
  method ExtSk(sk: seq<int>) returns (e: seq<int>)
    ensures e == Extended(sk) && |e| == 64 && Digits(256, e) && Clamped(Bytes.LittleEndian(e[..32]))
    ensures var v := Bytes.LittleEndian(Hash.Sha512Of(sk)[..32]);
            Bytes.LittleEndian(e[..32]) == TWO254 + v % TWO254 - v % 8 && e[32..] == Hash.Sha512Of(sk)[32..]
  {
    DigestLength(sk);
    ClampedRange(Hash.Sha512Of(sk), 31);
    ClampedNumber(Hash.Sha512Of(sk), 31);
    hide Hash.Sha512Of;
    var h := Hash.Hash(sk);
    e := Clamp(h);
  }

  /** ed25519_hram: the three parts go through the streaming interface one by one. */
  method Hram(l: Layout, r: seq<int>, pk: seq<int>, m: seq<int>) returns (s: seq<int>)
    requires Known(l)
    ensures Reduced(l, s) && Val(l, s) == Challenge(r, pk, m)
    ensures Val(l, s) == Bytes.LittleEndian(Hash.Sha512Of(r + pk + m)) % M
  {
    DigestLength(r + pk + m);
    hide Hash.Sha512Of, Known, Reduced;
    var h := HashThree(r, pk, m);
    s := FromBytes(l, h);
  }

  method HashThree(a: seq<int>, b: seq<int>, d: seq<int>) returns (h: seq<int>)
    ensures h == Hash.Sha512Of(a + b + d)
  {
    hide *;
    var ctx := new Hash.State();
    ctx.Update(a);
    ctx.Update(b);
    ctx.Update(d);
    assert [] + a == a;
    h := ctx.Final();
  }

  method HashTwo(a: seq<int>, b: seq<int>) returns (h: seq<int>)
    ensures h == Hash.Sha512Of(a + b)
  {
    hide *;
    var ctx := new Hash.State();
    ctx.Update(a);
    ctx.Update(b);
    assert [] + a == a;
    h := ctx.Final();
  }

  /** Which half of the digest of the secret key is the scalar, and which is hashed with the message. */
  lemma KeyHalves(sk: seq<int>, m: seq<int>)
    ensures var h := Hash.Sha512Of(sk);
            var v := Bytes.LittleEndian(h[..32]);
            && SecretScalar(sk) == (TWO254 + v % TWO254 - v % 8) % M
            && Nonce(sk, m) == Bytes.LittleEndian(Hash.Sha512Of(h[32..] + m)) % M
  {
    DigestLength(sk);
    ClampedNumber(Hash.Sha512Of(sk), 31);
    hide Hash.Sha512Of, Bytes.LittleEndian, Clamp;
  }

  /** Signatures that share a challenge collide in the hash modulo m. */
  lemma SameChallenge(r: seq<int>, a: seq<int>, m: seq<int>, r': seq<int>, a': seq<int>, m': seq<int>)
    requires |r| == |a| == |r'| == |a'| == 32 && (r != r' || a != a' || m != m') && Challenge(r, a, m) == Challenge(r', a', m')
    ensures r + a + m != r' + a' + m'
    ensures Bytes.LittleEndian(Hash.Sha512Of(r + a + m)) % M == Bytes.LittleEndian(Hash.Sha512Of(r' + a' + m')) % M
  {
    hide Hash.Sha512Of, Bytes.LittleEndian;
    var x, y := r + a + m, r' + a' + m';
    assert x[..32] == r && x[32..64] == a && x[64..] == m;
    assert y[..32] == r' && y[32..64] == a' && y[64..] == m';
  }

  /** s times the base point, packed. */
  method PackedMultiple<G(!new)>(l: Layout, s: seq<int>, table: seq<seq<int>>, ghost c: Curve<G>, ghost base: G) returns (r: seq<int>)
    requires Reduced(l, s) && Ed25519(c) && Fermat(c.f) && BaseTable(c, table, base)
    ensures r == PointBytes(c, Mul(c.group, Val(l, s), base)) && |r| == 32 && Digits(256, r)
  {
    hide *;
    ReducedRecodable(l, s);
    var p := ScalarMultBase(l, s, table, c, base);
    PointIsPartial(c, p, Mul(c.group, Val(l, s), base));
    r := Pack(p, c, Mul(c.group, Val(l, s), base));
  }

  ghost function PublicKeyOf<G(!new)>(c: Curve<G>, base: G, sk: seq<int>): seq<int> {
    PointBytes(c, Mul(c.group, SecretScalar(sk), base))
  }

  /** ed25519_publickey. */
  method PublicKey<G(!new)>(l: Layout, sk: seq<int>, table: seq<seq<int>>, ghost c: Curve<G>, ghost base: G) returns (pk: seq<int>)
    requires Known(l) && Ed25519(c) && Fermat(c.f) && BaseTable(c, table, base)
    ensures pk == PublicKeyOf(c, base, sk) && |pk| == 32 && Digits(256, pk)
    ensures var v := Bytes.LittleEndian(Hash.Sha512Of(sk)[..32]);
            pk == PointBytes(c, Mul(c.group, (TWO254 + v % TWO254 - v % 8) % M, base))
  {
    KeyHalves(sk, []);
    hide Known, Ed25519, EdwardsCurve, Fermat, BaseTable, Reduced, Extended, Bytes.LittleEndian, PointBytes, Hash.Sha512Of;
    var e := ExtSk(sk);
    var a := FromBytes(l, e[..32]);
    pk := PackedMultiple(l, a, table, c, base);
  }

  /** The response S = r + H(R, A, m) a. */
  function Response(sk: seq<int>, pk: seq<int>, m: seq<int>, r: seq<int>): int {
    (Challenge(r, pk, m) * SecretScalar(sk) + Nonce(sk, m)) % M
  }

  /** What a signature of m under sk and pk is. */
  ghost predicate IsSignature<G(!new)>(c: Curve<G>, base: G, m: seq<int>, sk: seq<int>, pk: seq<int>, rs: seq<int>) {
    && |rs| == 64 && Digits(256, rs)
    && rs[..32] == PointBytes(c, Mul(c.group, Nonce(sk, m), base))
    && Bytes.LittleEndian(rs[32..]) == Response(sk, pk, m, rs[..32]) && rs[63] < 32
  }

  method NonceScalar(l: Layout, sk: seq<int>, e: seq<int>, m: seq<int>) returns (r: seq<int>)
    requires Known(l) && |e| == 64 && e == Extended(sk)
    ensures Reduced(l, r) && Val(l, r) == Nonce(sk, m)
  {
    DigestLength(e[32..] + m);
    hide Known, Reduced, Extended, Hash.Sha512Of, Bytes.LittleEndian;
    var hashr := HashTwo(e[32..], m);
    r := FromBytes(l, hashr);
  }

  method ResponseScalar(l: Layout, sk: seq<int>, e: seq<int>, pk: seq<int>, m: seq<int>, R: seq<int>, r: seq<int>) returns (S: seq<int>)
    requires Known(l) && |e| == 64 && Digits(256, e) && e == Extended(sk) && Reduced(l, r) && Val(l, r) == Nonce(sk, m)
    ensures Reduced(l, S) && Val(l, S) == Response(sk, pk, m, R)
  {
    hide Known, Reduced, Extended, Challenge, Nonce, Bytes.LittleEndian, Hash.Sha512Of;
    S := Hram(l, R, pk, m);
    var a := FromBytes(l, e[..32]);
    S := Times(l, S, a);
    ModAdd(Challenge(R, pk, m) * SecretScalar(sk), Nonce(sk, m));
    S := Plus(l, S, r);
  }

  lemma ModAdd(x: int, y: int)
    ensures (x % M + y) % M == (x + y) % M
  {
    ModSelf(x, M);
    CongAdd(x % M, x, y, y, M);
  }

  /** ed25519_sign. */
  method Sign<G(!new)>(l: Layout, m: seq<int>, sk: seq<int>, pk: seq<int>, table: seq<seq<int>>, ghost c: Curve<G>, ghost base: G)
    returns (rs: seq<int>)
    requires Known(l) && Ed25519(c) && Fermat(c.f) && BaseTable(c, table, base)
    ensures IsSignature(c, base, m, sk, pk, rs)
    ensures var h := Hash.Sha512Of(sk);
            var v := Bytes.LittleEndian(h[..32]);
            var a := TWO254 + v % TWO254 - v % 8;
            var r := Bytes.LittleEndian(Hash.Sha512Of(h[32..] + m)) % M;
            && |rs| == 64 && rs[63] < 32 && rs[..32] == PointBytes(c, Mul(c.group, r, base))
            && Bytes.LittleEndian(rs[32..]) == (Bytes.LittleEndian(Hash.Sha512Of(rs[..32] + pk + m)) % M * (a % M) + r) % M
  {
    hide Known, Ed25519, EdwardsCurve, Fermat, BaseTable, Reduced, Extended, Nonce, Response, PointBytes, Bytes.LittleEndian, Hash.Sha512Of, Mul;
    var e := ExtSk(sk);
    var r := NonceScalar(l, sk, e, m);
    var R := PackedMultiple(l, r, table, c, base);
    var S := ResponseScalar(l, sk, e, pk, m, R, r);
    var s := ToBytes(l, S);
    rs := R + s;
    assert rs[..32] == R && rs[32..] == s;
    SignatureParts(c, base, m, sk, pk, rs);
  }

  lemma SignatureParts<G(!new)>(c: Curve<G>, base: G, m: seq<int>, sk: seq<int>, pk: seq<int>, rs: seq<int>)
    requires IsSignature(c, base, m, sk, pk, rs)
    ensures var h := Hash.Sha512Of(sk);
            var v := Bytes.LittleEndian(h[..32]);
            var a := TWO254 + v % TWO254 - v % 8;
            var r := Bytes.LittleEndian(Hash.Sha512Of(h[32..] + m)) % M;
            && |rs| == 64 && rs[63] < 32 && rs[..32] == PointBytes(c, Mul(c.group, r, base))
            && Bytes.LittleEndian(rs[32..]) == (Bytes.LittleEndian(Hash.Sha512Of(rs[..32] + pk + m)) % M * (a % M) + r) % M
  {
    KeyHalves(sk, m);
    hide SecretScalar, Nonce, Hash.Sha512Of, Bytes.LittleEndian, PointBytes, Mul;
  }

  /** The negated point a public key or R stands for. */
  function DecodeNegative<G(!new)>(c: Curve<G>, p: seq<int>): Option<G>
    requires |p| == 32
  {
    match UnpackX(c.f, YOf(p), p[31] / 128)
    case None => None
    case Some(x) => Some(c.at(x, YOf(p)))
  }

  lemma DecodedPoint<G(!new)>(c: Curve<G>, p: seq<int>, r: Point)
    requires |p| == 32 && EveryPoint(c) && Suitable(c.f) && UnpackX(c.f, YOf(p), p[31] / 128).Some?
    requires Unpacked(c.f, r, UnpackX(c.f, YOf(p), p[31] / 128).value, YOf(p))
    ensures IsPoint(c, r, DecodeNegative(c, p).value)
  {
    var y, x := YOf(p), UnpackX(c.f, YOf(p), p[31] / 128).value;
    hide UnpackX, YOf, Num, Den;
    UnpackSound(c.f, y, p[31] / 128);
    assert PointAt(c, x, y);
    var q := c.at(x, y);
    AffineIsFull(c, x, y, q);
  }

  /** ge25519_is_neutral_vartime: X is zero and Y equals Z exactly for the neutral element. */
  method IsNeutral<G(!new)>(p: Point, ghost c: Curve<G>, ghost q: G) returns (neutral: bool)
    requires Ed25519(c) && EveryPoint(c) && IsPartial(c, p, q)
    ensures neutral <==> q == c.group.zero
  {
    FieldOf(c);
    NeutralCoordinates(c, Field51.Fv(p.x), Field51.Fv(p.y), Field51.Fv(p.z), q);
    var x := FieldEncoding.Contract(p.x);
    var y := FieldEncoding.Contract(p.y);
    var z := FieldEncoding.Contract(p.z);
    ZeroBytes(x, Field51.Fv(p.x));
    hide Ed25519, EdwardsCurve, EveryPoint, RepPartial, FieldEncoding.Encode, Bytes.LittleEndian, Field51.Fv;
    neutral := x == Zeros(32) && y == z;
  }

  lemma NeutralCoordinates<G(!new)>(c: Curve<G>, x: int, y: int, z: int, q: G)
    requires EdwardsCurve(c) && EveryPoint(c) && RepPartial(c, x, y, z, q)
    requires 0 <= x < c.f.p && 0 <= y < c.f.p && 0 <= z < c.f.p
    ensures x == 0 && y == z <==> q == c.group.zero
  {
    var (u, v) := (c.x(q), c.y(q));
    PartialIff(c, x, y, z, q);
    SmallMod(x, c.f.p);
    SmallMod(y, c.f.p);
    SmallMod(z, c.f.p);
    if q == c.group.zero {
      EqMul(c.f, u, 0, z, z);
      EqMul(c.f, v, 1, z, z);
    }
    if x == 0 && y == z {
      assert NoZeroDivisors(c.f, u, z) && NoZeroDivisors(c.f, v - 1, z);
      DifferenceZero(c.f, v * z, z);
      MulDist(v, 1, z);
      DifferenceZero(c.f, v, 1);
      assert SamePoint(c, q, c.group.zero);
    }
  }

  /** The verification equation, for any bytes: the top three bits of S are clear, A decodes and R = S B - H(R, A, m) A. */
  ghost predicate Accepts<G(!new)>(c: Curve<G>, base: G, m: seq<int>, pk: seq<int>, rs: seq<int>)
    requires |pk| == 32 && |rs| == 64
  {
    && rs[63] < 32 && DecodeNegative(c, pk).Some?
    && rs[..32] == PointBytes(c, Lin(c.group, Challenge(rs[..32], pk, m), DecodeNegative(c, pk).value,
                                     Bytes.LittleEndian(rs[32..]) % M, base))
  }

  /** ge25519_unpack_negative_vartime on any bytes. */
  method Decode<G(!new)>(p: seq<int>, ghost c: Curve<G>) returns (r: Option<Point>)
    requires |p| == 32 && Digits(256, p) && Ed25519(c) && EveryPoint(c)
    ensures r.Some? == DecodeNegative(c, p).Some?
    ensures r.Some? ==> IsPoint(c, r.value, DecodeNegative(c, p).value)
  {
    FieldOf(c);
    hide UnpackX, YOf, Ed25519, EdwardsCurve, EveryPoint, Unpacked, IsPoint, Suitable, Solves, NoCoordinate;
    r := UnpackNegative(p);
    if r.Some? {
      DecodedPoint(c, p, r.value);
    }
  }

  /** ed25519_sign_open. */
  method SignOpen<G(!new)>(l: Layout, m: seq<int>, pk: seq<int>, rs: seq<int>, sliding: seq<Niels>, ghost c: Curve<G>, ghost base: G)
    returns (accept: bool)
    requires Known(l) && Ed25519(c) && Fermat(c.f) && EveryPoint(c) && OddNiels(c, sliding, base) && |sliding| == 32
    requires |pk| == 32 && Digits(256, pk) && |rs| == 64 && Digits(256, rs)
    ensures accept == Accepts(c, base, m, pk, rs)
    ensures accept <==>
            && rs[63] < 32 && DecodeNegative(c, pk).Some?
            && rs[..32] == PointBytes(c, Lin(c.group, Bytes.LittleEndian(Hash.Sha512Of(rs[..32] + pk + m)) % M, DecodeNegative(c, pk).value,
                                             Bytes.LittleEndian(rs[32..]) % M, base))
  {
    hide Known, Ed25519, EdwardsCurve, Fermat, EveryPoint, OddNiels, Reduced, DecodeNegative, Challenge, PointBytes, Bytes.LittleEndian, Lin, IsPoint, IsPartial;
    if rs[63] / 32 != 0 {
      return false;
    }
    var A := Decode(pk, c);
    if A.None? {
      return false;
    }
    var hram := Hram(l, rs[..32], pk, m);
    var S := FromBytes(l, rs[32..]);
    ReducedRecodable(l, hram);
    ReducedRecodable(l, S);
    ghost var q := DecodeNegative(c, pk).value;
    ghost var sum := Lin(c.group, Val(l, hram), q, Val(l, S), base);
    var R := DoubleScalarMult(l, A.value, hram, S, sliding, c, q, base);
    var checkR := Pack(R, c, sum);
    accept := rs[..32] == checkR;
  }

  /** The public key decodes to the negated public point. */
  lemma KeyDecodes<G(!new)>(c: Curve<G>, q: G)
    requires Ed25519(c) && Fermat(c.f) && EveryPoint(c)
    ensures var p := PointBytes(c, q);
            |p| == 32 && DecodeNegative(c, p) == Some(c.group.neg(q))
  {
    hide UnpackX, YOf, PackBytes, Fermat, EveryPoint, Ed25519, EdwardsCurve, Eq, Solves;
    var u, y := c.x(q) % c.f.p, c.y(q) % c.f.p;
    var x := KeyUnpacks(c, q, u, y, PackBytes(u, y));
    FieldOf(c);
    NegatedAt(c, q, x, y);
  }

  lemma KeyUnpacks<G(!new)>(c: Curve<G>, q: G, u: int, y: int, p: seq<int>) returns (x: int)
    requires Ed25519(c) && Fermat(c.f) && u == c.x(q) % c.f.p && y == c.y(q) % c.f.p && p == PackBytes(u, y)
    ensures |p| == 32 && YOf(p) == y && UnpackX(c.f, y, p[31] / 128) == Some(x)
    ensures Eq(c.f, x, -c.x(q)) && Solves(c.f, x, y)
  {
    hide UnpackX, YOf, PackBytes, Fermat, Ed25519, EdwardsCurve, Bytes.LittleEndian, Eq, Solves, Num, Den, Suitable;
    FieldOf(c);
    PackBytesValue(u, y);
    YOfBytes(p, u, y);
    UnpackNegates(c, q);
    UnpackSound(c.f, y, u % 2);
    x := UnpackX(c.f, y, u % 2).value;
  }

  lemma NegatedAt<G(!new)>(c: Curve<G>, q: G, x: int, y: int)
    requires EdwardsCurve(c) && EveryPoint(c) && y == c.y(q) % c.f.p
    requires Eq(c.f, x, -c.x(q)) && Solves(c.f, x, y)
    ensures c.at(x, y) == c.group.neg(q)
  {
    assert PointAt(c, x, y) && NegLaw(c, q) && SamePoint(c, c.at(x, y), c.group.neg(q));
    hide Ed25519, EdwardsCurve, EveryPoint, Solves;
    ModSelf(c.y(q), c.f.p);
  }

  /** S B - h A = r B when S = h a + r modulo the order and A = a B. */
  lemma EquationHolds<G(!new)>(g: Group<G>, base: G, h: int, a: int, ha: int, r: int)
    requires Abelian(g) && Mul(g, M, base) == g.zero && ha == h * a
    ensures Lin(g, h, g.neg(Mul(g, a, base)), (ha + r) % M, base) == Mul(g, r, base)
  {
    hide Mul, Abelian;
    MulMod(g, ha + r, M, base);
    MulNeg(g, a, base);
    MulMul(g, h, -a, base);
    NegatedFactor(h, a);
    MulAdd(g, -ha, ha + r, base);
  }

  lemma NegatedFactor(h: int, a: int)
    ensures h * -a == -(h * a)
  {}

  /** Every signature made under the matching public key is accepted. */
  lemma SignaturesVerify<G(!new)>(c: Curve<G>, base: G, m: seq<int>, sk: seq<int>, rs: seq<int>)
    requires Setting(c, base) && IsSignature(c, base, m, sk, PublicKeyOf(c, base, sk), rs)
    ensures var pk := PublicKeyOf(c, base, sk);
            |pk| == 32 && Accepts(c, base, m, pk, rs)
  {
    hide Challenge, SecretScalar, Nonce, PointBytes, DecodeNegative, Bytes.LittleEndian, Lin, Mul, Ed25519, EdwardsCurve, Fermat, EveryPoint;
    var pk, A := PublicKeyOf(c, base, sk), Mul(c.group, SecretScalar(sk), base);
    KeyDecodes(c, A);
    GroupOf(c);
    var h, a, r := Challenge(rs[..32], pk, m), SecretScalar(sk), Nonce(sk, m);
    EquationHolds(c.group, base, h, a, h * a, r);
    SmallMod((h * a + r) % M, M);
  }
}
