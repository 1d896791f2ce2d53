/** Streaming SHA-512: digests do not depend on how the message was cut into updates. */
module Sha512 {
  import opened Arithmetic
  import opened Limbs
  import opened Sha512Compress

  const BLOCK: nat := 128
  const TWO64: int := 0x10000000000000000

  /** The initial hash value. */
  function IV(): Vars {
    Vars(Bits(0x6a09e667f3bcc908), Bits(0xbb67ae8584caa73b), Bits(0x3c6ef372fe94f82b), Bits(0xa54ff53a5f1d36f1),
         Bits(0x510e527fade682d1), Bits(0x9b05688c2b3e6c1f), Bits(0x1f83d9abfb41bd6b), Bits(0x5be0cd19137e2179))
  }

  /** The hash value after the whole blocks of data. */
  function HashBlocks(h: Vars, data: seq<int>): Vars
    decreases |data|
  {
    if |data| < BLOCK then h else HashBlocks(Compress(h, data[..BLOCK]), data[BLOCK..])
  }

  lemma {:induction false} HashBlocksConcat(h: Vars, a: seq<int>, b: seq<int>)
    requires |a| % BLOCK == 0
    ensures HashBlocks(h, a + b) == HashBlocks(HashBlocks(h, a), b)
    decreases |a|
  {
    hide Compress;
    if |a| < BLOCK {
      assert a + b == b;
    } else {
      assert (a + b)[..BLOCK] == a[..BLOCK] && (a + b)[BLOCK..] == a[BLOCK..] + b;
      HashBlocksConcat(Compress(h, a[..BLOCK]), a[BLOCK..], b);
    }
  }

  /** Eight bytes of a number, highest first. */
  function Store64(v: int): (r: seq<int>)
    ensures |r| == 8 && forall i :: 0 <= i < 8 ==> 0 <= r[i] < 256
  {
    [v / 0x100000000000000 % 256, v / 0x1000000000000 % 256, v / 0x10000000000 % 256, v / 0x100000000 % 256,
     v / 0x1000000 % 256, v / 0x10000 % 256, v / 0x100 % 256, v % 256]
  }

  /** The zero bytes of the padding: as few as bring the length to 112 modulo 128. */
  function ZeroCount(n: nat): nat {
    (111 - n) % BLOCK
  }

  /** The length of an n-byte message in bits, as two 64-bit words. */
  function LengthHigh(n: nat): int {
    8 * n / TWO64 % TWO64
  }

  function LengthLow(n: nat): int {
    8 * n % TWO64
  }

  /** Padding after section 5.1.2 of FIPS 180-4. */
  function Pad(msg: seq<int>): seq<int> {
    msg + [0x80] + Zeros(ZeroCount(|msg|)) + Store64(LengthHigh(|msg|)) + Store64(LengthLow(|msg|))
  }

  /** A whole number of blocks, none of them without need. */
  lemma PadLength(msg: seq<int>)
    ensures |Pad(msg)| % BLOCK == 0 && |msg| + 17 <= |Pad(msg)| < |msg| + 17 + BLOCK
  {
    hide Store64, Zeros, LengthHigh, LengthLow;
  }

  function Digest(h: Vars): seq<int> {
    Store64(Num(h.a)) + Store64(Num(h.b)) + Store64(Num(h.c)) + Store64(Num(h.d))
    + Store64(Num(h.e)) + Store64(Num(h.f)) + Store64(Num(h.g)) + Store64(Num(h.h))
  }

  predicate ByteString(s: seq<int>) {
    forall i :: 0 <= i < |s| ==> 0 <= s[i] < 256
  }

  lemma ByteConcat(a: seq<int>, b: seq<int>)
    requires ByteString(a) && ByteString(b)
    ensures ByteString(a + b)
  {}

  /** A digest is 64 bytes. */
  lemma DigestBytes(h: Vars)
    ensures |Digest(h)| == 64 && ByteString(Digest(h))
  {
    hide Store64, Num;
    var s0, s1, s2, s3 := Store64(Num(h.a)), Store64(Num(h.b)), Store64(Num(h.c)), Store64(Num(h.d));
    var s4, s5, s6, s7 := Store64(Num(h.e)), Store64(Num(h.f)), Store64(Num(h.g)), Store64(Num(h.h));
    assert ByteString(s0) && ByteString(s1) && ByteString(s2) && ByteString(s3);
    assert ByteString(s4) && ByteString(s5) && ByteString(s6) && ByteString(s7);
    hide ByteString;
    ByteConcat(s0, s1);
    ByteConcat(s0 + s1, s2);
    ByteConcat(s0 + s1 + s2, s3);
    ByteConcat(s0 + s1 + s2 + s3, s4);
    ByteConcat(s0 + s1 + s2 + s3 + s4, s5);
    ByteConcat(s0 + s1 + s2 + s3 + s4 + s5, s6);
    ByteConcat(s0 + s1 + s2 + s3 + s4 + s5 + s6, s7);
  }

  /** SHA-512 after section 6.4 of FIPS 180-4. */
  function Sha512Of(msg: seq<int>): (d: seq<int>)
    ensures |d| == 64
  {
    DigestBytes(HashBlocks(IV(), Pad(msg)));
    Digest(HashBlocks(IV(), Pad(msg)))
  }

  /** The two counter words after n bytes of whole blocks. */
  ghost predicate Counts(t0: int, t1: int, n: nat) {
    t0 == LengthLow(n) && t1 == LengthHigh(n)
  }

  /** Adding a block's bits carries into the high word exactly when the low word becomes zero. */
  lemma CountBlock(t0: int, t1: int, n: nat)
    requires Counts(t0, t1, n) && n % BLOCK == 0
    ensures var s0 := (t0 + 8 * BLOCK) % TWO64;
            Counts(s0, (t1 + if s0 == 0 then 1 else 0) % TWO64, n + BLOCK)
  {
    var q, r := 8 * n / TWO64, 8 * n % TWO64;
    LowWord(n, q, r);
    if r + 8 * BLOCK == TWO64 {
      DivModUnique(8 * (n + BLOCK), TWO64, q + 1, 0);
    } else {
      DivModUnique(8 * (n + BLOCK), TWO64, q, r + 8 * BLOCK);
    }
  }

  lemma LowWord(n: nat, q: int, r: int)
    requires n % BLOCK == 0 && 8 * n == q * TWO64 + r && 0 <= r < TWO64
    ensures r + 8 * BLOCK <= TWO64
  {
    var k := n / BLOCK - q * 0x40000000000000;
    assert r == 1024 * k;
  }

  /** The bits of a partial block are added without a carry. */
  lemma CountRest(t0: int, t1: int, n: nat, rest: nat)
    requires Counts(t0, t1, n) && n % BLOCK == 0 && rest < BLOCK
    ensures t0 + 8 * rest < TWO64 && Counts(t0 + 8 * rest, t1, n + rest)
  {
    var q, r := 8 * n / TWO64, 8 * n % TWO64;
    LowWord(n, q, r);
    DivModUnique(8 * (n + rest), TWO64, q, r + 8 * rest);
  }

  /** The hash and the counter of whole blocks. */
  ghost predicate Hashed(h: Vars, t0: int, t1: int, whole: seq<int>) {
    |whole| % BLOCK == 0 && h == HashBlocks(IV(), whole) && Counts(t0, t1, |whole|)
  }

  lemma NothingHashed()
    ensures Hashed(IV(), 0, 0, [])
  {
    hide IV;
  }

  lemma HashMore(h: Vars, t0: int, t1: int, whole: seq<int>, blocks: seq<int>, h': Vars, s0: int, s1: int)
    requires Hashed(h, t0, t1, whole) && |blocks| % BLOCK == 0
    requires h' == HashBlocks(h, blocks) && Counts(s0, s1, |whole| + |blocks|)
    ensures Hashed(h', s0, s1, whole + blocks)
  {
    hide HashBlocks, Counts, IV;
    HashBlocksConcat(IV(), whole, blocks);
  }

  class State {
    var H: Vars
    var T0: int
    var T1: int
    var leftover: nat
    const buffer: array<int>
    /** The bytes hashed so far; the rest of the data is in the buffer. */
    ghost var whole: seq<int>

    ghost predicate Valid()
      reads this, buffer
    {
      buffer.Length == BLOCK && leftover < BLOCK && Hashed(H, T0, T1, whole)
    }

    ghost function Data(): seq<int>
      requires Valid()
      reads this, buffer
    {
      whole + buffer[..leftover]
    }

    /** ed25519_hash_init. */
    constructor ()
      ensures Valid() && fresh(buffer) && Data() == []
    {
      hide IV, Hashed;
      H := IV();
      T0, T1, leftover := 0, 0, 0;
      buffer := new int[BLOCK];
      whole := [];
      NothingHashed();
    }

    /** sha512_blocks. */
    method Blocks(input: seq<int>)
      requires |input| % BLOCK == 0 && Hashed(H, T0, T1, whole)
      modifies `H, `T0, `T1, `whole
      ensures Hashed(H, T0, T1, whole) && whole == old(whole) + input
    {
      hide HashBlocks, Counts, Compress, Hashed, IV;
      var rest := input;
      HashedFacts(H, T0, T1, whole);
      ghost var n := |whole|;
      while rest != []
        invariant |rest| % BLOCK == 0 && |rest| <= |input| && whole == old(whole)
        invariant HashBlocks(H, rest) == HashBlocks(old(H), input) && Counts(T0, T1, n + |input| - |rest|)
        decreases |rest|
      {
        NextBlock(H, rest);
        CountBlock(T0, T1, n + |input| - |rest|);
        H := CompressBlock(H, rest[..BLOCK]);
        T0 := (T0 + 8 * BLOCK) % TWO64;
        T1 := (T1 + if T0 == 0 then 1 else 0) % TWO64;
        rest := rest[BLOCK..];
      }
      NoBlock(H);
      HashMore(old(H), old(T0), old(T1), whole, input, H, T0, T1);
      whole := whole + input;
    }

    /** memcpy into the buffer. */
    method Fill(pos: nat, bytes: seq<int>)
      requires pos + |bytes| <= buffer.Length
      modifies buffer
      ensures buffer[..] == old(buffer[..pos]) + bytes + old(buffer[pos + |bytes|..])
    {
      for i := 0 to |bytes|
        invariant forall k :: 0 <= k < buffer.Length ==> buffer[k] == if pos <= k < pos + i then bytes[k - pos] else old(buffer[k])
      {
        buffer[pos + i] := bytes[i];
      }
    }

    /** ed25519_hash_update: the data grows by the input, whatever its length. */
    method Update(input: seq<int>)
      requires Valid()
      modifies this, buffer
      ensures Valid() && Data() == old(Data()) + input
    {
      hide Hashed;
      var rest := input;
      if leftover != 0 {
        var want := if BLOCK - leftover < |input| then BLOCK - leftover else |input|;
        Fill(leftover, input[..want]);
        leftover := leftover + want;
        assert buffer[..leftover] == old(buffer[..leftover]) + input[..want];
        assert input == input[..want] + input[want..];
        if leftover < BLOCK {
          return;
        }
        rest := input[want..];
        Blocks(buffer[..]);
      }
      TakeBlocks(rest);
    }

    /** Appends the bit 1 and the zeros, hashing a block if the length no longer fits. */
    method PadZeros()
      requires Valid()
      modifies this, buffer
      ensures Hashed(H, T0, T1, whole)
      ensures whole + buffer[..112] == old(Data()) + [0x80] + Zeros(ZeroCount(|old(Data())|))
    {
      hide Hashed, Zeros, ZeroCount;
      HashedFacts(H, T0, T1, whole);
      ghost var rest, before := buffer[..leftover], whole;
      ShortCount(|whole|, leftover);
      Fill(leftover, [0x80]);
      if leftover <= 111 {
        Fill(leftover + 1, Zeros(111 - leftover));
        assert buffer[..112] == rest + [0x80] + Zeros(111 - leftover);
      } else {
        Fill(leftover + 1, Zeros(127 - leftover));
        assert buffer[..] == rest + [0x80] + Zeros(127 - leftover);
        Blocks(buffer[..]);
        Fill(0, Zeros(112));
        assert buffer[..112] == Zeros(112);
        JoinZeros(before, rest, [0x80], 127 - leftover, 112);
      }
    }

    /** ed25519_hash_final. */
    method Final() returns (hash: seq<int>)
      requires Valid()
      modifies this, buffer
      ensures hash == Sha512Of(old(Data()))
    {
      hide Hashed, Store64, Zeros, Digest, IV, ZeroCount, LengthLow, LengthHigh;
      HashedFacts(H, T0, T1, whole);
      CountRest(T0, T1, |whole|, leftover);
      var t0, t1 := T0 + leftover * 8, T1;
      PadZeros();
      ghost var front := buffer[..112];
      Fill(112, Store64(t1) + Store64(t0));
      assert buffer[..] == front + (Store64(t1) + Store64(t0));
      Blocks(buffer[..]);
      assert whole == Pad(old(Data()));
      HashedIs(H, T0, T1, whole);
      hash := Digest(H);
    }

    /** The part of an update after the buffer has been emptied. */
    method TakeBlocks(input: seq<int>)
      requires buffer.Length == BLOCK && Hashed(H, T0, T1, whole)
      modifies this, buffer
      ensures Valid() && Data() == old(whole) + input
    {
      hide Hashed;
      var front, back := WholeBlocks(input);
      leftover := |back|;
      if front != [] {
        Blocks(front);
      }
      assert whole == old(whole) + front;
      if leftover != 0 {
        Fill(0, back);
      }
      assert buffer[..leftover] == back;
      assert whole + back == old(whole) + input;
    }
  }

  lemma ShortCount(n: nat, r: nat)
    requires n % BLOCK == 0 && r < BLOCK
    ensures ZeroCount(n + r) == if r <= 111 then 111 - r else 239 - r
  {
    DivModUnique(111 - (n + r), BLOCK, (if r <= 111 then 0 else -1) - n / BLOCK, if r <= 111 then 111 - r else 239 - r);
  }

  lemma JoinZeros(a: seq<int>, b: seq<int>, c: seq<int>, m: nat, n: nat)
    ensures a + (b + c + Zeros(m)) + Zeros(n) == a + b + c + Zeros(m + n)
  {}

  /** As many whole blocks as there are, and what is left. */
  method WholeBlocks(input: seq<int>) returns (front: seq<int>, back: seq<int>)
    ensures front + back == input && |front| % BLOCK == 0 && |back| < BLOCK
  {
    var blocks := |input| - |input| % BLOCK;
    front, back := input[..blocks], input[blocks..];
  }

  lemma HashedIs(h: Vars, t0: int, t1: int, whole: seq<int>)
    requires Hashed(h, t0, t1, whole)
    ensures h == HashBlocks(IV(), whole)
  {}

  lemma HashedFacts(h: Vars, t0: int, t1: int, whole: seq<int>)
    requires Hashed(h, t0, t1, whole)
    ensures |whole| % BLOCK == 0 && Counts(t0, t1, |whole|)
  {}

  lemma NextBlock(h: Vars, data: seq<int>)
    requires |data| >= BLOCK
    ensures HashBlocks(h, data) == HashBlocks(Compress(h, data[..BLOCK]), data[BLOCK..])
  {
    hide Compress;
  }

  lemma NoBlock(h: Vars)
    ensures HashBlocks(h, []) == h
  {}

  function Flatten(parts: seq<seq<int>>): seq<int> {
    if parts == [] then [] else Flatten(parts[..|parts| - 1]) + parts[|parts| - 1]
  }

  /** However a message is cut into updates, its digest is that of the whole. */
  method DigestOfParts(parts: seq<seq<int>>) returns (hash: seq<int>)
    ensures hash == Sha512Of(Flatten(parts))
  {
    hide Sha512Of, Hashed;
    var s := new State();
    for i := 0 to |parts|
      invariant fresh(s) && fresh(s.buffer) && s.Valid() && s.Data() == Flatten(parts[..i])
    {
      assert parts[..i + 1][..i] == parts[..i];
      s.Update(parts[i]);
    }
    assert parts[..|parts|] == parts;
    hash := s.Final();
  }

  /** ed25519_hash. */
  method Hash(input: seq<int>) returns (hash: seq<int>)
    ensures hash == Sha512Of(input)
  {
    hide *;
    var s := new State();
    s.Update(input);
    assert [] + input == input;
    hash := s.Final();
  }
}
