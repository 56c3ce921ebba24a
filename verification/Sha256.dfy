/**
 SHA-256 over a stream of updates, app/app-sha256/sha256sum.c, against FIPS 180-4.
 */
module Sha256 {
  import opened Machine

  type Byte = bv8

  // ---- FIPS 180-4 ----

  function RotateRight(x: bv32, n: nat): bv32
    requires 0 < n < 32
  {
    (x >> n) | (x << (32 - n))
  }

  function Ch(x: bv32, y: bv32, z: bv32): bv32 {
    (x & y) ^ (!x & z)
  }

  function Maj(x: bv32, y: bv32, z: bv32): bv32 {
    (x & y) ^ (x & z) ^ (y & z)
  }

  function BigSigma0(x: bv32): bv32 {
    RotateRight(x, 2) ^ RotateRight(x, 13) ^ RotateRight(x, 22)
  }

  function BigSigma1(x: bv32): bv32 {
    RotateRight(x, 6) ^ RotateRight(x, 11) ^ RotateRight(x, 25)
  }

  function SmallSigma0(x: bv32): bv32 {
    RotateRight(x, 7) ^ RotateRight(x, 18) ^ (x >> 3)
  }

  function SmallSigma1(x: bv32): bv32 {
    RotateRight(x, 17) ^ RotateRight(x, 19) ^ (x >> 10)
  }

  /** Addition modulo 2^32. */
  function Plus(x: bv32, y: bv32): bv32 {
    x + y
  }

  /** Section 4.2.2. */
  const K: seq<bv32> := [
    0x428a2f98, 0x71374491, 0xb5c0fbcf, 0xe9b5dba5, 0x3956c25b, 0x59f111f1, 0x923f82a4, 0xab1c5ed5,
    0xd807aa98, 0x12835b01, 0x243185be, 0x550c7dc3, 0x72be5d74, 0x80deb1fe, 0x9bdc06a7, 0xc19bf174,
    0xe49b69c1, 0xefbe4786, 0x0fc19dc6, 0x240ca1cc, 0x2de92c6f, 0x4a7484aa, 0x5cb0a9dc, 0x76f988da,
    0x983e5152, 0xa831c66d, 0xb00327c8, 0xbf597fc7, 0xc6e00bf3, 0xd5a79147, 0x06ca6351, 0x14292967,
    0x27b70a85, 0x2e1b2138, 0x4d2c6dfc, 0x53380d13, 0x650a7354, 0x766a0abb, 0x81c2c92e, 0x92722c85,
    0xa2bfe8a1, 0xa81a664b, 0xc24b8b70, 0xc76c51a3, 0xd192e819, 0xd6990624, 0xf40e3585, 0x106aa070,
    0x19a4c116, 0x1e376c08, 0x2748774c, 0x34b0bcb5, 0x391c0cb3, 0x4ed8aa4a, 0x5b9cca4f, 0x682e6ff3,
    0x748f82ee, 0x78a5636f, 0x84c87814, 0x8cc70208, 0x90befffa, 0xa4506ceb, 0xbef9a3f7, 0xc67178f2]

  /** The working variables, and the hash value. */
  datatype Vars = Vars(a: bv32, b: bv32, c: bv32, d: bv32, e: bv32, f: bv32, g: bv32, h: bv32)

  type Block = s: seq<Byte> | |s| == 64 witness seq(64, i => 0)

  /** Section 5.3.3. */
  const H0 := Vars(0x6a09e667, 0xbb67ae85, 0x3c6ef372, 0xa54ff53a, 0x510e527f, 0x9b05688c, 0x1f83d9ab, 0x5be0cd19)

  function BigEndian(b0: Byte, b1: Byte, b2: Byte, b3: Byte): bv32 {
    ((b0 as bv32) << 24) | ((b1 as bv32) << 16) | ((b2 as bv32) << 8) | (b3 as bv32)
  }

  /** Section 6.2.2, step 1: the message schedule. */
  function Schedule(block: Block, t: nat): bv32 {
    if t < 16 then BigEndian(block[4 * t], block[4 * t + 1], block[4 * t + 2], block[4 * t + 3])
    else
      Plus(Plus(Plus(SmallSigma1(Schedule(block, t - 2)), Schedule(block, t - 7)), SmallSigma0(Schedule(block, t - 15))),
           Schedule(block, t - 16))
  }

  /** Step 3: one round. */
  function Round(v: Vars, k: bv32, w: bv32): Vars {
    var t1 := Plus(Plus(Plus(Plus(v.h, BigSigma1(v.e)), Ch(v.e, v.f, v.g)), k), w);
    var t2 := Plus(BigSigma0(v.a), Maj(v.a, v.b, v.c));
    Vars(Plus(t1, t2), v.a, v.b, v.c, Plus(v.d, t1), v.e, v.f, v.g)
  }

  function Rounds(v: Vars, block: Block, t: nat): Vars
    requires t <= 64 && |K| == 64
  {
    if t == 0 then v else Round(Rounds(v, block, t - 1), K[t - 1], Schedule(block, t - 1))
  }

  /** Steps 2 and 4. */
  function Compress(v: Vars, block: Block): Vars
    requires |K| == 64
  {
    var r := Rounds(v, block, 64);
    Vars(Plus(v.a, r.a), Plus(v.b, r.b), Plus(v.c, r.c), Plus(v.d, r.d), Plus(v.e, r.e), Plus(v.f, r.f), Plus(v.g, r.g), Plus(v.h, r.h))
  }

  lemma SixtyFour()
    ensures |K| == 64
  {
  }

  /** The hash value after all blocks of a message of whole blocks. */
  function HashBlocks(m: seq<Byte>): Vars
    requires |m| % 64 == 0
  {
    SixtyFour();
    if m == [] then H0 else Compress(HashBlocks(m[..|m| - 64]), m[|m| - 64..])
  }

  /** Byte number i, from the top, of a 64-bit number. */
  function ByteOf(n: u64, i: nat): Byte
    requires i < 8
  {
    PowPositive(0x100, 7 - i);
    LowByte(n / Pow(0x100, 7 - i))
  }

  function LowByte(x: nat): Byte {
    (x % 0x100) as bv8
  }

  function LengthBytes(n: u64): (s: seq<Byte>)
    ensures |s| == 8
  {
    seq(8, i requires 0 <= i < 8 => ByteOf(n, i))
  }

  /** Section 5.1.1 for a message of n bytes: a one bit, the fewest zeros, and the length in bits. */
  function Padding(n: nat): seq<Byte> {
    [0x80] + Repeat<Byte>(0x00, (55 - n) % 64) + LengthBytes(8 * n % 0x1_0000_0000_0000_0000)
  }

  lemma PaddingFills(n: nat)
    ensures (n + |Padding(n)|) % 64 == 0 && 9 <= |Padding(n)| < 73
  {
  }

  function Sha256(m: seq<Byte>): Vars {
    PaddingFills(|m|);
    HashBlocks(m + Padding(|m|))
  }

  function ByteAt(w: bv32, i: nat): Byte
    requires i < 4
  {
    ((w >> (24 - i * 8)) & 0xff) as bv8
  }

  function WordAt(v: Vars, i: nat): bv32
    requires i < 8
  {
    match i
    case 0 => v.a case 1 => v.b case 2 => v.c case 3 => v.d
    case 4 => v.e case 5 => v.f case 6 => v.g case _ => v.h
  }

  /** The digest: the eight words, most significant byte first. */
  function Digest(v: Vars): (d: seq<Byte>)
    ensures |d| == 32
  {
    seq(32, i requires 0 <= i < 32 => ByteAt(WordAt(v, i / 4), i % 4))
  }

  /** The first i bytes of every word of the digest, and one more of the first w words, are in place; nothing after them is written. */
  ghost predicate DigestUpTo(v: Vars, h0: seq<Byte>, h: seq<Byte>, i: nat, w: nat) {
    && 32 <= |h0| == |h| && h[32..] == h0[32..]
    && forall k :: 0 <= k < 32 && (k % 4 < i || (k % 4 == i && k / 4 < w)) ==> h[k] == ByteAt(WordAt(v, k / 4), k % 4)
  }

  lemma DigestStarts(v: Vars, h: seq<Byte>)
    requires 32 <= |h|
    ensures DigestUpTo(v, h, h, 0, 0)
  {
  }

  lemma DigestByte(v: Vars, h0: seq<Byte>, h: seq<Byte>, i: nat, w: nat, at: nat, byte: Byte)
    requires DigestUpTo(v, h0, h, i, w) && i < 4 && w < 8 && at == i + 4 * w && byte == ByteAt(WordAt(v, w), i)
    ensures at < |h| && DigestUpTo(v, h0, h[at := byte], i, w + 1)
  {
    hide ByteAt, WordAt;
  }

  lemma NextColumn(v: Vars, h0: seq<Byte>, h: seq<Byte>, i: nat)
    requires DigestUpTo(v, h0, h, i, 8)
    ensures DigestUpTo(v, h0, h, i + 1, 0)
  {
    hide ByteAt, WordAt;
  }

  lemma DigestEnds(v: Vars, h0: seq<Byte>, h: seq<Byte>)
    requires DigestUpTo(v, h0, h, 4, 0)
    ensures h[..32] == Digest(v) && h[32..] == h0[32..]
  {
    hide ByteAt, WordAt;
  }

  /** The message schedule of sha256_transform. */
  method ExpandBlock(data: array<Byte>) returns (m: array<bv32>)
    requires data.Length == 64
    ensures fresh(m) && m.Length == 64 && forall t :: 0 <= t < 64 ==> m[t] == Schedule(data[..], t)
  {
    hide SmallSigma0, SmallSigma1, Plus, BigEndian;
    m := new bv32[64](_ => 0);
    var j := 0;
    for i := 0 to 16
      invariant j == 4 * i && forall t :: 0 <= t < i ==> m[t] == Schedule(data[..], t)
    {
      m[i] := BigEndian(data[j], data[j + 1], data[j + 2], data[j + 3]);
      j := j + 4;
    }
    for i := 16 to 64
      invariant forall t :: 0 <= t < i ==> m[t] == Schedule(data[..], t)
    {
      m[i] := Plus(Plus(Plus(SmallSigma1(m[i - 2]), m[i - 7]), SmallSigma0(m[i - 15])), m[i - 16]);
    }
  }

  lemma OneMoreBlock(m: seq<Byte>, block: Block)
    requires |m| % 64 == 0 && |K| == 64
    ensures |m + block| % 64 == 0 && HashBlocks(m + block) == Compress(HashBlocks(m), block)
  {
    hide Compress;
    assert (m + block)[..|m + block| - 64] == m && (m + block)[|m + block| - 64..] == block;
  }

  lemma BitsOfBlock(n: nat)
    ensures (8 * n % 0x1_0000_0000_0000_0000 + 512) % 0x1_0000_0000_0000_0000 == 8 * (n + 64) % 0x1_0000_0000_0000_0000
  {
  }

  lemma BitsOfRest(n: nat, d: nat)
    requires d <= n
    ensures (8 * (n - d) % 0x1_0000_0000_0000_0000 + d * 8) % 0x1_0000_0000_0000_0000 == 8 * n % 0x1_0000_0000_0000_0000
  {
  }

  /** Zeros in the padding, for each branch of xsha256_final. */
  lemma ZeroCount(n: nat, d: nat)
    requires d < 64 && d <= n && (n - d) % 64 == 0
    ensures (55 - n) % 64 == if d < 56 then 55 - d else 63 - d + 56
  {
  }

  /** SHA256_CTX; `message` is everything hashed so far. */
  class Context {
    const data: array<Byte>
    const state: array<bv32>
    var datalen: u32
    var bitlen: u64
    ghost var message: seq<Byte>

    ghost predicate Valid()
      reads this, data, state
    {
      && data.Length == 64 && state.Length == 8 && datalen < 64
      && datalen <= |message| && (|message| - datalen) % 64 == 0
      && data[..datalen] == message[|message| - datalen..]
      && bitlen == 8 * (|message| - datalen) % 0x1_0000_0000_0000_0000
      && StateVars() == HashBlocks(message[..|message| - datalen])
    }

    function StateVars(): Vars
      requires state.Length == 8
      reads state
    {
      Vars(state[0], state[1], state[2], state[3], state[4], state[5], state[6], state[7])
    }

    /** xsha256_init. */
    constructor ()
      ensures Valid() && message == [] && fresh(data) && fresh(state)
    {
      data, state := new Byte[64](_ => 0), new bv32[8](_ => 0);
      datalen, bitlen := 0, 0;
      message := [];
      new;
      state[0], state[1], state[2], state[3] := 0x6a09e667, 0xbb67ae85, 0x3c6ef372, 0xa54ff53a;
      state[4], state[5], state[6], state[7] := 0x510e527f, 0x9b05688c, 0x1f83d9ab, 0x5be0cd19;
    }

    /** sha256_transform: the compression function of section 6.2.2. */
    method Transform()
      requires data.Length == 64 && state.Length == 8
      modifies state
      ensures |K| == 64 && StateVars() == Compress(old(StateVars()), data[..])
    {
      hide BigSigma0, BigSigma1, Ch, Maj, Plus, Schedule;
      SixtyFour();
      ghost var v0 := StateVars();
      var m := ExpandBlock(data);
      var a, b, c, d := state[0], state[1], state[2], state[3];
      var e, f, g, h := state[4], state[5], state[6], state[7];
      for i := 0 to 64
        invariant Vars(a, b, c, d, e, f, g, h) == Rounds(v0, data[..], i)
      {
        var t1 := Plus(Plus(Plus(Plus(h, BigSigma1(e)), Ch(e, f, g)), K[i]), m[i]);
        var t2 := Plus(BigSigma0(a), Maj(a, b, c));
        h := g;
        g := f;
        f := e;
        e := Plus(d, t1);
        d := c;
        c := b;
        b := a;
        a := Plus(t1, t2);
      }
      state[0], state[1], state[2], state[3] := Plus(state[0], a), Plus(state[1], b), Plus(state[2], c), Plus(state[3], d);
      state[4], state[5], state[6], state[7] := Plus(state[4], e), Plus(state[5], f), Plus(state[6], g), Plus(state[7], h);
    }

    /** xsha256_update. */
    method Update(bytes: seq<Byte>)
      requires Valid()
      modifies this`datalen, this`bitlen, this`message, data, state
      ensures Valid() && message == old(message) + bytes
    {
      hide Compress, HashBlocks;
      for i := 0 to |bytes|
        invariant Valid() && message == old(message) + bytes[..i]
      {
        assert bytes[..i + 1] == bytes[..i] + [bytes[i]];
        AddByte(bytes[i]);
      }
      assert bytes[..|bytes|] == bytes;
    }

    /** A full buffer is hashed and counted. */
    method FlushBlock(ghost before: seq<Byte>)
      requires data.Length == 64 && state.Length == 8 && datalen == 64 && |before| % 64 == 0 && message == before + data[..]
      requires bitlen == 8 * |before| % 0x1_0000_0000_0000_0000 && StateVars() == HashBlocks(before)
      modifies this`datalen, this`bitlen, state
      ensures Valid()
    {
      hide Compress, HashBlocks;
      Transform();
      OneMoreBlock(before, data[..]);
      assert message[..|message|] == message;
      bitlen := (bitlen + 512) % 0x1_0000_0000_0000_0000;
      datalen := 0;
      BitsOfBlock(|before|);
    }

    /** The body of the loop of xsha256_update. */
    method AddByte(byte: Byte)
      requires Valid()
      modifies this`datalen, this`bitlen, this`message, data, state
      ensures Valid() && message == old(message) + [byte]
    {
      hide Compress, HashBlocks;
      ghost var before := message[..|message| - datalen];
      assert message == before + data[..datalen];
      data[datalen] := byte;
      datalen := datalen + 1;
      message := message + [byte];
      assert message == before + data[..datalen];
      if datalen == 64 {
        assert data[..64] == data[..];
        FlushBlock(before);
      } else {
        assert message[..|message| - datalen] == before;
      }
    }

    /** The zero-filling loops of xsha256_final. */
    method FillZeros(from: nat, to: nat)
      requires from <= to <= data.Length
      modifies data
      ensures data[..from] == old(data[..from]) && data[to..] == old(data[to..])
      ensures data[from..to] == Repeat<Byte>(0x00, to - from)
    {
      var i := from;
      while i < to
        invariant from <= i <= to && data[..from] == old(data[..from]) && data[to..] == old(data[to..])
        invariant data[from..i] == Repeat<Byte>(0x00, i - from)
      {
        data[i] := 0x00;
        i := i + 1;
      }
    }

    /** The last eight bytes of the last block. */
    method StoreLength()
      requires data.Length == 64
      modifies data
      ensures data[..56] == old(data[..56]) && data[56..] == LengthBytes(bitlen)
    {
      hide ByteOf;
      data[63] := ByteOf(bitlen, 7);
      data[62] := ByteOf(bitlen, 6);
      data[61] := ByteOf(bitlen, 5);
      data[60] := ByteOf(bitlen, 4);
      data[59] := ByteOf(bitlen, 3);
      data[58] := ByteOf(bitlen, 2);
      data[57] := ByteOf(bitlen, 1);
      data[56] := ByteOf(bitlen, 0);
      EightBytes(data[56..], bitlen);
    }

    /** The bytes of the digest, byte i of every word in turn. */
    method WriteDigest(hash: array<Byte>)
      requires state.Length == 8 && 32 <= hash.Length
      modifies hash
      ensures hash[..32] == Digest(StateVars()) && hash[32..] == old(hash[32..])
    {
      hide ByteAt, DigestUpTo;
      ghost var v, h0 := StateVars(), hash[..];
      DigestStarts(v, h0);
      for i := 0 to 4
        invariant DigestUpTo(v, h0, hash[..], i, 0)
      {
        DigestByte(v, h0, hash[..], i, 0, i, ByteAt(state[0], i));
        hash[i] := ByteAt(state[0], i);
        DigestByte(v, h0, hash[..], i, 1, i + 4, ByteAt(state[1], i));
        hash[i + 4] := ByteAt(state[1], i);
        DigestByte(v, h0, hash[..], i, 2, i + 8, ByteAt(state[2], i));
        hash[i + 8] := ByteAt(state[2], i);
        DigestByte(v, h0, hash[..], i, 3, i + 12, ByteAt(state[3], i));
        hash[i + 12] := ByteAt(state[3], i);
        DigestByte(v, h0, hash[..], i, 4, i + 16, ByteAt(state[4], i));
        hash[i + 16] := ByteAt(state[4], i);
        DigestByte(v, h0, hash[..], i, 5, i + 20, ByteAt(state[5], i));
        hash[i + 20] := ByteAt(state[5], i);
        DigestByte(v, h0, hash[..], i, 6, i + 24, ByteAt(state[6], i));
        hash[i + 24] := ByteAt(state[6], i);
        DigestByte(v, h0, hash[..], i, 7, i + 28, ByteAt(state[7], i));
        hash[i + 28] := ByteAt(state[7], i);
        NextColumn(v, h0, hash[..], i);
      }
      DigestEnds(v, h0, hash[..]);
    }

    /** The padding up to the length: in this block, or in this block and the next. */
    method Pad() returns (ghost done: seq<Byte>)
      requires Valid()
      modifies data, state
      ensures |done| % 64 == 0 && StateVars() == HashBlocks(done)
      ensures done + data[..56] == message + [0x80] + Repeat<Byte>(0x00, (55 - |message|) % 64)
    {
      hide Compress, HashBlocks, Repeat;
      ghost var tail := message[|message| - datalen..];
      done := message[..|message| - datalen];
      assert message == done + tail;
      ZeroCount(|message|, datalen);
      var i := datalen;
      data[i] := 0x80;
      i := i + 1;
      assert data[..i] == tail + [0x80] by {
        assert data[..i] == data[..datalen] + [data[datalen]];
      }
      if datalen < 56 {
        FillZeros(i, 56);
        assert data[..56] == data[..i] + data[i..56];
      } else {
        FillZeros(i, 64);
        ghost var block := data[..];
        assert block == data[..i] + data[i..64];
        Transform();
        OneMoreBlock(done, block);
        FillZeros(0, 56);
        SplitZeros(done, tail, 63 - datalen, block, data[..56]);
        done := done + block;
      }
    }

    /** xsha256_final: the digest of the whole message, however it was split into updates. */
    method Final(hash: array<Byte>)
      requires Valid() && hash.Length >= 32 && hash != data
      modifies this`bitlen, data, state, hash
      ensures hash[..32] == Digest(Sha256(message)) && hash[32..] == old(hash[32..])
    {
      hide Compress, HashBlocks, LengthBytes, Digest, Padding, Repeat;
      ghost var done := Pad();
      BitsOfRest(|message|, datalen);
      bitlen := (bitlen + datalen * 8) % 0x1_0000_0000_0000_0000;
      ghost var most := data[..56];
      StoreLength();
      ghost var block := data[..];
      assert block == most + LengthBytes(bitlen);
      Transform();
      OneMoreBlock(done, block);
      PaddingJoins(message, done, most, block);
      WriteDigest(hash);
    }
  }

  lemma EightBytes(s: seq<Byte>, n: u64)
    requires |s| == 8 && s[0] == ByteOf(n, 0) && s[1] == ByteOf(n, 1) && s[2] == ByteOf(n, 2) && s[3] == ByteOf(n, 3)
    requires s[4] == ByteOf(n, 4) && s[5] == ByteOf(n, 5) && s[6] == ByteOf(n, 6) && s[7] == ByteOf(n, 7)
    ensures s == LengthBytes(n)
  {
    hide ByteOf;
  }

  lemma PaddingJoins(m: seq<Byte>, done: seq<Byte>, most: seq<Byte>, block: seq<Byte>)
    requires done + most == m + [0x80] + Repeat<Byte>(0x00, (55 - |m|) % 64)
    requires block == most + LengthBytes(8 * |m| % 0x1_0000_0000_0000_0000)
    ensures done + block == m + Padding(|m|)
  {
    hide LengthBytes;
    assert done + block == (done + most) + LengthBytes(8 * |m| % 0x1_0000_0000_0000_0000);
  }

  /** Zeros over two blocks. */
  lemma SplitZeros(done: seq<Byte>, tail: seq<Byte>, n: nat, block: seq<Byte>, rest: seq<Byte>)
    requires block == tail + [0x80] + Repeat<Byte>(0x00, n) && rest == Repeat<Byte>(0x00, 56)
    ensures done + block + rest == (done + tail) + [0x80] + Repeat<Byte>(0x00, n + 56)
  {
    assert Repeat<Byte>(0x00, n) + Repeat<Byte>(0x00, 56) == Repeat<Byte>(0x00, n + 56);
  }
}
