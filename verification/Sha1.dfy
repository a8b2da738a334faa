/**
  The SHA-1 computation of src/Util.cc against FIPS 180-4: a 64-byte block buffer that is fed
  byte by byte computes the fold of the compression function over the padded message.
*/
module Sha1 {

  type Hash = (bv32, bv32, bv32, bv32, bv32)

  const WORD: nat := 0x1_0000_0000

  // ----- the standard -----

  /** FIPS 180-4, section 3.2: circular left shift by 1, 5 and 30 places. */
  function Rotl1(x: bv32): bv32 {
    (x << 1) | (x >> 31)
  }

  function Rotl5(x: bv32): bv32 {
    (x << 5) | (x >> 27)
  }

  function Rotl30(x: bv32): bv32 {
    (x << 30) | (x >> 2)
  }

  /** Additions modulo 2^32, exclusive ors and byte joins get a name each. */
  function Sum(p: bv32, q: bv32, r: bv32, s: bv32, t: bv32): bv32 {
    p + q + r + s + t
  }

  function Xor(p: bv32, q: bv32, r: bv32, s: bv32): bv32 {
    p ^ q ^ r ^ s
  }

  function Join(a: bv8, b: bv8, c: bv8, d: bv8): bv32 {
    (a as bv32 << 24) | (b as bv32 << 16) | (c as bv32 << 8) | d as bv32
  }

  /** FIPS 180-4, section 4.1.1: the functions f_t. */
  function Ft(t: nat, x: bv32, y: bv32, z: bv32): bv32 {
    if t < 20 then (x & y) ^ (!x & z)
    else if t < 40 then x ^ y ^ z
    else if t < 60 then (x & y) ^ (x & z) ^ (y & z)
    else x ^ y ^ z
  }

  /** FIPS 180-4, section 4.2.1: the constants K_t. */
  function Kt(t: nat): bv32 {
    if t < 20 then 0x5A827999 else if t < 40 then 0x6ED9EBA1 else if t < 60 then 0x8F1BBCDC else 0xCA62C1D6
  }

  /** Word t of a block, its bytes most significant first. */
  function BlockWord(block: seq<bv8>, t: nat): bv32
    requires |block| == 64 && t < 16
  {
    Join(block[4 * t], block[4 * t + 1], block[4 * t + 2], block[4 * t + 3])
  }

  /** Section 6.1.2, step 1: one word of the message schedule from the words before it. */
  function NextWord(block: seq<bv8>, w: seq<bv32>): bv32
    requires |block| == 64
  {
    var t := |w|;
    if t < 16 then BlockWord(block, t) else Rotl1(Xor(w[t - 3], w[t - 8], w[t - 14], w[t - 16]))
  }

  /** The first n words of the message schedule. */
  function Words(block: seq<bv8>, n: nat): (w: seq<bv32>)
    requires |block| == 64
    ensures |w| == n
    decreases n, |block|
  {
    if n == 0 then []
    else
      var w := Words(block, n - 1);
      w + [NextWord(block, w)]
  }

  /** Section 6.1.2, step 3: round t on the working variables. */
  function Round(t: nat, v: Hash, word: bv32): Hash {
    (Sum(Rotl5(v.0), Ft(t, v.1, v.2, v.3), v.4, Kt(t), word), v.0, Rotl30(v.1), v.2, v.3)
  }

  function Rounds(w: seq<bv32>, h: Hash, t: nat): Hash
    requires t <= |w|
    decreases t, |w|
  {
    if t == 0 then h else Round(t - 1, Rounds(w, h, t - 1), w[t - 1])
  }

  function AddHash(h: Hash, g: Hash): Hash {
    (h.0 + g.0, h.1 + g.1, h.2 + g.2, h.3 + g.3, h.4 + g.4)
  }

  /** Section 6.1.2: the hash value after one more block. */
  function Compress(h: Hash, block: seq<bv8>): Hash
    requires |block| == 64
  {
    AddHash(h, Rounds(Words(block, 80), h, 80))
  }

  /** Section 5.3.1. */
  const INITIAL: Hash := (0x67452301, 0xEFCDAB89, 0x98BADCFE, 0x10325476, 0xC3D2E1F0)

  /** The hash value H after the first n blocks of a message. */
  function HashAfter(message: seq<bv8>, n: nat): Hash
    requires 64 * n <= |message|
    decreases n, 1
  {
    if n == 0 then INITIAL else HashOfBlock(message, n)
  }

  /** The hash value after block n, from the one before it. */
  function HashOfBlock(message: seq<bv8>, n: nat): Hash
    requires 0 < n && 64 * n <= |message|
    decreases n, 0
  {
    Compress(HashAfter(message, n - 1), message[64 * (n - 1)..64 * n])
  }

  lemma LastBlock(message: seq<bv8>, block: seq<bv8>, n: nat)
    requires |message| == 64 * n + 64 && message[64 * n..] == block
    ensures message[64 * n..64 * (n + 1)] == block
  {
  }

  lemma HashNext(message: seq<bv8>, n: nat)
    requires 64 * (n + 1) <= |message|
    ensures HashAfter(message, n + 1) == Compress(HashAfter(message, n), message[64 * n..64 * (n + 1)])
  {
  }

  function Zeros(n: nat): seq<bv8> {
    seq(n, _ => 0)
  }

  /** n bytes, the byte 0x80 and k zero bytes leave room for a length field of eight bytes. */
  predicate FillsBlock(n: nat, k: nat) {
    (n + 1 + k) % 64 == 56
  }

  /** The smallest number of zero bytes that makes room for the length field. */
  function ZeroCount(n: nat): (k: nat)
    ensures k < 64 && FillsBlock(n, k)
    ensures forall j: nat :: j < k ==> !FillsBlock(n, j)
  {
    var r := (n + 1) % 64;
    if r <= 56 then 56 - r else 120 - r
  }

  function ByteOf(n: nat): bv8 {
    (n % 256) as bv8
  }

  /** A number as eight bytes, most significant first. */
  function BigEndian64(n: nat): seq<bv8> {
    [ByteOf(n / 0x100_0000_0000_0000), ByteOf(n / 0x1_0000_0000_0000),
     ByteOf(n / 0x100_0000_0000), ByteOf(n / 0x1_0000_0000),
     ByteOf(n / 0x100_0000), ByteOf(n / 0x1_0000), ByteOf(n / 0x100), ByteOf(n)]
  }

  /** Section 5.1.1: the padded message. */
  function Padded(message: seq<bv8>): (p: seq<bv8>)
    ensures |p| == |message| + 1 + ZeroCount(|message|) + 8
  {
    message + [0x80] + Zeros(ZeroCount(|message|)) + BigEndian64(8 * |message|)
  }

  function Standard(message: seq<bv8>): Hash {
    HashAfter(Padded(message), |Padded(message)| / 64)
  }

  // ----- the program's own formulas -----

  /** The macro LEFT_ROTATE(x, n) for n = 1, 5, 30. */
  function LeftRotate1(x: bv32): bv32 {
    (x << 1) ^ (x >> 31)
  }

  function LeftRotate5(x: bv32): bv32 {
    (x << 5) ^ (x >> 27)
  }

  function LeftRotate30(x: bv32): bv32 {
    (x << 30) ^ (x >> 2)
  }

  lemma RotateAgrees(x: bv32)
    ensures LeftRotate1(x) == Rotl1(x) && LeftRotate5(x) == Rotl5(x) && LeftRotate30(x) == Rotl30(x)
  {
  }

  function RoundFunction(i: nat, b: bv32, c: bv32, d: bv32): bv32 {
    if i < 20 then (b & c) | (!b & d)
    else if i < 40 then b ^ c ^ d
    else if i < 60 then (b & c) | (b & d) | (c & d)
    else b ^ c ^ d
  }

  /** The program's or-forms of Ch and Maj are the standard's xor-forms. */
  lemma RoundFunctionAgrees(i: nat, b: bv32, c: bv32, d: bv32)
    ensures RoundFunction(i, b, c, d) == Ft(i, b, c, d)
  {
    assert (b & c) | (!b & d) == (b & c) ^ (!b & d);
    assert (b & c) | (b & d) | (c & d) == (b & c) ^ (b & d) ^ (c & d);
  }

  lemma RoundAgrees(i: nat, a: bv32, b: bv32, c: bv32, d: bv32, e: bv32, word: bv32)
    ensures Round(i, (a, b, c, d, e), word) ==
      (Sum(LeftRotate5(a), RoundFunction(i, b, c, d), e, Kt(i), word), a, LeftRotate30(b), c, d)
  {
    RotateAgrees(a);
    RotateAgrees(b);
    RoundFunctionAgrees(i, b, c, d);
  }

  lemma {:induction false} HashOfPrefix(message: seq<bv8>, longer: seq<bv8>, n: nat)
    requires message <= longer && 64 * n <= |message|
    ensures HashAfter(longer, n) == HashAfter(message, n)
  {
    if n > 0 {
      HashOfPrefix(message, longer, n - 1);
      assert longer[64 * (n - 1)..64 * n] == message[64 * (n - 1)..64 * n];
    }
  }

  // ----- the class -----

  class Sha1 {
    const block: array<bv8>
    var blockByteIndex: nat
    var bitCountLow: nat
    var bitCountHigh: nat
    /** Every byte passed to Byte, and how many whole blocks they fill. */
    ghost var fed: seq<bv8>
    ghost var blocks: nat

    ghost predicate Valid()
      reads this, block
    {
      && block.Length == 64
      && blockByteIndex < 64
      && |fed| == 64 * blocks + blockByteIndex
      && fed[64 * blocks..] == block[..blockByteIndex]
    }

    /** hash is the standard's value for the whole blocks seen so far. */
    ghost predicate Tracks(hash: Hash)
      requires Valid()
      reads this, block
    {
      hash == HashAfter(fed, blocks)
    }

    constructor ()
      ensures Valid() && fresh(block) && fed == [] && blocks == 0 && bitCountLow == bitCountHigh == 0
    {
      block := new bv8[64];
      blockByteIndex, bitCountLow, bitCountHigh := 0, 0, 0;
      fed, blocks := [], 0;
    }

    method FirstWord(i: nat) returns (word: bv32)
      requires block.Length == 64 && i < 16
      ensures word == BlockWord(block[..], i)
    {
      word := block[i * 4] as bv32 << 24;
      word := word | (block[i * 4 + 1] as bv32 << 16);
      word := word | (block[i * 4 + 2] as bv32 << 8);
      word := word | block[i * 4 + 3] as bv32;
    }

    /** A word of the schedule from the i words before it. */
    method LaterWord(w: array<bv32>, i: nat) returns (word: bv32)
      requires block.Length == 64 && 16 <= i < 80 == w.Length
      ensures word == NextWord(block[..], w[..i])
    {
      RotateAgrees(Xor(w[i - 3], w[i - 8], w[i - 14], w[i - 16]));
      word := LeftRotate1(Xor(w[i - 3], w[i - 8], w[i - 14], w[i - 16]));
    }

    /** The message schedule of the full block. */
    method BlockSchedule() returns (w: array<bv32>)
      requires block.Length == 64
      ensures fresh(w) && w.Length == 80 && w[..] == Words(block[..], 80)
    {
      w := new bv32[80];
      for i := 0 to 16
        invariant w[..i] == Words(block[..], i)
      {
        w[i] := FirstWord(i);
      }
      for i := 16 to 80
        invariant w[..i] == Words(block[..], i)
      {
        hide NextWord;
        w[i] := LaterWord(w, i);
      }
      assert w[..80] == w[..];
    }

    /** The compression of the full block into the hash. */
    method ProcessBlock(hash: Hash) returns (newHash: Hash)
      requires block.Length == 64
      ensures newHash == Compress(hash, block[..])
    {
      var w := BlockSchedule();
      ghost var words := w[..];
      var (a, b, c, d, e) := hash;
      for i := 0 to 80
        invariant w[..] == words && (a, b, c, d, e) == Rounds(words, hash, i)
      {
        RoundAgrees(i, a, b, c, d, e, words[i]);
        var f := RoundFunction(i, b, c, d);
        var k: bv32 := if i < 20 then 0x5A827999 else if i < 40 then 0x6ED9EBA1 else if i < 60 then 0x8F1BBCDC
          else 0xCA62C1D6;
        assert k == Kt(i);
        var temp := Sum(LeftRotate5(a), f, e, k, w[i]);
        e := d;
        d := c;
        c := LeftRotate30(b);
        b := a;
        a := temp;
      }
      assert words == Words(block[..], 80) && (a, b, c, d, e) == Rounds(words, hash, 80);
      newHash := AddHash(hash, (a, b, c, d, e));
    }

    method Byte(hash: Hash, byte: bv8) returns (newHash: Hash)
      requires Valid() && Tracks(hash)
      modifies this`blockByteIndex, this`fed, this`blocks, block
      ensures Valid() && Tracks(newHash)
      ensures fed == old(fed) + [byte]
      ensures blockByteIndex == if old(blockByteIndex) == 63 then 0 else old(blockByteIndex) + 1
    {
      hide HashAfter, Compress;
      block[blockByteIndex] := byte;
      blockByteIndex := blockByteIndex + 1;
      fed := fed + [byte];
      newHash := hash;
      assert fed[64 * blocks..] == old(fed[64 * blocks..]) + [byte];
      assert block[..blockByteIndex] == old(block[..blockByteIndex]) + [byte];
      HashOfPrefix(old(fed), fed, blocks);
      if blockByteIndex == 64 {
        blockByteIndex := 0;
        newHash := ProcessBlock(hash);
        LastBlock(fed, block[..], blocks);
        HashNext(fed, blocks);
        blocks := blocks + 1;
      }
    }

    method Zero(hash: Hash, ghost message: seq<bv8>, ghost zeros: nat) returns (newHash: Hash)
      requires Valid() && Tracks(hash) && fed == message + [0x80] + Zeros(zeros)
      modifies this`blockByteIndex, this`fed, this`blocks, block
      ensures Valid() && Tracks(newHash) && fed == message + [0x80] + Zeros(zeros + 1)
      ensures blockByteIndex == if old(blockByteIndex) == 63 then 0 else old(blockByteIndex) + 1
    {
      newHash := Byte(hash, 0);
      assert Zeros(zeros + 1) == Zeros(zeros) + [0];
    }

    /** Appends the bit 1 and the zero bits. */
    method Pad(hash: Hash, ghost message: seq<bv8>) returns (newHash: Hash)
      requires Valid() && Tracks(hash) && fed == message
      modifies this`blockByteIndex, this`fed, this`blocks, block
      ensures Valid() && Tracks(newHash) && blockByteIndex == 56
      ensures fed == message + [0x80] + Zeros(ZeroCount(|message|))
    {
      newHash := Byte(hash, 0x80);
      ghost var zeros := 0;
      assert fed == message + [0x80] + Zeros(0);
      ghost var first := blockByteIndex;
      if blockByteIndex > 56 {
        while blockByteIndex != 0
          invariant Valid() && Tracks(newHash) && fed == message + [0x80] + Zeros(zeros)
          invariant blockByteIndex == if first + zeros == 64 then 0 else first + zeros
          invariant first + zeros <= 64
          decreases 64 - first - zeros
        {
          newHash := Zero(newHash, message, zeros);
          zeros := zeros + 1;
        }
        while blockByteIndex < 56
          invariant Valid() && Tracks(newHash) && fed == message + [0x80] + Zeros(zeros)
          invariant first + zeros == 64 + blockByteIndex && blockByteIndex <= 56
        {
          newHash := Zero(newHash, message, zeros);
          zeros := zeros + 1;
        }
      } else {
        while blockByteIndex < 56
          invariant Valid() && Tracks(newHash) && fed == message + [0x80] + Zeros(zeros)
          invariant first + zeros == blockByteIndex <= 56
        {
          newHash := Zero(newHash, message, zeros);
          zeros := zeros + 1;
        }
      }
      OnlyZeroCount(|message|, zeros, blocks);
    }

    /** Four calls of Byte, for half of the length field. */
    method AppendBytes(hash: Hash, a: bv8, b: bv8, c: bv8, d: bv8) returns (newHash: Hash)
      requires Valid() && Tracks(hash) && (blockByteIndex == 56 || blockByteIndex == 60)
      modifies this`blockByteIndex, this`fed, this`blocks, block
      ensures Valid() && Tracks(newHash) && blockByteIndex == (if old(blockByteIndex) == 56 then 60 else 0)
      ensures fed == old(fed) + [a, b, c, d]
    {
      hide HashAfter;
      newHash := Byte(hash, a);
      newHash := Byte(newHash, b);
      newHash := Byte(newHash, c);
      newHash := Byte(newHash, d);
    }

    /** Counts one more byte; fails when the bit count would reach 2^64. */
    method CountByte() returns (ok: bool)
      requires bitCountLow % 8 == 0 && bitCountLow <= 0xFFFFFFF8 && bitCountHigh <= 0xFFFFFFFF
      modifies this`bitCountLow, this`bitCountHigh
      ensures ok <==> WORD * old(bitCountHigh) + old(bitCountLow) + 8 < WORD * WORD
      ensures ok ==> WORD * bitCountHigh + bitCountLow == WORD * old(bitCountHigh) + old(bitCountLow) + 8
      ensures ok ==> bitCountLow % 8 == 0 && bitCountLow <= 0xFFFFFFF8 && bitCountHigh <= 0xFFFFFFFF
    {
      if bitCountLow < 0xFFFFFFF8 {
        bitCountLow := bitCountLow + 8;
      } else {
        bitCountLow := 0;
        if bitCountHigh <= 0xFFFFFFFE {
          bitCountHigh := bitCountHigh + 1;
        } else {
          return false;
        }
      }
      ok := true;
    }

    /** The loop over the message. */
    method Consume(hash: Hash, buffer: seq<bv8>) returns (ok: bool, newHash: Hash)
      requires Valid() && Tracks(hash) && fed == [] && bitCountLow == bitCountHigh == 0
      modifies this, block
      ensures ok <==> |buffer| < 0x2000_0000_0000_0000
      ensures ok ==> Valid() && Tracks(newHash) && fed == buffer
      ensures ok ==> WORD * bitCountHigh + bitCountLow == 8 * |buffer| && bitCountLow < WORD
    {
      newHash := hash;
      for start := 0 to |buffer|
        invariant Valid() && Tracks(newHash) && fed == buffer[..start]
        invariant WORD * bitCountHigh + bitCountLow == 8 * start
        invariant bitCountLow % 8 == 0 && bitCountLow <= 0xFFFFFFF8 && bitCountHigh <= 0xFFFFFFFF
      {
        newHash := Byte(newHash, buffer[start]);
        assert buffer[..start + 1] == buffer[..start] + [buffer[start]];
        ok := CountByte();
        if !ok {
          return;
        }
      }
      assert buffer[..|buffer|] == buffer;
      ok := true;
    }

    /** On a fresh object: the standard's digest of the message, or failure exactly when the
        message has 2^61 bytes or more and its length in bits does not fit into 64 bits. */
    method Digest(buffer: seq<bv8>) returns (ok: bool, hash: Hash)
      requires Valid() && fed == [] && blocks == 0 && bitCountLow == bitCountHigh == 0
      modifies this, block
      ensures ok <==> |buffer| < 0x2000_0000_0000_0000
      ensures ok ==> hash == Standard(buffer)
      ensures ok ==> Valid() && blockByteIndex == 0 && WORD * bitCountHigh + bitCountLow == 8 * |buffer|
    {
      hide Standard, ByteOf, ZeroCount;
      hash := (0x67452301, 0xEFCDAB89, 0x98BADCFE, 0x10325476, 0xC3D2E1F0);
      ok, hash := Consume(hash, buffer);
      if ok {
        hash := Pad(hash, buffer);
        hash := AppendBytes(hash, ByteOf(bitCountHigh / 0x100_0000), ByteOf(bitCountHigh / 0x1_0000),
                            ByteOf(bitCountHigh / 0x100), ByteOf(bitCountHigh));
        hash := AppendBytes(hash, ByteOf(bitCountLow / 0x100_0000), ByteOf(bitCountLow / 0x1_0000),
                            ByteOf(bitCountLow / 0x100), ByteOf(bitCountLow));
        LengthBytes(8 * |buffer|, bitCountHigh, bitCountLow);
        StandardOfPadded(buffer, fed, blocks);
      }
    }
  }

  lemma StandardOfPadded(message: seq<bv8>, p: seq<bv8>, blocks: nat)
    requires p == message + [0x80] + Zeros(ZeroCount(|message|)) + BigEndian64(8 * |message|)
    requires |p| == 64 * blocks
    ensures Standard(message) == HashAfter(p, blocks)
  {
    hide HashAfter, BigEndian64, Zeros, ZeroCount;
    assert p == Padded(message);
  }

  function WordBytes(n: nat): seq<bv8> {
    [ByteOf(n / 0x100_0000), ByteOf(n / 0x1_0000), ByteOf(n / 0x100), ByteOf(n)]
  }

  lemma LengthBytes(n: nat, high: nat, low: nat)
    requires n == WORD * high + low && low < WORD
    ensures BigEndian64(n) == WordBytes(high) + WordBytes(low)
  {
    HighBytes(n, high, low);
    LowBytes(n, high, low);
  }

  lemma HighBytes(n: nat, high: nat, low: nat)
    requires n == WORD * high + low && low < WORD
    ensures n / 0x100_0000_0000_0000 == high / 0x100_0000
    ensures n / 0x1_0000_0000_0000 == high / 0x1_0000
    ensures n / 0x100_0000_0000 == high / 0x100
    ensures n / 0x1_0000_0000 == high
  {
  }

  lemma LowBytes(n: nat, high: nat, low: nat)
    requires n == WORD * high + low && low < WORD
    ensures ByteOf(n / 0x100_0000) == ByteOf(low / 0x100_0000)
    ensures ByteOf(n / 0x1_0000) == ByteOf(low / 0x1_0000)
    ensures ByteOf(n / 0x100) == ByteOf(low / 0x100)
    ensures ByteOf(n) == ByteOf(low)
  {
    SameByte(n / 0x100_0000, low / 0x100_0000, high);
    SameByte(n / 0x1_0000, low / 0x1_0000, 0x100 * high);
    SameByte(n / 0x100, low / 0x100, 0x1_0000 * high);
    SameByte(n, low, 0x100_0000 * high);
  }

  lemma SameRemainder(n: nat, m: nat, k: nat)
    requires n == 256 * k + m
    ensures n % 256 == m % 256
  {
  }

  lemma SameByte(n: nat, m: nat, k: nat)
    requires n == 256 * k + m
    ensures ByteOf(n) == ByteOf(m)
  {
    SameRemainder(n, m, k);
  }

  lemma OnlyZeroCount(n: nat, zeros: nat, blocks: nat)
    requires zeros < 64 && n + 1 + zeros == 64 * blocks + 56
    ensures zeros == ZeroCount(n)
  {
    assert FillsBlock(n, zeros);
  }

  // ----- the printed digest -----

  function HexDigit(d: nat): char
    requires d < 16
  {
    "0123456789abcdef"[d]
  }

  /** The digits std::hex writes. */
  function Hex(n: nat): (s: string)
    ensures |s| > 0
  {
    if n < 16 then [HexDigit(n)] else Hex(n / 16) + [HexDigit(n % 16)]
  }

  /** setfill('0') and setw(8). */
  function Filled(s: string): (r: string)
    ensures |s| <= 8 ==> |r| == 8
    decreases 8 - |s|
  {
    if |s| >= 8 then s else Filled(['0'] + s)
  }

  function DigitValue(c: char): nat {
    if '0' <= c <= '9' then c as nat - '0' as nat
    else if 'a' <= c <= 'f' then c as nat - 'a' as nat + 10
    else 0
  }

  function ReadHex(s: string): nat {
    if s == "" then 0 else 16 * ReadHex(s[..|s| - 1]) + DigitValue(s[|s| - 1])
  }

  lemma DigitRoundTrip(d: nat)
    requires d < 16
    ensures DigitValue(HexDigit(d)) == d
  {
  }

  lemma ReadHexAppend(s: string, c: char)
    ensures ReadHex(s + [c]) == 16 * ReadHex(s) + DigitValue(c)
  {
    assert (s + [c])[..|s|] == s;
  }

  lemma {:induction false} ReadHexOfHex(n: nat)
    ensures ReadHex(Hex(n)) == n
  {
    DigitRoundTrip(n % 16);
    if n >= 16 {
      ReadHexOfHex(n / 16);
      ReadHexAppend(Hex(n / 16), HexDigit(n % 16));
    } else {
      ReadHexAppend("", HexDigit(n));
      assert Hex(n) == "" + [HexDigit(n)];
    }
  }

  lemma {:induction false} HexLength(n: nat, k: nat)
    requires k > 0 && n < Power16(k)
    ensures |Hex(n)| <= k
  {
    if n >= 16 {
      HexLength(n / 16, k - 1);
    }
  }

  function Power16(k: nat): nat {
    if k == 0 then 1 else 16 * Power16(k - 1)
  }

  lemma {:induction false} ReadHexZero(s: string)
    ensures ReadHex(['0'] + s) == ReadHex(s)
  {
    if s != "" {
      ReadHexZero(s[..|s| - 1]);
      assert (['0'] + s)[..|s|] == ['0'] + s[..|s| - 1];
    } else {
      assert (['0'] + s)[..0] == "";
    }
  }

  lemma {:induction false} ReadHexOfFilled(s: string)
    ensures ReadHex(Filled(s)) == ReadHex(s)
    decreases 8 - |s|
  {
    if |s| < 8 {
      ReadHexOfFilled(['0'] + s);
      ReadHexZero(s);
    }
  }

  function HexWord(h: bv32): string {
    Filled(Hex(h as nat))
  }

  /** Each word is printed as eight digits from which it can be read back. */
  lemma HexWordRoundTrip(h: bv32)
    ensures |HexWord(h)| == 8 && ReadHex(HexWord(h)) == h as nat
  {
    var n := h as nat;
    assert Power16(8) == 0x1_0000_0000;
    HexLength(n, 8);
    ReadHexOfHex(n);
    ReadHexOfFilled(Hex(n));
  }

  function HexHash(h: Hash): string {
    HexWord(h.0) + HexWord(h.1) + HexWord(h.2) + HexWord(h.3) + HexWord(h.4)
  }

  predicate IsHexDigit(c: char) {
    '0' <= c <= '9' || 'a' <= c <= 'f'
  }

  lemma {:induction false} HexDigitsOnly(n: nat)
    ensures forall i :: 0 <= i < |Hex(n)| ==> IsHexDigit(Hex(n)[i])
  {
    if n >= 16 {
      HexDigitsOnly(n / 16);
    }
  }

  lemma {:induction false} FilledDigitsOnly(s: string)
    requires forall i :: 0 <= i < |s| ==> IsHexDigit(s[i])
    ensures forall i :: 0 <= i < |Filled(s)| ==> IsHexDigit(Filled(s)[i])
    decreases 8 - |s|
  {
    if |s| < 8 {
      FilledDigitsOnly(['0'] + s);
    }
  }

  lemma WordDigitsOnly(h: bv32)
    ensures forall i :: 0 <= i < |HexWord(h)| ==> IsHexDigit(HexWord(h)[i])
  {
    HexDigitsOnly(h as nat);
    FilledDigitsOnly(Hex(h as nat));
  }

  /** s shows the words of a hash value one after the other, eight digits each. */
  ghost predicate IsHexOf(s: string, h: Hash) {
    && |s| == 40
    && (forall i :: 0 <= i < 40 ==> IsHexDigit(s[i]))
    && ReadHex(s[..8]) == h.0 as nat
    && ReadHex(s[8..16]) == h.1 as nat
    && ReadHex(s[16..24]) == h.2 as nat
    && ReadHex(s[24..32]) == h.3 as nat
    && ReadHex(s[32..]) == h.4 as nat
  }

  lemma PartsOfFive(a: string, b: string, c: string, d: string, e: string)
    requires |a| == |b| == |c| == |d| == |e| == 8
    ensures var s := a + b + c + d + e;
      |s| == 40 && s[..8] == a && s[8..16] == b && s[16..24] == c && s[24..32] == d && s[32..] == e
  {
  }

  lemma HexHashShowsWords(h: Hash)
    ensures IsHexOf(HexHash(h), h)
  {
    hide HexWord, ReadHex, IsHexDigit;
    forall w: bv32
      ensures |HexWord(w)| == 8 && ReadHex(HexWord(w)) == w as nat
      ensures forall k :: 0 <= k < 8 ==> IsHexDigit(HexWord(w)[k])
    {
      HexWordRoundTrip(w);
      WordDigitsOnly(w);
    }
    PartsOfFive(HexWord(h.0), HexWord(h.1), HexWord(h.2), HexWord(h.3), HexWord(h.4));
  }

  /** common::sha1: the hexadecimal digest, or the empty string for a message that is too long. */
  method Sha1Hex(buffer: seq<bv8>) returns (s: string)
    ensures |buffer| < 0x2000_0000_0000_0000 ==> s == HexHash(Standard(buffer)) && IsHexOf(s, Standard(buffer))
    ensures |buffer| >= 0x2000_0000_0000_0000 ==> s == ""
  {
    hide HexHash, Standard, IsHexOf;
    var sha1 := new Sha1();
    var ok, hash := sha1.Digest(buffer);
    HexHashShowsWords(hash);
    s := if ok then HexHash(hash) else "";
  }

  lemma HexWordInjective(g: bv32, h: bv32)
    requires HexWord(g) == HexWord(h)
    ensures g == h
  {
    HexWordRoundTrip(g);
    HexWordRoundTrip(h);
    assert (g as nat) as bv32 == (h as nat) as bv32;
  }

  lemma SameParts(a: string, b: string, c: string, d: string)
    requires |a| == |c| && a + b == c + d
    ensures a == c && b == d
  {
    assert a == (a + b)[..|a|] && c == (c + d)[..|a|];
    assert b == (a + b)[|a|..] && d == (c + d)[|a|..];
  }

  /** The printed digest has 40 characters and determines the digest. */
  lemma HexHashInjective(g: Hash, h: Hash)
    ensures |HexHash(g)| == 40
    ensures HexHash(g) == HexHash(h) ==> g == h
  {
    HexHashLength(g);
    HexHashLength(h);
    if HexHash(g) == HexHash(h) {
      SameParts(HexWord(g.0) + HexWord(g.1) + HexWord(g.2) + HexWord(g.3), HexWord(g.4),
                HexWord(h.0) + HexWord(h.1) + HexWord(h.2) + HexWord(h.3), HexWord(h.4));
      SameParts(HexWord(g.0) + HexWord(g.1) + HexWord(g.2), HexWord(g.3), HexWord(h.0) + HexWord(h.1) + HexWord(h.2),
        HexWord(h.3));
      SameParts(HexWord(g.0) + HexWord(g.1), HexWord(g.2), HexWord(h.0) + HexWord(h.1), HexWord(h.2));
      SameParts(HexWord(g.0), HexWord(g.1), HexWord(h.0), HexWord(h.1));
      HexWordInjective(g.0, h.0);
      HexWordInjective(g.1, h.1);
      HexWordInjective(g.2, h.2);
      HexWordInjective(g.3, h.3);
      HexWordInjective(g.4, h.4);
    }
  }

  lemma HexHashLength(h: Hash)
    ensures |HexWord(h.0)| == |HexWord(h.1)| == |HexWord(h.2)| == |HexWord(h.3)| == |HexWord(h.4)| == 8
    ensures |HexHash(h)| == 40
  {
    HexWordRoundTrip(h.0);
    HexWordRoundTrip(h.1);
    HexWordRoundTrip(h.2);
    HexWordRoundTrip(h.3);
    HexWordRoundTrip(h.4);
  }
}
