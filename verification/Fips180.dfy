/** The SHA-1 hash computation as FIPS 180-4 defines it. */
module Fips180 {
  type Byte = bv8
  type Word = bv32

  function Add(x: Word, y: Word): Word { x + y }
  function Rotl1(x: Word): Word { (x << 1) | (x >> 31) }
  function Rotl5(x: Word): Word { (x << 5) | (x >> 27) }
  function Rotl30(x: Word): Word { (x << 30) | (x >> 2) }

  // Section 4.1.1.
  function Ch(x: Word, y: Word, z: Word): Word { (x & y) ^ (!x & z) }
  function Parity(x: Word, y: Word, z: Word): Word { x ^ y ^ z }
  function Maj(x: Word, y: Word, z: Word): Word { (x & y) ^ (x & z) ^ (y & z) }

  type Mixing = (Word, Word, Word) -> Word

  function F(t: nat): Mixing
  {
    if t < 20 then Ch else if t < 40 then Parity else if t < 60 then Maj else Parity
  }

  // Section 4.2.1.
  function K(t: nat): Word
  {
    if t < 20 then 0x5a827999 else if t < 40 then 0x6ed9eba1 else if t < 60 then 0x8f1bbcdc else 0xca62c1d6
  }

  datatype State = State(a: Word, b: Word, c: Word, d: Word, e: Word)
  {
    function Plus(s: State): State
    {
      State(Add(a, s.a), Add(b, s.b), Add(c, s.c), Add(d, s.d), Add(e, s.e))
    }
  }

  // Section 5.3.1.
  const INITIAL := State(0x67452301, 0xefcdab89, 0x98badcfe, 0x10325476, 0xc3d2e1f0)

  // A sequence grown to length n, each new element made from those before it.
  function Grow<T>(next: seq<T> -> T, s: seq<T>, n: nat): (w: seq<T>)
    requires |s| <= n
    ensures |w| == n && s <= w
    decreases n - |s|
  {
    if n == |s| then s else Grow(next, s + [next(s)], n)
  }

  function MixWord(w: seq<Word>): Word
  {
    var t := |w|;
    if t < 16 then 0 else Rotl1(w[t - 3] ^ w[t - 8] ^ w[t - 14] ^ w[t - 16])
  }

  // Section 6.1.2, step 1: the message schedule.
  function Schedule(block: seq<Word>): (w: seq<Word>)
    requires |block| == 16
    ensures |w| == 80 && block <= w
  {
    Grow(MixWord, block, 80)
  }

  function T(a5: Word, f: Word, e: Word, k: Word, w: Word): Word { a5 + f + e + k + w }

  // Step 3, for one t.
  function Round(s: State, f: Mixing, k: Word, w: Word): State
  {
    State(T(Rotl5(s.a), f(s.b, s.c, s.d), s.e, k, w), s.a, Rotl30(s.b), s.c, s.d)
  }

  function Rounds(s: State, w: seq<Word>, n: nat): State
    requires n <= |w|
  {
    if n == 0 then s else Round(Rounds(s, w, n - 1), F(n - 1), K(n - 1), w[n - 1])
  }

  // Steps 1 to 4 for one block.
  function Compress(h: State, block: seq<Word>): State
    requires |block| == 16
  {
    h.Plus(Rounds(h, Schedule(block), 80))
  }

  // Bytes stand in a word with the first one at the top.
  function BigEndian(b0: Byte, b1: Byte, b2: Byte, b3: Byte): Word
  {
    (b0 as bv32 << 24) | (b1 as bv32 << 16) | (b2 as bv32 << 8) | b3 as bv32
  }

  function WordBytes(w: Word): (b: seq<Byte>)
    ensures |b| == 4
  {
    [(w >> 24) as bv8, ((w >> 16) & 0xff) as bv8, ((w >> 8) & 0xff) as bv8, (w & 0xff) as bv8]
  }

  function Words(bytes: seq<Byte>): (w: seq<Word>)
    requires |bytes| == 64
    ensures |w| == 16
  {
    seq(16, t requires 0 <= t < 16 => BigEndian(bytes[4 * t], bytes[4 * t + 1], bytes[4 * t + 2], bytes[4 * t + 3]))
  }

  // One step per block of 64 bytes.
  function FoldBlocks<S>(step: (S, seq<Byte>) -> S, s: S, bytes: seq<Byte>): S
    requires |bytes| % 64 == 0
  {
    if bytes == [] then s else FoldBlocks(step, step(s, bytes[..64]), bytes[64..])
  }

  function CompressBytes(h: State, block: seq<Byte>): State
  {
    if |block| == 64 then Compress(h, Words(block)) else h
  }

  // Section 6.1.2 over all blocks, from the initial state.
  function HashBlocks(bytes: seq<Byte>): State
  {
    if |bytes| % 64 == 0 then FoldBlocks(CompressBytes, INITIAL, bytes) else INITIAL
  }

  function Zeros(n: nat): (z: seq<Byte>)
    ensures |z| == n
  {
    seq(n, _ => 0)
  }

  // A message of less than 2^64 bits, in bytes.
  const MAX_LENGTH := 0x2000_0000_0000_0000

  // The length in bits, as two words.
  function LengthWords(n: nat): (w: seq<Word>)
    requires n < MAX_LENGTH
    ensures |w| == 2
  {
    [(8 * n / 0x1_0000_0000) as bv32, (8 * n % 0x1_0000_0000) as bv32]
  }

  function ZeroBytes(n: nat): (k: nat)
    ensures k < 64 && (n + 1 + k + 8) % 64 == 0
  {
    (119 - n % 64) % 64
  }

  // Section 5.1.1: a one bit, the fewest zero bits that leave room for the
  // length, and the length.
  function Padding(n: nat): (p: seq<Byte>)
    requires n < MAX_LENGTH
    ensures (n + |p|) % 64 == 0
  {
    var len := LengthWords(n);
    [0x80] + Zeros(ZeroBytes(n)) + WordBytes(len[0]) + WordBytes(len[1])
  }

  function Digest(h: State): (d: seq<Byte>)
    ensures |d| == 20
  {
    WordBytes(h.a) + WordBytes(h.b) + WordBytes(h.c) + WordBytes(h.d) + WordBytes(h.e)
  }

  function Sha1(message: seq<Byte>): (d: seq<Byte>)
    requires |message| < MAX_LENGTH
    ensures |d| == 20
  {
    Digest(HashBlocks(message + Padding(|message|)))
  }

  lemma {:induction false} GrownAt<T>(next: seq<T> -> T, s: seq<T>, n: nat, t: nat)
    requires |s| <= t < n
    ensures var w := Grow(next, s, n); |w| == n && w[t] == next(w[..t])
    decreases n - |s|
  {
    var w := Grow(next, s, n);
    if t == |s| {
      assert w[..t] == s && s + [next(s)] <= w;
    } else {
      GrownAt(next, s + [next(s)], n, t);
    }
  }

  lemma {:induction false} FoldOneMore<S>(step: (S, seq<Byte>) -> S, s: S, bytes: seq<Byte>, block: seq<Byte>)
    requires |bytes| % 64 == 0 && |block| == 64
    ensures FoldBlocks(step, s, bytes + block) == step(FoldBlocks(step, s, bytes), block)
    decreases |bytes|
  {
    if bytes == [] {
      assert bytes + block == block && block[..64] == block && block[64..] == [];
    } else {
      FoldOneMore(step, step(s, bytes[..64]), bytes[64..], block);
      assert (bytes + block)[..64] == bytes[..64] && (bytes + block)[64..] == bytes[64..] + block;
    }
  }

  lemma HashOneMore(bytes: seq<Byte>, block: seq<Byte>)
    requires |bytes| % 64 == 0 && |block| == 64
    ensures HashBlocks(bytes + block) == CompressBytes(HashBlocks(bytes), block)
  {
    FoldOneMore(CompressBytes, INITIAL, bytes, block);
  }

  lemma ScheduleAt(block: seq<Word>, t: nat)
    requires |block| == 16 && 16 <= t < 80
    ensures var w := Schedule(block); w[t] == Rotl1(w[t - 3] ^ w[t - 8] ^ w[t - 14] ^ w[t - 16])
  {
    GrownAt(MixWord, block, 80, t);
  }
}
