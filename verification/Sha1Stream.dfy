/** The streaming interface of sha1.c: sha1_begin, sha1_hash, sha1_end, sha1. */
module Sha1Stream {
  import Bits
  import opened Fips180
  import opened Sha1Memory
  import opened Sha1Compile
  import opened Sha1Padding

  // What the whole blocks of a message have done to the state, and its last
  // bytes waiting in memory.
  ghost predicate Absorbed(h: State, mem: seq<Byte>, m: seq<Byte>)
  {
    var tail := |m| % 64;
    |mem| == 64 && h == HashBlocks(m[..|m| - tail]) && mem[..tail] == m[|m| - tail..]
  }

  lemma BlockFilled(h: State, mem: seq<Byte>, m: seq<Byte>, d: seq<Byte>, mem': seq<Byte>)
    requires Absorbed(h, mem, m) && |m| % 64 + |d| == 64 && |mem'| == 64
    ensures |m + d| % 64 == 0 && Absorbed(CompressBytes(h, mem[..|m| % 64] + d), mem', m + d)
  {
    var full := |m| - |m| % 64;
    WholeBlocks(m, d, full);
    HashOneMore(m[..full], m[full..] + d);
  }

  lemma WholeBlocks(m: seq<Byte>, d: seq<Byte>, full: nat)
    requires full + |m| % 64 == |m| && |m| % 64 + |d| == 64
    ensures full % 64 == 0 && |m + d| % 64 == 0
    ensures (m + d)[..|m + d|] == m + d == m[..full] + (m[full..] + d)
  {
  }

  lemma GrownRest(a: nat, b: nat)
    requires a % 64 + b < 64
    ensures (a + b) % 64 == a % 64 + b
  {
  }

  lemma TailGrown(h: State, mem: seq<Byte>, m: seq<Byte>, d: seq<Byte>, mem': seq<Byte>)
    requires Absorbed(h, mem, m) && |m| % 64 + |d| < 64 && |mem'| == 64
    requires mem'[..|m| % 64 + |d|] == mem[..|m| % 64] + d
    ensures Absorbed(h, mem', m + d)
  {
    var full := |m| - |m| % 64;
    GrownRest(|m|, |d|);
    assert (m + d)[..full] == m[..full] && (m + d)[full..] == m[full..] + d;
  }

  // The counters behind len more bytes, with the carry test of sha1_hash.
  function CountsAfter(count0: Bits.u32, count1: Bits.u32, len: nat): (c: (Bits.u32, Bits.u32))
  {
    var low := (count0 + len) % 0x1_0000_0000;
    (low, if low < len then (count1 + 1) % 0x1_0000_0000 else count1)
  }

  // It counts right exactly for these lengths.
  lemma CarryIsExact(count0: Bits.u32, count1: Bits.u32, len: nat)
    requires count1 * 0x1_0000_0000 + count0 + len < 0x1_0000_0000_0000_0000
    ensures var (low, high) := CountsAfter(count0, count1, len);
      high * 0x1_0000_0000 + low == count1 * 0x1_0000_0000 + count0 + len <==> count0 + len < 0x2_0000_0000
  {
  }

  // A carry does not move the position in the block.
  lemma Positions(count0: Bits.u32, len: nat, n: nat)
    requires count0 % 64 == n % 64
    ensures (count0 + len) % 0x1_0000_0000 % 64 == (n + len) % 64
  {
  }

  // memcpy into the buffer, byte by byte.
  method CopyIn(little: bool, wbuf: array<Word>, pos: nat, data: seq<Byte>, ghost lanes: LaneMap)
    requires wbuf.Length == 16 && pos + |data| <= 64 && lanes == Lanes(little)
    modifies wbuf
    ensures var m := old(Memory(lanes, wbuf[..]));
      Memory(lanes, wbuf[..]) == m[..pos] + data + m[pos + |data|..]
  {
    ghost var m := Memory(lanes, wbuf[..]);
    for i := 0 to |data|
      invariant Memory(lanes, wbuf[..]) == m[..pos] + data[..i] + m[pos + i..]
    {
      CopyStep(m, pos, data, i);
      StoreByte(little, wbuf, pos + i, data[i], lanes);
    }
  }

  lemma CopyStep(m: seq<Byte>, pos: nat, data: seq<Byte>, i: nat)
    requires i < |data| && pos + |data| <= |m|
    ensures (m[..pos] + data[..i] + m[pos + i..])[pos + i := data[i]] == m[..pos] + data[..i + 1] + m[pos + i + 1..]
  {
  }

  method StoreByte(little: bool, wbuf: array<Word>, p: nat, b: Byte, ghost lanes: LaneMap)
    requires wbuf.Length == 16 && p < 64 && lanes == Lanes(little)
    modifies wbuf
    ensures Memory(lanes, wbuf[..]) == old(Memory(lanes, wbuf[..]))[p := b]
  {
    var l := Lanes(little)(wbuf[p / 4])[p % 4 := b];
    LanesOfWord(little, l);
    ByteUpdated(lanes, wbuf[..], p, b, FromLanes(little, l));
    ghost var w := wbuf[..];
    wbuf[p / 4] := FromLanes(little, l);
    assert wbuf[..] == w[p / 4 := FromLanes(little, l)];
  }

  // bsw_32: afterwards the first n words are read from their bytes with the
  // first byte on top.
  method SwapBytes(little: bool, wbuf: array<Word>, n: nat, ghost lanes: LaneMap)
    requires wbuf.Length == 16 && n <= 16 && lanes == Lanes(little)
    modifies wbuf
    ensures Memory(WordBytes, wbuf[..])[..4 * n] == old(Memory(lanes, wbuf[..]))[..4 * n]
  {
    ghost var w := wbuf[..];
    if little {
      var i := n;
      while i > 0
        invariant i <= n
        invariant forall t :: 0 <= t < 16 ==> wbuf[t] == if i <= t < n then Bswap(w[t]) else w[t]
      {
        i := i - 1;
        wbuf[i] := Bswap(wbuf[i]);
      }
    }
    SwappedPrefix(lanes, little, w, wbuf[..], n);
  }

  lemma {:induction false} SwappedPrefix(lanes: LaneMap, little: bool, w: seq<Word>, w': seq<Word>, n: nat)
    requires n <= |w| == |w'| && lanes == Lanes(little)
    requires forall t :: 0 <= t < n ==> w'[t] == if little then Bswap(w[t]) else w[t]
    ensures Memory(WordBytes, w')[..4 * n] == Memory(lanes, w)[..4 * n]
  {
    if n > 0 {
      SwappedPrefix(lanes, little, w[1..], w'[1..], n - 1);
      SwappedLanes(w[0]);
      assert WordBytes(w'[0]) == lanes(w[0]);
      MemoryFront(WordBytes, w', n);
      MemoryFront(lanes, w, n);
    }
  }

  lemma MemoryFront(lanes: LaneMap, w: seq<Word>, n: nat)
    requires 0 < n <= |w|
    ensures Memory(lanes, w)[..4 * n] == FourOf(lanes(w[0])) + Memory(lanes, w[1..])[..4 * (n - 1)]
  {
  }

  ghost function Tail(m: seq<Byte>): (t: seq<Byte>)
    ensures |t| == |m| % 64
  {
    m[|m| - |m| % 64..]
  }

  lemma TailRemoved(m: seq<Byte>)
    ensures m == m[..|m| - |Tail(m)|] + Tail(m) && (|m| - |Tail(m)|) % 64 == 0
  {
  }

  // The length field that the counters make: count1 << 3 | count0 >> 29, whose
  // bits do not overlap, and count0 << 3.
  ghost function CountBytes(count0: Bits.u32, count1: Bits.u32): (b: seq<Byte>)
    ensures |b| == 8
  {
    WordBytes((count1 * 8 % 0x1_0000_0000 + count0 / 0x2000_0000) as bv32)
    + WordBytes((count0 * 8 % 0x1_0000_0000) as bv32)
  }

  // The padding with a length field.
  ghost function PaddingWith(n: nat, len: seq<Byte>): seq<Byte>
  {
    [0x80] + Zeros(ZeroBytes(n)) + len
  }

  // What sha1_end makes of a message with these counters.
  ghost function Ended(m: seq<Byte>, count0: Bits.u32, count1: Bits.u32): seq<Byte>
  {
    Digest(HashBlocks(m + PaddingWith(|m|, CountBytes(count0, count1))))
  }

  // The two words of that field are those of a length exactly when the counters
  // hold it, up to a multiple of 2^61 bytes.
  lemma CountsOfLength(count0: Bits.u32, count1: Bits.u32, n: nat)
    requires n < MAX_LENGTH
    ensures var hi, lo := count1 * 8 % 0x1_0000_0000 + count0 / 0x2000_0000, count0 * 8 % 0x1_0000_0000;
      hi == 8 * n / 0x1_0000_0000 && lo == 8 * n % 0x1_0000_0000
      <==> (count1 * 0x1_0000_0000 + count0) % MAX_LENGTH == n
  {
    var a, b := count1 / 0x2000_0000, count1 % 0x2000_0000;
    var q, r := count0 / 0x2000_0000, count0 % 0x2000_0000;
    var s, t := n / 0x2000_0000, n % 0x2000_0000;
    assert count1 * 8 % 0x1_0000_0000 == 8 * b && count0 * 8 % 0x1_0000_0000 == 8 * r;
    assert 8 * n / 0x1_0000_0000 == s && 8 * n % 0x1_0000_0000 == 8 * t;
    assert count1 * 0x1_0000_0000 + count0 == MAX_LENGTH * a + (b * 0x1_0000_0000 + count0);
    assert (count1 * 0x1_0000_0000 + count0) % MAX_LENGTH == b * 0x1_0000_0000 + count0;
  }

  // Then the padding is the standard's, and the digest is.
  lemma EndedIsSha1(m: seq<Byte>, count0: Bits.u32, count1: Bits.u32)
    requires |m| < MAX_LENGTH && (count1 * 0x1_0000_0000 + count0) % MAX_LENGTH == |m|
    ensures Ended(m, count0, count1) == Sha1(m)
  {
    PaddedIsStandard(count0, count1, |m|);
  }

  lemma EndedExact(m: seq<Byte>, count0: Bits.u32, count1: Bits.u32, counted: nat)
    requires counted == |m| < MAX_LENGTH && counted == count1 * 0x1_0000_0000 + count0
    ensures Ended(m, count0, count1) == Sha1(m)
  {
    assert counted % MAX_LENGTH == counted;
    EndedIsSha1(m, count0, count1);
  }

  lemma PaddedIsStandard(count0: Bits.u32, count1: Bits.u32, n: nat)
    requires n < MAX_LENGTH && (count1 * 0x1_0000_0000 + count0) % MAX_LENGTH == n
    ensures PaddingWith(n, CountBytes(count0, count1)) == Padding(n)
  {
    CountsOfLength(count0, count1, n);
    var z, len := [0x80] + Zeros(ZeroBytes(n)), LengthWords(n);
    assert z + (WordBytes(len[0]) + WordBytes(len[1])) == z + WordBytes(len[0]) + WordBytes(len[1]);
  }

  type Step<!S> = (S, seq<Byte>) -> S

  // When the length does not fit behind the tail, the tail has a block of its
  // own and the last block starts with zeros.
  ghost function OwnBlock(tail: seq<Byte>): (b: seq<Byte>)
    requires |tail| < 64
    ensures |b| == 64
  {
    tail + [0x80] + Zeros(63 - |tail|)
  }

  ghost function BeforeLength(tail: seq<Byte>): (b: seq<Byte>)
    requires |tail| < 64
    ensures |b| == 56
  {
    if |tail| > 55 then Zeros(56) else tail + [0x80] + Zeros(55 - |tail|)
  }

  ghost function AfterTail<S>(step: Step<S>, h: S, tail: seq<Byte>): S
    requires |tail| < 64
  {
    if |tail| > 55 then step(h, OwnBlock(tail)) else h
  }

  lemma RestOf(a: nat, b: nat)
    requires a % 64 == 0
    ensures (a + 64) % 64 == 0 && (b < 64 ==> (a + b) % 64 == b)
  {
  }

  lemma PaddingSplits(m: seq<Byte>, pre: seq<Byte>, tail: seq<Byte>, len: seq<Byte>)
    requires m == pre + tail && |m| % 64 == |tail|
    ensures m + PaddingWith(|m|, len) == if |tail| > 55 then pre + OwnBlock(tail) + (BeforeLength(tail) + len)
                                         else pre + (BeforeLength(tail) + len)
  {
    var z := ZeroBytes(|m|);
    if |tail| > 55 {
      assert z == 63 - |tail| + 56;
      assert Zeros(z) == Zeros(63 - |tail|) + Zeros(56);
    } else {
      assert z == 55 - |tail|;
    }
  }

  // One more block is one more step.
  ghost predicate Chains<S(!new)>(fold: seq<Byte> -> S, step: Step<S>)
  {
    forall pre, last {:trigger fold(pre + last)} ::
      |pre| % 64 == 0 && |last| == 64 ==> fold(pre + last) == step(fold(pre), last)
  }

  lemma HashChains()
    ensures Chains(HashBlocks, CompressBytes)
  {
    forall pre: seq<Byte>, last: seq<Byte> | |pre| % 64 == 0 && |last| == 64
      ensures HashBlocks(pre + last) == CompressBytes(HashBlocks(pre), last)
    {
      HashOneMore(pre, last);
    }
  }

  lemma LastBlocks<S(!new)>(fold: seq<Byte> -> S, step: Step<S>, m: seq<Byte>, pre: seq<Byte>, tail: seq<Byte>,
                            len: seq<Byte>)
    requires Chains(fold, step) && |len| == 8
    requires |pre| % 64 == 0 && |tail| < 64 && m == pre + tail
    ensures fold(m + PaddingWith(|m|, len)) == step(AfterTail(step, fold(pre), tail), BeforeLength(tail) + len)
  {
    var last := BeforeLength(tail) + len;
    RestOf(|pre|, |tail|);
    PaddingSplits(m, pre, tail, len);
    if |tail| > 55 {
      var own := OwnBlock(tail);
      assert fold(pre + own + last) == step(fold(pre + own), last);
    } else {
      assert fold(pre + last) == step(fold(pre), last);
    }
  }

  // The last blocks as sha1_end makes them.
  ghost function LastState(h: State, tail: seq<Byte>, count0: Bits.u32, count1: Bits.u32): State
    requires |tail| < 64
  {
    CompressBytes(AfterTail(CompressBytes, h, tail), BeforeLength(tail) + CountBytes(count0, count1))
  }

  lemma EndState(m: seq<Byte>, pre: seq<Byte>, tail: seq<Byte>, count0: Bits.u32, count1: Bits.u32)
    requires |pre| % 64 == 0 && |tail| < 64 && m == pre + tail
    ensures Ended(m, count0, count1) == Digest(LastState(HashBlocks(pre), tail, count0, count1))
  {
    HashChains();
    LastBlocks(HashBlocks, CompressBytes, m, pre, tail, CountBytes(count0, count1));
  }

  // Zeros up to a word boundary and zero words behind them.
  lemma ZerosJoin(tail: seq<Byte>, n: nat)
    requires |tail| < 64
    ensures var short := tail + [0x80] + Zeros(3 - |tail| % 4);
      short + Zeros(n) == tail + [0x80] + Zeros(3 - |tail| % 4 + n)
  {
  }

  lemma LengthStored(lanes: LaneMap, w: seq<Word>, hi: Word, lo: Word)
    requires |w| == 16
    ensures Memory(lanes, w[14 := hi][15 := lo]) == Memory(lanes, w)[..56] + FourOf(lanes(hi)) + FourOf(lanes(lo))
  {
    MemoryUpdated(lanes, w, 14, hi);
    MemoryUpdated(lanes, w[14 := hi], 15, lo);
  }

  lemma DigestAt(h: State, hash: seq<Word>, d: seq<Byte>)
    requires |hash| == 5 && h == State(hash[0], hash[1], hash[2], hash[3], hash[4])
    requires |d| == 20 && forall k :: 0 <= k < 20 ==> d[k] == WordBytes(hash[k / 4])[k % 4]
    ensures d == Digest(h)
  {
  }

  lemma Joined(m: seq<Byte>, data: seq<Byte>, i: nat, j: nat)
    requires i <= j <= |data|
    ensures m + data[..i] + data[i..j] == m + data[..j]
      && (j == |data| ==> data[i..] == data[i..j] && data[..j] == data)
  {
  }

  function Joint(chunks: seq<seq<Byte>>): seq<Byte>
  {
    if chunks == [] then [] else chunks[0] + Joint(chunks[1..])
  }

  predicate AllShort(chunks: seq<seq<Byte>>)
  {
    forall i :: 0 <= i < |chunks| ==> |chunks[i]| < 0x1_0000_0000
  }

  lemma JointStep(m: seq<Byte>, chunks: seq<seq<Byte>>, i: nat)
    requires i < |chunks|
    ensures m + Joint(chunks[i..]) == m + chunks[i] + Joint(chunks[i + 1..])
  {
    assert chunks[i..][1..] == chunks[i + 1..];
  }

  class Context {
    const littleEndian: bool
    var count0: Bits.u32
    var count1: Bits.u32
    const hash: array<Word>
    const wbuf: array<Word>
    ghost var message: seq<Byte>

    constructor (littleEndian: bool)
      ensures Shaped() && fresh(hash) && fresh(wbuf)
    {
      this.littleEndian := littleEndian;
      hash := new Word[5];
      wbuf := new Word[16];
    }

    ghost predicate Shaped()
    {
      hash.Length == 5 && wbuf.Length == 16 && hash != wbuf
    }

    // The bytes of the buffer.
    ghost function Buffer(): seq<Byte>
      reads wbuf
    {
      Memory(Lanes(littleEndian), wbuf[..])
    }

    // Everything fed in so far is `message`, and the low counter has its
    // position in the block.
    ghost predicate Hashing()
      reads this, hash, wbuf
    {
      && Shaped() && count0 % 64 == |message| % 64
      && Absorbed(StateOf(hash), Buffer(), message)
    }

    ghost function Counted(): nat
      reads `count0, `count1
    {
      count1 * 0x1_0000_0000 + count0
    }

    // The counters hold the length.
    ghost predicate Exact()
      reads `count0, `count1, `message
    {
      Counted() == |message|
    }

    // m is fed in, and pos bytes of it wait in the buffer.
    ghost predicate Fed(m: seq<Byte>, pos: nat)
      reads hash, wbuf
    {
      Shaped() && pos == |m| % 64 && Absorbed(StateOf(hash), Buffer(), m)
    }

    method Begin()
      requires Shaped()
      modifies this, hash
      ensures Hashing() && message == [] && count0 == 0 && count1 == 0
    {
      count0, count1 := 0, 0;
      hash[0] := 0x67452301;
      hash[1] := 0xefcdab89;
      hash[2] := 0x98badcfe;
      hash[3] := 0x10325476;
      hash[4] := 0xc3d2e1f0;
      message := [];
    }

    // Fill the buffer up from pos, and compress it.
    method Block(pos: nat, data: seq<Byte>, ghost m: seq<Byte>)
      requires Fed(m, pos) && pos + |data| == 64
      modifies hash, wbuf
      ensures Fed(m + data, 0)
    {
      ghost var lanes, h, mem := Lanes(littleEndian), StateOf(hash), Buffer();
      CopyIn(littleEndian, wbuf, pos, data, lanes);
      ghost var block := mem[..pos] + data;
      assert Memory(lanes, wbuf[..]) == block;
      SwapBytes(littleEndian, wbuf, 16, lanes);
      CompressBuffer(block);
      BlockFilled(h, mem, m, data, Buffer());
    }

    // The words of the buffer, first bytes on top, are this block.
    method CompressBuffer(ghost block: seq<Byte>)
      requires Shaped() && Memory(WordBytes, wbuf[..])[..64] == block
      modifies hash, wbuf
      ensures StateOf(hash) == CompressBytes(old(StateOf(hash)), block)
    {
      WordsOfMemory(wbuf[..]);
      assert Memory(WordBytes, wbuf[..]) == block;
      Compile(hash, wbuf);
    }

    // sha1_hash: the bytes go in for every length, whatever the counters make of
    // it.
    method Hash(data: seq<Byte>)
      requires Hashing()
      modifies this, hash, wbuf
      ensures Hashing() && message == old(message) + data
      ensures (count0, count1) == CountsAfter(old(count0), old(count1), |data|)
    {
      var pos := count0 % 64;
      ghost var m := message + data;
      Count(|data|, |message|, |m|);
      Transfer(pos, data, message);
      message := m;
    }

    method Count(len: nat, ghost n: nat, ghost n': nat)
      requires count0 % 64 == n % 64 && n' == n + len
      modifies this`count0, this`count1
      ensures count0 % 64 == n' % 64
      ensures (count0, count1) == CountsAfter(old(count0), old(count1), len)
    {
      Positions(count0, len, n);
      count0 := (count0 + len) % 0x1_0000_0000;
      if count0 < len {
        count1 := (count1 + 1) % 0x1_0000_0000;
      }
    }

    // Whole blocks if possible, then the rest.
    method Transfer(pos0: nat, data: seq<Byte>, ghost m: seq<Byte>)
      requires Fed(m, pos0)
      modifies hash, wbuf
      ensures Absorbed(StateOf(hash), Buffer(), m + data)
    {
      var sp, len, pos: nat, space := 0, |data|, pos0, 64 - pos0;
      ghost var fed := m;
      assert m + data[..0] == m;
      while len >= space
        invariant 0 <= sp && sp + len == |data| && 0 <= len && 0 < space == 64 - pos
        invariant Fed(fed, pos) && fed == m + data[..sp]
      {
        Joined(m, data, sp, sp + space);
        Block(pos, data[sp..sp + space], fed);
        fed := fed + data[sp..sp + space];
        sp, len, space, pos := sp + space, len - space, 64, 0;
      }
      Joined(m, data, sp, |data|);
      Rest(pos, data[sp..], fed);
    }

    method HashEach(chunks: seq<seq<Byte>>)
      requires Hashing()
      modifies this, hash, wbuf
      ensures Hashing() && message == old(message) + Joint(chunks)
      ensures old(Exact()) && |message| < 0x1_0000_0000_0000_0000 && AllShort(chunks) ==> Exact()
    {
      ghost var total := message + Joint(chunks);
      ghost var counts := Exact() && |total| < 0x1_0000_0000_0000_0000 && AllShort(chunks);
      assert chunks[0..] == chunks;
      for i := 0 to |chunks|
        invariant Hashing() && message + Joint(chunks[i..]) == total && (counts ==> Exact())
      {
        JointStep(message, chunks, i);
        if counts { CarryIsExact(count0, count1, |chunks[i]|); }
        Hash(chunks[i]);
      }
      assert message + [] == message;
    }

    // What does not fill the buffer waits in it.
    method Rest(pos: nat, data: seq<Byte>, ghost m: seq<Byte>)
      requires Fed(m, pos) && pos + |data| < 64
      modifies wbuf
      ensures Absorbed(StateOf(hash), Buffer(), m + data)
    {
      ghost var mem := Buffer();
      CopyIn(littleEndian, wbuf, pos, data, Lanes(littleEndian));
      TailGrown(StateOf(hash), mem, m, data, Buffer());
    }

    // When nine bytes are not left, the tail is compressed on its own; returns
    // the first word still to be cleared.
    method CloseTail(i: nat, ghost tail: seq<Byte>) returns (j: nat)
      requires Shaped() && i == |tail| < 64
      requires Memory(WordBytes, wbuf[..])[..i - i % 4 + 4] == tail + [0x80] + Zeros(3 - i % 4)
      modifies hash, wbuf
      ensures StateOf(hash) == AfterTail(CompressBytes, old(StateOf(hash)), tail)
      ensures j <= 14 && Memory(WordBytes, wbuf[..])[..4 * j] + Zeros(56 - 4 * j) == BeforeLength(tail)
    {
      if i > 55 {
        CompressTail(i, tail);
        return 0;
      }
      j := i / 4 + 1;
      ZerosJoin(tail, 56 - 4 * j);
    }

    method CompressTail(i: nat, ghost tail: seq<Byte>)
      requires Shaped() && 55 < i == |tail| < 64
      requires Memory(WordBytes, wbuf[..])[..i - i % 4 + 4] == tail + [0x80] + Zeros(3 - i % 4)
      modifies hash, wbuf
      ensures StateOf(hash) == CompressBytes(old(StateOf(hash)), OwnBlock(tail))
    {
      if i < 60 {
        ZeroWords(wbuf, 15, 16);
      }
      ZerosJoin(tail, if i < 60 then 4 else 0);
      CompressBuffer(OwnBlock(tail));
    }

    // The length in bits, in the last two words.
    method PutLength(ghost tail: seq<Byte>)
      requires Shaped() && |tail| < 64
      requires Memory(WordBytes, wbuf[..])[..56] == BeforeLength(tail)
      modifies wbuf
      ensures Memory(WordBytes, wbuf[..]) == BeforeLength(tail) + CountBytes(count0, count1)
    {
      ghost var w := wbuf[..];
      var hi := (count1 * 8 % 0x1_0000_0000 + count0 / 0x2000_0000) as bv32;
      var lo := (count0 * 8 % 0x1_0000_0000) as bv32;
      LengthStored(WordBytes, w, hi, lo);
      wbuf[14] := hi;
      wbuf[15] := lo;
      assert wbuf[..] == w[14 := hi][15 := lo];
    }

    method WriteDigest(hval: array<Byte>)
      requires Shaped() && hval.Length >= 20
      modifies hval
      ensures hval[..20] == Digest(StateOf(hash)) && hval[20..] == old(hval[20..])
    {
      for i := 0 to 20
        invariant forall k :: 0 <= k < i ==> hval[k] == WordBytes(hash[k / 4])[k % 4]
        invariant hval[20..] == old(hval[20..])
      {
        hval[i] := WordBytes(hash[i / 4])[i % 4];
      }
      DigestAt(StateOf(hash), hash[..], hval[..20]);
    }

    // sha1_end: the digest of everything fed in, with the length the counters
    // hold.
    method End(hval: array<Byte>)
      requires Hashing() && hval.Length >= 20
      modifies this, hash, wbuf, hval
      ensures hval[..20] == Ended(old(message), old(count0), old(count1)) && hval[20..] == old(hval[20..])
      ensures |old(message)| < MAX_LENGTH && old(Exact()) ==> hval[..20] == Sha1(old(message))
    {
      ghost var m, tail := message, Tail(message);
      Waiting();
      EndState(m, m[..|m| - |tail|], tail, count0, count1);
      if |m| < MAX_LENGTH && Exact() { EndedExact(m, count0, count1, Counted()); }
      FinishInto(hval, count0 % 64, tail, Ended(m, count0, count1));
    }

    method FinishInto(hval: array<Byte>, i: nat, ghost tail: seq<Byte>, ghost digest: seq<Byte>)
      requires Shaped() && hval.Length >= 20 && i == |tail| < 64 && Buffer()[..i] == tail
      requires digest == Digest(LastState(StateOf(hash), tail, count0, count1))
      modifies hash, wbuf, hval
      ensures hval[..20] == digest && hval[20..] == old(hval[20..])
    {
      Finish(i, tail);
      WriteDigest(hval);
    }

    // What the buffer holds between calls.
    lemma Waiting()
      requires Hashing()
      ensures var tail := Tail(message);
        && count0 % 64 == |tail| && Buffer()[..count0 % 64] == tail && |message[..|message| - |tail|]| % 64 == 0
        && message == message[..|message| - |tail|] + tail
        && StateOf(hash) == HashBlocks(message[..|message| - |tail|])
    {
      TailRemoved(message);
    }

    method Finish(i0: nat, ghost tail: seq<Byte>)
      requires Shaped() && i0 == |tail| < 64 && Buffer()[..i0] == tail
      modifies hash, wbuf
      ensures StateOf(hash) == LastState(old(StateOf(hash)), tail, count0, count1)
    {
      var i := i0;
      PrepareTail(i, tail);
      i := CloseTail(i, tail);
      ZeroWords(wbuf, i, 14);
      PutLength(tail);
      CompressBuffer(BeforeLength(tail) + CountBytes(count0, count1));
    }

    method PrepareTail(i: nat, ghost tail: seq<Byte>)
      requires Shaped() && i == |tail| < 64 && Buffer()[..i] == tail
      modifies wbuf
      ensures Memory(WordBytes, wbuf[..])[..i - i % 4 + 4] == tail + [0x80] + Zeros(3 - i % 4)
    {
      ghost var m := Buffer();
      SwapBytes(littleEndian, wbuf, (i + 3) / 4, Lanes(littleEndian));
      assert Memory(WordBytes, wbuf[..])[..i] == Memory(WordBytes, wbuf[..])[..4 * ((i + 3) / 4)][..i];
      PadTail(wbuf, i, tail);
    }
  }

  // sha1: the digest of one array of bytes, with the length its counters can
  // hold: the standard's below 2^33 bytes.
  method Sha1Of(hval: array<Byte>, data: seq<Byte>, littleEndian: bool)
    requires hval.Length >= 20
    modifies hval
    ensures var counts := CountsAfter(0, 0, |data|); hval[..20] == Ended(data, counts.0, counts.1)
    ensures |data| < 0x2_0000_0000 ==> hval[..20] == Sha1(data)
    ensures hval[20..] == old(hval[20..])
  {
    var cx := new Context(littleEndian);
    cx.Begin();
    cx.Hash(data);
    assert [] + data == data;
    ghost var counts := CountsAfter(0, 0, |data|);
    if |data| < 0x2_0000_0000 {
      CarryIsExact(0, 0, |data|);
      EndedExact(data, counts.0, counts.1, |data|);
    }
    assert cx.message == data && cx.count0 == counts.0 && cx.count1 == counts.1;
    cx.End(hval);
  }

  // However a message is split, the digest is that of the whole message.
  method Sha1Chunks(hval: array<Byte>, chunks: seq<seq<Byte>>, littleEndian: bool)
    requires hval.Length >= 20 && |Joint(chunks)| < MAX_LENGTH
    requires AllShort(chunks)
    modifies hval
    ensures hval[..20] == Sha1(Joint(chunks)) && hval[20..] == old(hval[20..])
  {
    var cx := new Context(littleEndian);
    cx.Begin();
    cx.HashEach(chunks);
    assert [] + Joint(chunks) == Joint(chunks);
    cx.End(hval);
  }
}
