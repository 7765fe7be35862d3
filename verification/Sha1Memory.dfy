/** The sixteen words of the SHA-1 buffer seen as sixty-four bytes. */
module Sha1Memory {
  import opened Fips180

  function Bswap(x: Word): Word
  {
    (((x >> 24) | (x << 8)) & 0x00ff00ff) | (((x >> 8) | (x << 24)) & 0xff00ff00)
  }

  lemma RawBytes(w: Word)
    ensures ((w >> 24) as bv8 as bv32 << 24) | (((w >> 16) & 0xff) as bv8 as bv32 << 16)
          | (((w >> 8) & 0xff) as bv8 as bv32 << 8) | (w & 0xff) as bv8 as bv32 == w
  {
  }

  lemma RawWord(a: Byte, b: Byte, c: Byte, d: Byte)
    ensures var w := (a as bv32 << 24) | (b as bv32 << 16) | (c as bv32 << 8) | d as bv32;
      (w >> 24) as bv8 == a && ((w >> 16) & 0xff) as bv8 == b && ((w >> 8) & 0xff) as bv8 == c && (w & 0xff) as bv8 == d
  {
  }

  lemma BytesOfWord(a: Byte, b: Byte, c: Byte, d: Byte)
    ensures WordBytes(BigEndian(a, b, c, d)) == [a, b, c, d]
  {
    RawWord(a, b, c, d);
  }

  lemma WordOfBytes(w: Word)
    ensures var b := WordBytes(w); BigEndian(b[0], b[1], b[2], b[3]) == w
  {
    RawBytes(w);
  }

  lemma RawSwap(w: Word)
    ensures var x := (((w >> 24) | (w << 8)) & 0x00ff00ff) | (((w >> 8) | (w << 24)) & 0xff00ff00);
      && (x >> 24) as bv8 == (w & 0xff) as bv8 && ((x >> 16) & 0xff) as bv8 == ((w >> 8) & 0xff) as bv8
      && ((x >> 8) & 0xff) as bv8 == ((w >> 16) & 0xff) as bv8 && (x & 0xff) as bv8 == (w >> 24) as bv8
  {
  }

  function LittleBytes(w: Word): (b: seq<Byte>)
    ensures |b| == 4
  {
    var b := WordBytes(w);
    [b[3], b[2], b[1], b[0]]
  }

  type LaneMap = Word -> seq<Byte>

  // The bytes of a word in the order they have in memory.
  function Lanes(little: bool): LaneMap
  {
    if little then LittleBytes else WordBytes
  }

  function FromLanes(little: bool, b: seq<Byte>): Word
    requires |b| == 4
  {
    if little then BigEndian(b[3], b[2], b[1], b[0]) else BigEndian(b[0], b[1], b[2], b[3])
  }

  lemma LanesOfWord(little: bool, b: seq<Byte>)
    requires |b| == 4
    ensures Lanes(little)(FromLanes(little, b)) == b
  {
    if little {
      BytesOfWord(b[3], b[2], b[1], b[0]);
    } else {
      BytesOfWord(b[0], b[1], b[2], b[3]);
    }
  }

  lemma SwappedLanes(w: Word)
    ensures WordBytes(Bswap(w)) == LittleBytes(w)
  {
    RawSwap(w);
  }

  // The words as bytes, each word through `lanes`.
  ghost function Memory(lanes: LaneMap, w: seq<Word>): (m: seq<Byte>)
    ensures |m| == 4 * |w|
  {
    if w == [] then [] else FourOf(lanes(w[0])) + Memory(lanes, w[1..])
  }

  ghost function FourOf(b: seq<Byte>): (r: seq<Byte>)
    ensures |r| == 4 && (|b| == 4 ==> r == b)
  {
    if |b| == 4 then b else [0, 0, 0, 0]
  }

  lemma {:induction false} MemoryAt(lanes: LaneMap, w: seq<Word>, t: nat)
    requires t < |w|
    ensures Memory(lanes, w)[4 * t..4 * t + 4] == FourOf(lanes(w[t]))
    decreases t
  {
    if t > 0 {
      MemoryAt(lanes, w[1..], t - 1);
      assert Memory(lanes, w)[4 * t..4 * t + 4] == Memory(lanes, w[1..])[4 * (t - 1)..4 * (t - 1) + 4];
    }
  }

  // Replacing a word replaces its four bytes.
  lemma {:induction false} MemoryUpdated(lanes: LaneMap, w: seq<Word>, t: nat, x: Word)
    requires t < |w|
    ensures var m := Memory(lanes, w); Memory(lanes, w[t := x]) == m[..4 * t] + FourOf(lanes(x)) + m[4 * t + 4..]
    decreases t
  {
    var m := Memory(lanes, w);
    if t == 0 {
      assert w[0 := x][1..] == w[1..] && m[4..] == Memory(lanes, w[1..]);
    } else {
      MemoryUpdated(lanes, w[1..], t - 1, x);
      assert w[t := x][1..] == w[1..][t - 1 := x];
      assert m == FourOf(lanes(w[0])) + Memory(lanes, w[1..]);
    }
  }

  lemma WordsOfMemory(w: seq<Word>)
    requires |w| == 16
    ensures Words(Memory(WordBytes, w)) == w
  {
    var big := Memory(WordBytes, w);
    forall t | 0 <= t < 16 ensures Words(big)[t] == w[t] {
      MemoryAt(WordBytes, w, t);
      WordOfBytes(w[t]);
      assert big[4 * t..4 * t + 4] == WordBytes(w[t]);
      assert big[4 * t] == WordBytes(w[t])[0] && big[4 * t + 1] == WordBytes(w[t])[1];
      assert big[4 * t + 2] == WordBytes(w[t])[2] && big[4 * t + 3] == WordBytes(w[t])[3];
    }
  }

  // Replacing a byte of a word replaces one byte of the memory.
  lemma ByteUpdated(lanes: LaneMap, w: seq<Word>, p: nat, b: Byte, x: Word)
    requires p < 4 * |w| && |lanes(w[p / 4])| == 4 && lanes(x) == lanes(w[p / 4])[p % 4 := b]
    ensures Memory(lanes, w[p / 4 := x]) == Memory(lanes, w)[p := b]
  {
    var m, t := Memory(lanes, w), p / 4;
    MemoryAt(lanes, w, t);
    MemoryUpdated(lanes, w, t, x);
    UpdatedInside(m, 4 * t, p % 4, b);
  }

  lemma UpdatedInside(m: seq<Byte>, i: nat, j: nat, b: Byte)
    requires i + 4 <= |m| && j < 4
    ensures m[..i] + m[i..i + 4][j := b] + m[i + 4..] == m[i + j := b]
  {
  }
}
