/** The padding of sha1_end, done on words with masks. */
module Sha1Padding {
  import opened Fips180
  import opened Sha1Memory

  // A word masked by 0xffffff80 << 8 * (~i & 3) and then joined with
  // 0x00000080 << 8 * (~i & 3), for the four values of i & 3.
  function KeepNone(w: Word): Word { (w & 0x80000000) | 0x80000000 }
  function KeepOne(w: Word): Word { (w & 0xff800000) | 0x00800000 }
  function KeepTwo(w: Word): Word { (w & 0xffff8000) | 0x00008000 }
  function KeepThree(w: Word): Word { (w & 0xffffff80) | 0x00000080 }

  function PadWord(j: nat): Word -> Word
  {
    if j == 0 then KeepNone else if j == 1 then KeepOne else if j == 2 then KeepTwo else KeepThree
  }

  lemma RawPad0(w: Word)
    ensures var x := (w & 0x80000000) | 0x80000000;
      (x >> 24) as bv8 == 0x80 && ((x >> 16) & 0xff) as bv8 == 0 && ((x >> 8) & 0xff) as bv8 == 0
          && (x & 0xff) as bv8 == 0
  {
  }

  lemma RawPad1(w: Word)
    ensures var x := (w & 0xff800000) | 0x00800000;
      && (x >> 24) as bv8 == (w >> 24) as bv8 && ((x >> 16) & 0xff) as bv8 == 0x80
      && ((x >> 8) & 0xff) as bv8 == 0 && (x & 0xff) as bv8 == 0
  {
  }

  lemma RawPad2(w: Word)
    ensures var x := (w & 0xffff8000) | 0x00008000;
      && (x >> 24) as bv8 == (w >> 24) as bv8 && ((x >> 16) & 0xff) as bv8 == ((w >> 16) & 0xff) as bv8
      && ((x >> 8) & 0xff) as bv8 == 0x80 && (x & 0xff) as bv8 == 0
  {
  }

  lemma RawPad3(w: Word)
    ensures var x := (w & 0xffffff80) | 0x00000080;
      && (x >> 24) as bv8 == (w >> 24) as bv8 && ((x >> 16) & 0xff) as bv8 == ((w >> 16) & 0xff) as bv8
      && ((x >> 8) & 0xff) as bv8 == ((w >> 8) & 0xff) as bv8 && (x & 0xff) as bv8 == 0x80
  {
  }

  ghost predicate PadsTo(padded: seq<Byte>, bytes: seq<Byte>, j: nat)
  {
    j < 4 == |bytes| && padded == bytes[..j] + [0x80] + Zeros(3 - j)
  }

  lemma PadShapes(b: seq<Byte>)
    requires |b| == 4
    ensures PadsTo([0x80, 0, 0, 0], b, 0) && PadsTo([b[0], 0x80, 0, 0], b, 1)
    ensures PadsTo([b[0], b[1], 0x80, 0], b, 2) && PadsTo([b[0], b[1], b[2], 0x80], b, 3)
  {
  }

  lemma Pad0(w: Word)
    ensures WordBytes(KeepNone(w)) == [0x80, 0, 0, 0]
  {
    RawPad0(w);
  }

  lemma Pad1(w: Word)
    ensures WordBytes(KeepOne(w)) == [WordBytes(w)[0], 0x80, 0, 0]
  {
    RawPad1(w);
  }

  lemma Pad2(w: Word)
    ensures WordBytes(KeepTwo(w)) == [WordBytes(w)[0], WordBytes(w)[1], 0x80, 0]
  {
    RawPad2(w);
  }

  lemma Pad3(w: Word)
    ensures WordBytes(KeepThree(w)) == [WordBytes(w)[0], WordBytes(w)[1], WordBytes(w)[2], 0x80]
  {
    RawPad3(w);
  }

  // The mask keeps the first j bytes of the word; a one bit and zeros follow.
  lemma PaddedWord(w: Word, j: nat)
    requires j < 4
    ensures PadsTo(WordBytes(PadWord(j)(w)), WordBytes(w), j)
  {
    PadShapes(WordBytes(w));
    if j == 0 {
      Pad0(w);
    } else if j == 1 {
      Pad1(w);
    } else if j == 2 {
      Pad2(w);
    } else {
      Pad3(w);
    }
  }

  lemma ZeroWordBytes()
    ensures WordBytes(0) == Zeros(4)
  {
  }

  // The words a message ends with: the tail, a one bit and zeros in the word
  // that holds it.
  method PadTail(wbuf: array<Word>, i: nat, ghost tail: seq<Byte>)
    requires wbuf.Length == 16 && i == |tail| < 64 && Memory(WordBytes, wbuf[..])[..i] == tail
    modifies wbuf
    ensures Memory(WordBytes, wbuf[..])[..i - i % 4 + 4] == tail + [0x80] + Zeros(3 - i % 4)
  {
    ghost var w, t := wbuf[..], i / 4;
    var x := PadWord(i % 4)(wbuf[i / 4]);
    PaddedWord(w[t], i % 4);
    MemoryUpdated(WordBytes, w, t, x);
    MemoryAt(WordBytes, w, t);
    TailPadded(Memory(WordBytes, w), tail, WordBytes(w[t]), WordBytes(x), 4 * t, i % 4);
    wbuf[i / 4] := x;
    assert wbuf[..] == w[t := x];
  }

  lemma TailPadded(m: seq<Byte>, tail: seq<Byte>, before: seq<Byte>, padded: seq<Byte>, t: nat, j: nat)
    requires t + 4 <= |m| && j < 4 && m[..t + j] == tail
    requires before == m[t..t + 4] && PadsTo(padded, before, j)
    ensures m[..t] + padded == tail + [0x80] + Zeros(3 - j)
  {
    assert tail == m[..t] + before[..j];
  }

  method ZeroWords(wbuf: array<Word>, from: nat, to: nat)
    requires wbuf.Length == 16 && from <= to <= 16
    modifies wbuf
    ensures Memory(WordBytes, wbuf[..])[..4 * to]
      == old(Memory(WordBytes, wbuf[..]))[..4 * from] + Zeros(4 * (to - from))
  {
    ghost var m := Memory(WordBytes, wbuf[..]);
    var i := from;
    while i < to
      invariant from <= i <= to
      invariant Memory(WordBytes, wbuf[..])[..4 * i] == m[..4 * from] + Zeros(4 * (i - from))
    {
      ghost var w := wbuf[..];
      MemoryUpdated(WordBytes, w, i, 0);
      ZeroWordBytes();
      wbuf[i] := 0;
      assert wbuf[..] == w[i := 0];
      i := i + 1;
    }
  }
}
