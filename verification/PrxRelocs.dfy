/** psp-prxgen: relocations against undefined symbols are dropped before the layout. */
module PrxRelocs {
  import opened Bits
  import opened ByteArrays

  const MIPS_GPREL16: u32 := 7
  const MIPS_PC16: u32 := 10

  function Entry(rel: Bytes, k: nat): (e: Bytes)
    requires 8 * k + 8 <= |rel|
    ensures |e| == 8
  {
    rel[8 * k..8 * k + 8]
  }

  // The symbol is in the table and defined, and the type is one the loader knows.
  predicate Keeps(e: Bytes, syms: Bytes)
  {
    |e| == 8 &&
    var info := Le32(e, 4);
    var sym := info / 0x100;
    16 * sym + 16 <= |syms| && Le16(syms, 16 * sym + 14) != 0 && info % 0x100 != MIPS_PC16
        && info % 0x100 != MIPS_GPREL16
  }

  // In bytes: the type is the first of the second word, the symbol the other
  // three; the symbol has a whole entry of 16 bytes in the table with a section
  // number in its last two, and the type is neither 7 nor 10.
  lemma KeepsMeans(e: Bytes, syms: Bytes)
    requires |e| == 8
    ensures var sym := e[5] as int + 0x100 * e[6] as int + 0x1_0000 * e[7] as int;
      Keeps(e, syms) <==>
        && sym < |syms| / 16 && (syms[16 * sym + 14] != 0 || syms[16 * sym + 15] != 0)
        && e[4] != 7 && e[4] != 10
  {
    var sym := e[5] as int + 0x100 * e[6] as int + 0x1_0000 * e[7] as int;
    assert Le32(e, 4) == 0x100 * sym + e[4] as int;
  }

  ghost function Rule(syms: Bytes): Bytes -> bool
  {
    e => Keeps(e, syms)
  }

  // The entries that stay.
  ghost function Strong(rel: Bytes, keep: Bytes -> bool): (s: Bytes)
    ensures |s| <= |rel|
  {
    if |rel| < 8 then [] else (if keep(rel[..8]) then rel[..8] else []) + Strong(rel[8..], keep)
  }

  // How many of the first k entries stay.
  ghost function Staying(rel: Bytes, keep: Bytes -> bool, k: nat): (n: nat)
    requires 8 * k <= |rel|
    ensures n <= k
  {
    if k == 0 then 0 else Staying(rel, keep, k - 1) + if keep(Entry(rel, k - 1)) then 1 else 0
  }

  // A section of relocations: its bytes, how many of them count, and whether
  // it is written out.
  class RelocSection {
    const data: array<u8>
    var size: nat
    var output: bool

    constructor (data: array<u8>)
      ensures this.data == data && size == data.Length && output
    {
      this.data, size, output := data, data.Length, true;
    }

    // Nothing is touched when every entry stays; a section left without
    // entries is not written.
    method RemoveWeakRelocs(syms: Bytes)
      requires size <= data.Length
      modifies this`size, this`output, data
      ensures var was, count, keep := old(data[..size]), old(size) / 8, Rule(syms);
        && (Staying(was, keep, count) == count
            ==> data[..] == old(data[..]) && size == old(size) && output == old(output))
        && (Staying(was, keep, count) < count ==>
             && size == 8 * Staying(was, keep, count) < old(size) && data[..size] == Strong(was, keep)
             && data[size..] == old(data[..])[size..] && output == (old(output) && size != 0))
    {
      var n := size;
      var count := n / 8;
      var newRel: Bytes := Remaining(data, n, count, syms, Rule(syms));
      NothingElseStays(data[..n], Rule(syms), count);
      if |newRel| < 8 * count {
        size := |newRel|;
        if size == 0 {
          output := false;
        } else {
          PutBytes(data, 0, newRel);
        }
      }
    }
  }

  method Remaining(data: array<u8>, n: nat, count: nat, syms: Bytes, ghost keep: Bytes -> bool) returns (newRel: Bytes)
    requires 8 * count <= n < 8 * count + 8 && n <= data.Length && keep == Rule(syms)
    ensures newRel == Strong(data[..n], keep)
  {
    ghost var rel := data[..n];
    newRel := [];
    for i := 0 to count
      invariant newRel + Strong(rel[8 * i..], keep) == Strong(rel, keep)
    {
      var stays := Stays(data[8 * i..8 * i + 8], syms, keep);
      SliceOfSlice(data[..], 0, n, 8 * i, 8 * i + 8);
      StrongStep(rel, keep, i, Entry(rel, i));
      Associative(newRel, Entry(rel, i), Strong(rel[8 * (i + 1)..], keep));
      if stays { newRel := newRel + data[8 * i..8 * i + 8]; }
    }
    assert newRel + [] == newRel;
  }

  method Stays(e: Bytes, syms: Bytes, ghost keep: Bytes -> bool) returns (b: bool)
    requires |e| == 8 && keep == Rule(syms)
    ensures b == keep(e)
  {
    var info := Le32(e, 4);
    var symbol := info / 0x100;
    b := false;
    if symbol < |syms| / 16 {
      var t := info % 0x100;
      b := !(Le16(syms, 16 * symbol + 14) == 0 || t == MIPS_PC16 || t == MIPS_GPREL16);
    }
  }

  lemma Associative(a: Bytes, b: Bytes, c: Bytes)
    ensures a + (b + c) == (a + b) + c && a + ([] + c) == a + c
  {
    assert [] + c == c;
  }

  lemma StrongStep(rel: Bytes, keep: Bytes -> bool, i: nat, e: Bytes)
    requires 8 * i + 8 <= |rel| && e == Entry(rel, i)
    ensures Strong(rel[8 * i..], keep) == (if keep(e) then e else []) + Strong(rel[8 * (i + 1)..], keep)
  {
    var t := rel[8 * i..];
    assert t[..8] == e && t[8..] == rel[8 * (i + 1)..];
  }

  lemma EntryBehind(rel: Bytes, k: nat)
    requires 8 * k + 16 <= |rel|
    ensures Entry(rel[8..], k) == Entry(rel, k + 1)
  {
    SliceOfSlice(rel, 8, |rel|, 8 * k, 8 * k + 8);
  }

  lemma {:induction false} StayingBehind(rel: Bytes, keep: Bytes -> bool, k: nat)
    requires 8 * k + 8 <= |rel|
    ensures Staying(rel, keep, k + 1) == Staying(rel[8..], keep, k) + if keep(Entry(rel, 0)) then 1 else 0
  {
    if k > 0 {
      StayingBehind(rel, keep, k - 1);
      EntryBehind(rel, k - 1);
    }
  }

  // Every entry that stays is found whole behind the earlier ones that stay,
  // and there is nothing else.
  lemma {:induction false} EntryStays(rel: Bytes, keep: Bytes -> bool, k: nat)
    requires 8 * k + 8 <= |rel| && keep(Entry(rel, k))
    ensures var at := Staying(rel, keep, k);
      8 * at + 8 <= |Strong(rel, keep)| && Entry(Strong(rel, keep), at) == Entry(rel, k)
    decreases k
  {
    var s := Strong(rel[8..], keep);
    assert Strong(rel, keep) == (if keep(Entry(rel, 0)) then Entry(rel, 0) else []) + s;
    if k > 0 {
      StayingBehind(rel, keep, k - 1);
      EntryBehind(rel, k - 1);
      EntryStays(rel[8..], keep, k - 1);
      EntryInFront(Entry(rel, 0), keep(Entry(rel, 0)), s, Staying(rel[8..], keep, k - 1));
    } else {
      assert Entry(Entry(rel, 0) + s, 0) == Entry(rel, 0);
    }
  }

  lemma EntryInFront(e: Bytes, stays: bool, s: Bytes, k: nat)
    requires |e| == 8 && 8 * k + 8 <= |s|
    ensures var at, t := k + if stays then 1 else 0, (if stays then e else []) + s;
      8 * at + 8 <= |t| && Entry(t, at) == Entry(s, k)
  {
    if stays {
      assert (e + s)[8..] == s;
      EntryBehind(e + s, k);
    } else {
      assert [] + s == s;
    }
  }

  lemma {:induction false} NothingElseStays(rel: Bytes, keep: Bytes -> bool, k: nat)
    requires 8 * k <= |rel| < 8 * k + 8
    ensures |Strong(rel, keep)| == 8 * Staying(rel, keep, k)
    decreases k
  {
    if k > 0 {
      StayingBehind(rel, keep, k - 1);
      assert Entry(rel, 0) == rel[..8];
      NothingElseStays(rel[8..], keep, k - 1);
    }
  }

  // What stays, stays: a second run finds nothing to remove.
  lemma {:induction false} SecondRunKeepsAll(rel: Bytes, keep: Bytes -> bool)
    ensures Strong(Strong(rel, keep), keep) == Strong(rel, keep)
    decreases |rel|
  {
    if |rel| >= 8 {
      SecondRunKeepsAll(rel[8..], keep);
      var s := Strong(rel[8..], keep);
      if keep(rel[..8]) {
        var t := rel[..8] + s;
        assert t[..8] == rel[..8] && t[8..] == s;
      } else {
        assert [] + s == s;
      }
    }
  }
}
