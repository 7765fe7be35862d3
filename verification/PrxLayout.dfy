/** The layout of a stripped module: which section goes where in the file. */
module PrxLayout {
  import opened Bits
  import opened ByteArrays
  import opened Wrappers

  const PROGBITS: u32 := 1
  const STRTAB: u32 := 3
  const REL: u32 := 9
  const PRXRELOC: u32 := 0x7000_00A0

  datatype Section = Section(name: Bytes, sectType: u32, flags: u32, addr: u32, size: u32, addralign: u32, entsize: u32,
                             data: Bytes, ref: Option<nat>, output: bool, index: nat)
  {
    predicate IsReloc() { sectType == REL || sectType == PRXRELOC }
    predicate IsProgbits() { sectType == PROGBITS }

    // The data of a section that has data in the file.
    predicate Sized() { (IsProgbits() || IsReloc()) && output ==> |data| == size }
  }

  // ----- sums over the sections that are kept, the null section left out -----

  function Kept(secs: seq<Section>, n: nat): (k: nat)
    requires n <= |secs|
    ensures k <= n
  {
    if n <= 1 then 0 else Kept(secs, n - 1) + if secs[n - 1].output then 1 else 0
  }

  function NameBytes(secs: seq<Section>, n: nat): nat
    requires n <= |secs|
  {
    if n <= 1 then 0 else NameBytes(secs, n - 1) + if secs[n - 1].output then |secs[n - 1].name| + 1 else 0
  }

  function RelocBytes(secs: seq<Section>, n: nat): nat
    requires n <= |secs|
  {
    if n <= 1 then 0
    else RelocBytes(secs, n - 1) + if secs[n - 1].output && secs[n - 1].IsReloc() then secs[n - 1].size else 0
  }

  // Has its data in the load image, or else only a place in memory.
  predicate Loaded(s: Section, memory: bool)
  {
    s.output && (s.IsProgbits() || (memory && !s.IsReloc()))
  }

  // The highest address of the sections with data, or of all but relocations.
  function Top(secs: seq<Section>, n: nat, all: bool): nat
    requires n <= |secs|
  {
    if n <= 1 then 0
    else
      var t, s := Top(secs, n - 1, all), secs[n - 1];
      if Loaded(s, all) && s.addr + s.size > t then s.addr + s.size else t
  }

  function Align4(x: nat): (r: nat)
    ensures r >= x && r % 4 == 0 && r < x + 4
  {
    (x + 3) / 4 * 4
  }

  // sizeof(".shstrtab") with its NUL.
  const SHSTRTAB: Bytes := [0x2e, 0x73, 0x68, 0x73, 0x74, 0x72, 0x74, 0x61, 0x62]

  datatype Layout = Layout(outSects: nat, allocSize: nat, memSize: nat, relocSize: nat, strSize: nat)
  {
    function PhBase(): nat { 52 }
    function AllocBase(): nat { (PhBase() + 40 + 15) / 16 * 16 }
    function ShBase(): nat { AllocBase() + allocSize }
    function RelocBase(): nat { ShBase() + outSects * 40 }
    function ShStrBase(): nat { RelocBase() + relocSize }
    function Size(): nat { ShStrBase() + strSize }
  }

  function LayoutOf(secs: seq<Section>): Layout
  {
    Layout(Kept(secs, |secs|) + 2, Align4(Top(secs, |secs|, false)), Align4(Top(secs, |secs|, true)),
           RelocBytes(secs, |secs|), Align4(1 + NameBytes(secs, |secs|)) + |SHSTRTAB| + 1)
  }

  lemma {:induction false} TopIsHighest(secs: seq<Section>, n: nat, all: bool)
    requires n <= |secs|
    ensures forall i :: 0 < i < n && Loaded(secs[i], all) ==> secs[i].addr + secs[i].size <= Top(secs, n, all)
    ensures Top(secs, n, all) == 0
            || exists i :: 0 < i < n && Loaded(secs[i], all) && Top(secs, n, all) == secs[i].addr + secs[i].size
  {
    if n > 1 { TopIsHighest(secs, n - 1, all); }
  }

  // The load image holds every kept section with data, the memory asked for
  // every kept section but relocations, and neither is four bytes longer than
  // one of them needs.
  lemma SizesAreTight(secs: seq<Section>, memory: bool)
    ensures var l := LayoutOf(secs); var size := if memory then l.memSize else l.allocSize;
      && l.allocSize <= l.memSize && size % 4 == 0
      && (forall i :: 0 < i < |secs| && Loaded(secs[i], memory) ==> secs[i].addr + secs[i].size <= size)
      && (size == 0 || exists i :: 0 < i < |secs| && Loaded(secs[i], memory) && size < secs[i].addr + secs[i].size + 4)
  {
    TopIsHighest(secs, |secs|, memory);
    TopsInOrder(secs, |secs|);
    AlignInOrder(Top(secs, |secs|, false), Top(secs, |secs|, true));
  }

  lemma {:induction false} TopsInOrder(secs: seq<Section>, n: nat)
    requires n <= |secs|
    ensures Top(secs, n, false) <= Top(secs, n, true)
  {
    if n > 1 { TopsInOrder(secs, n - 1); }
  }

  lemma AlignInOrder(x: nat, y: nat)
    requires x <= y
    ensures Align4(x) <= Align4(y)
  {
  }

  // ----- what stands in the parts -----

  // Where the data of a kept section is.
  function Place(secs: seq<Section>, i: nat): (at: nat)
    requires 0 < i < |secs| && Fits(secs) && secs[i].output
    ensures at < 0x8000_0000
  {
    var s, l := secs[i], LayoutOf(secs);
    PrefixSums(secs, i, |secs|);
    PrefixSums(secs, i + 1, |secs|);
    if s.IsReloc() then l.RelocBase() + RelocBytes(secs, i)
    else if s.IsProgbits() then l.AllocBase() + s.addr
    else l.AllocBase() + l.allocSize
  }

  // The header of a kept section.
  function Header(secs: seq<Section>, i: nat): (h: seq<u32>)
    requires 0 < i < |secs| && Fits(secs) && secs[i].output
    ensures |h| == 10 && h[0] == 1 + NameBytes(secs, i) && h[4] == Place(secs, i) && h[7] == Info(secs, secs[i])
  {
    var s := secs[i];
    PrefixSums(secs, i, |secs|);
    [1 + NameBytes(secs, i), if s.IsReloc() then PRXRELOC else s.sectType, s.flags, s.addr, Place(secs, i), s.size, 0,
     Info(secs, s), s.addralign, s.entsize]
  }

  // The index of the section that is relocated, as a 32-bit word.
  function Info(secs: seq<Section>, s: Section): u32
    requires s.ref.Some? ==> s.ref.value < |secs|
  {
    if s.IsReloc() && s.ref.Some? then secs[s.ref.value].index % WORD else 0
  }

  // The file is smaller than 2 GB, and references lead to sections.
  predicate Fits(secs: seq<Section>)
  {
    && LayoutOf(secs).Size() < 0x8000_0000
    && (forall i :: 0 <= i < |secs| ==> secs[i].Sized() && (secs[i].ref.Some? ==> secs[i].ref.value < |secs|))
  }

  lemma {:induction false} PrefixSums(secs: seq<Section>, i: nat, n: nat)
    requires i <= n <= |secs|
    ensures Kept(secs, i) <= Kept(secs, n) && NameBytes(secs, i) <= NameBytes(secs, n)
    ensures RelocBytes(secs, i) <= RelocBytes(secs, n)
    ensures Top(secs, i, false) <= Top(secs, n, false) && Top(secs, i, true) <= Top(secs, n, true)
    ensures 0 < i < n && secs[i].output ==> Kept(secs, i) < Kept(secs, n)
  {
    if i < n { PrefixSums(secs, i, n - 1); }
  }

  // The headers of the kept sections before n.
  function Headers(secs: seq<Section>, n: nat): (b: Bytes)
    requires n <= |secs| && Fits(secs)
    ensures |b| == 40 * Kept(secs, n)
  {
    if n <= 1 then [] else Headers(secs, n - 1) + if secs[n - 1].output then WordsBytes(Header(secs, n - 1)) else []
  }

  // Relocations keep only the low eight bits of their info word.
  function Masked(rel: Bytes): (b: Bytes)
    ensures |b| == |rel|
  {
    if |rel| < 8 then rel else rel[..4] + [rel[4], 0, 0, 0] + Masked(rel[8..])
  }

  function Relocs(secs: seq<Section>, n: nat): (b: Bytes)
    requires n <= |secs| && Fits(secs)
    ensures |b| == RelocBytes(secs, n)
  {
    if n <= 1 then []
    else
      var s := secs[n - 1];
      assert s.Sized();
      Relocs(secs, n - 1) + if s.output && s.IsReloc() then Masked(s.data) else []
  }

  function Names(secs: seq<Section>, n: nat): (b: Bytes)
    requires n <= |secs|
    ensures |b| == NameBytes(secs, n)
  {
    if n <= 1 then [] else Names(secs, n - 1) + if secs[n - 1].output then secs[n - 1].name + [0] else []
  }

  // memcpy into a value.
  function Over(image: Bytes, at: nat, data: Bytes): (b: Bytes)
    ensures |b| == |image|
  {
    if at + |data| <= |image| then image[..at] + data + image[at + |data|..] else image
  }

  function Image(image: Bytes, secs: seq<Section>, n: nat): (b: Bytes)
    requires n <= |secs|
    ensures |b| == |image|
  {
    if n <= 1 then image
    else
      var s, b := secs[n - 1], Image(image, secs, n - 1);
      if s.output && s.IsProgbits() then Over(b, s.addr, s.data) else b
  }

  // ----- every section finds its own -----

  // The header of a kept section stands in the slot of its index among them.
  lemma HeaderInSlot(secs: seq<Section>, i: nat, n: nat)
    requires 0 < i < n <= |secs| && Fits(secs) && secs[i].output
    ensures Kept(secs, i) < Kept(secs, n)
    ensures Headers(secs, n)[40 * Kept(secs, i)..40 * Kept(secs, i) + 40] == WordsBytes(Header(secs, i))
  {
    PrefixSums(secs, i, n);
    HeaderStays(secs, i, n, 40 * Kept(secs, i), WordsBytes(Header(secs, i)));
  }

  predicate StandsAt(b: Bytes, k: nat, part: Bytes)
  {
    k + |part| <= |b| && b[k..k + |part|] == part
  }

  lemma {:induction false} HeaderStays(secs: seq<Section>, i: nat, n: nat, k: nat, h: Bytes)
    requires 0 < i < n <= |secs| && Fits(secs) && secs[i].output
    requires k == 40 * Kept(secs, i) && h == WordsBytes(Header(secs, i))
    ensures StandsAt(Headers(secs, n), k, h)
  {
    if i < n - 1 {
      HeaderStays(secs, i, n - 1, k, h);
      HeaderKept(secs, n, k, h);
    } else {
      SliceBehind(Headers(secs, i), h);
    }
  }

  lemma HeaderKept(secs: seq<Section>, n: nat, k: nat, h: Bytes)
    requires 1 < n <= |secs| && Fits(secs) && StandsAt(Headers(secs, n - 1), k, h)
    ensures StandsAt(Headers(secs, n), k, h)
  {
    SliceInFront(Headers(secs, n - 1), if secs[n - 1].output then WordsBytes(Header(secs, n - 1)) else [], k, k + |h|);
  }

  lemma SliceInFront(a: Bytes, b: Bytes, i: nat, j: nat)
    requires i <= j <= |a|
    ensures (a + b)[i..j] == a[i..j]
  {
  }

  lemma SliceBehind(a: Bytes, b: Bytes)
    ensures (a + b)[|a|..|a| + |b|] == b
  {
  }

  // The header names the section's own string.
  lemma {:induction false} NameInTable(secs: seq<Section>, i: nat, n: nat)
    requires 0 < i < n <= |secs| && secs[i].output
    ensures var a, s := NameBytes(secs, i), secs[i].name + [0];
      a + |s| <= NameBytes(secs, n) && Names(secs, n)[a..a + |s|] == s
  {
    if i < n - 1 {
      NameInTable(secs, i, n - 1);
    }
  }

  lemma RelocsLast(secs: seq<Section>, i: nat)
    requires 0 < i < |secs| && Fits(secs) && secs[i].output && secs[i].IsReloc() && secs[i].Sized()
    ensures StandsAt(Relocs(secs, i + 1), RelocBytes(secs, i), Masked(secs[i].data))
  {
    SliceBehind(Relocs(secs, i), Masked(secs[i].data));
  }

  lemma RelocsStay(secs: seq<Section>, n: nat, k: nat, r: Bytes)
    requires 1 < n <= |secs| && Fits(secs) && StandsAt(Relocs(secs, n - 1), k, r)
    ensures StandsAt(Relocs(secs, n), k, r)
  {
    var s := secs[n - 1];
    SliceInFront(Relocs(secs, n - 1), if s.output && s.IsReloc() then Masked(s.data) else [], k, k + |r|);
  }

  lemma {:induction false} RelocsStand(secs: seq<Section>, i: nat, n: nat, k: nat, r: Bytes)
    requires 0 < i < n <= |secs| && Fits(secs) && secs[i].output && secs[i].IsReloc()
    requires k == RelocBytes(secs, i) && r == Masked(secs[i].data)
    ensures StandsAt(Relocs(secs, n), k, r)
  {
    if i < n - 1 {
      RelocsStand(secs, i, n - 1, k, r);
      RelocsStay(secs, n, k, r);
    } else {
      RelocsLast(secs, i);
    }
  }

  // The relocation sections lie end to end.
  lemma RelocsInPlace(secs: seq<Section>, i: nat, n: nat)
    requires 0 < i < n <= |secs| && Fits(secs) && secs[i].output && secs[i].IsReloc()
    ensures var a := RelocBytes(secs, i);
      a + secs[i].size <= RelocBytes(secs, n) && |secs[i].data| == secs[i].size
      && Relocs(secs, n)[a..a + secs[i].size] == Masked(secs[i].data)
  {
    assert secs[i].Sized();
    RelocsStand(secs, i, n, RelocBytes(secs, i), Masked(secs[i].data));
  }

  predicate Apart(s: Section, t: Section)
  {
    s.output && s.IsProgbits() && t.output && t.IsProgbits() ==> s.addr + s.size <= t.addr || t.addr + t.size <= s.addr
  }

  // Among the sections before n, this one overlaps no other.
  predicate Alone(secs: seq<Section>, i: nat, n: nat)
    requires i < n <= |secs|
  {
    forall k :: 0 < k < n && k != i ==> Apart(secs[i], secs[k])
  }

  // The data of a section stands at its address.
  predicate Carries(image: Bytes, s: Section)
  {
    s.addr + s.size <= |image| && |s.data| == s.size && image[s.addr..s.addr + s.size] == s.data
  }

  // Data that overlaps no other is copied whole.
  lemma {:induction false} DataInImage(image: Bytes, secs: seq<Section>, i: nat, n: nat)
    requires 0 < i < n <= |secs| && Fits(secs) && secs[i].output && secs[i].IsProgbits()
    requires |image| == LayoutOf(secs).allocSize
    requires Alone(secs, i, n)
    ensures Carries(Image(image, secs, n), secs[i])
  {
    assert secs[i].Sized();
    PrefixSums(secs, i + 1, |secs|);
    var before, s, last := Image(image, secs, n - 1), secs[i], secs[n - 1];
    if i < n - 1 {
      DataInImage(image, secs, i, n - 1);
      assert Apart(s, last) && last.Sized();
      if last.output && last.IsProgbits() { OverElsewhere(before, last.addr, last.data, s.addr, s.addr + s.size); }
    } else {
      OverAt(before, s.addr, s.data);
    }
  }

  lemma OverAt(image: Bytes, at: nat, data: Bytes)
    requires at + |data| <= |image|
    ensures Over(image, at, data)[at..at + |data|] == data
  {
  }

  lemma OverElsewhere(image: Bytes, at: nat, data: Bytes, i: nat, j: nat)
    requires i <= j <= |image| && (j <= at || at + |data| <= i)
    ensures Over(image, at, data)[i..j] == image[i..j]
  {
  }
}
