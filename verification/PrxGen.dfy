/** psp-prxgen: the stripped module is laid out and written into one buffer. */
module PrxGen {
  import opened Bits
  import opened ByteArrays
  import opened PrxLayout
  import opened Wrappers

  datatype ElfHeader = ElfHeader(magic: u32, class_: u8, data: u8, idver: u8, machine: u16, version: u32, entry: u32,
                                 flags: u32)

  function HeaderBytes(h: ElfHeader, l: Layout): (b: Bytes)
    requires l.Size() < 0x8000_0000 && l.outSects < 0x1_0000
    ensures |b| == 52
  {
    Word(h.magic) + [h.class_, h.data, h.idver] + Zeros(9) + Half(0xFFA0) + Half(h.machine) + Word(h.version)
        + Word(h.entry)
    + Word(l.PhBase()) + Word(l.ShBase()) + Word(h.flags) + Half(52) + Half(32) + Half(1) + Half(40)
    + Half(l.outSects) + Half(if l.outSects > 0 then l.outSects - 1 else 0xFFFF)
  }

  function Zeros(n: nat): (z: Bytes)
    ensures |z| == n
  {
    seq(n, _ => 0)
  }

  // 0x80000000 | x
  function WithTopBit(x: u32): u32 { if x < 0x8000_0000 then x + 0x8000_0000 else x }

  // A kernel module has its physical address in the upper half.
  function ProgramHeader(l: Layout, modinfoAddr: u32, modFlags: u32): (h: seq<u32>)
    requires l.Size() < 0x8000_0000 && l.memSize < WORD
    ensures |h| == 8
  {
    var paddr := (modinfoAddr + l.AllocBase()) % WORD;
    [1, l.AllocBase(), 0, if modFlags / 0x1000 % 2 == 1 then WithTopBit(paddr) else paddr,
     l.allocSize, l.memSize, 5, 0x10]
  }

  // The last header, of the names themselves.
  function NamesHeader(secs: seq<Section>): (h: seq<u32>)
    requires Fits(secs)
    ensures |h| == 10
  {
    var l := LayoutOf(secs);
    [1 + NameBytes(secs, |secs|), STRTAB, 0, 0, l.ShStrBase(), l.strSize, 0, 0, 1, 0]
  }

  function NamesPart(secs: seq<Section>): (b: Bytes)
    ensures |b| == LayoutOf(secs).strSize
  {
    var used := 1 + NameBytes(secs, |secs|);
    [0] + Names(secs, |secs|) + SHSTRTAB + Zeros(Align4(used) - used + 1)
  }

  // The whole file.
  function PrxFile(h: ElfHeader, secs: seq<Section>, modinfoAddr: u32, modFlags: u32): (b: Bytes)
    requires Fits(secs) && LayoutOf(secs).memSize < WORD && LayoutOf(secs).outSects < 0x1_0000
    ensures |b| == LayoutOf(secs).Size()
  {
    var l := LayoutOf(secs);
    Front(h, l, modinfoAddr, modFlags) + Image(Zeros(l.allocSize), secs, |secs|)
    + (Zeros(40) + Headers(secs, |secs|) + WordsBytes(NamesHeader(secs))) + Relocs(secs, |secs|) + NamesPart(secs)
  }

  // A part of the buffer replaced.
  ghost predicate Filled(buf: Bytes, buf': Bytes, i: nat, part: Bytes)
  {
    i + |part| <= |buf| == |buf'| && buf' == buf[..i] + part + buf[i + |part|..]
  }

  // The null section brings nothing into the image or the relocations.
  predicate NoData(s: Section) { !(s.output && (s.IsProgbits() || s.IsReloc())) }

  class Generator {
    var sections: seq<Section>
    var layout: Layout

    constructor (sections: seq<Section>)
      ensures this.sections == sections
    {
      this.sections := sections;
      layout := Layout(2, 0, 0, 0, 1);
    }

    // reindex_sections starts at the null section.
    method ReindexSections()
      modifies this`sections
      ensures |sections| == |old(sections)|
      ensures forall i :: 0 <= i < |sections| ==> sections[i] == Reindexed(old(sections), i)
    {
      var sect := 1;
      for i := 0 to |sections|
        invariant |sections| == |old(sections)| && sect == IndexFrom(old(sections), i)
        invariant forall k :: i <= k < |sections| ==> sections[k] == old(sections)[k]
        invariant forall k :: 0 <= k < i ==> sections[k] == Reindexed(old(sections), k)
      {
        if sections[i].output {
          sections := sections[i := sections[i].(index := sect)];
          sect := sect + 1;
        }
      }
    }

    method CalculateOutsize() returns (size: nat)
      modifies this`layout
      ensures layout == LayoutOf(sections) && size == layout.Size()
    {
      var outSects, allocSize, relocSize, memSize, strSize := 2, 0, 0, 0, 1;
      var i := 1;
      while i < |sections|
        invariant 1 <= i && (|sections| >= 1 ==> i <= |sections|) && (|sections| == 0 ==> i == 1)
        invariant var n := if i <= |sections| then i else 0;
          && outSects == 2 + Kept(sections, n) && relocSize == RelocBytes(sections, n)
          && strSize == 1 + NameBytes(sections, n)
          && allocSize == Top(sections, n, false) && memSize == Top(sections, n, true)
      {
        var s := sections[i];
        if s.output {
          if s.IsProgbits() {
            var topAddr := s.addr + s.size;
            if topAddr > allocSize { allocSize := topAddr; }
            if topAddr > memSize { memSize := topAddr; }
          } else if s.IsReloc() {
            relocSize := relocSize + s.size;
          } else {
            var topAddr := s.addr + s.size;
            if topAddr > memSize { memSize := topAddr; }
          }
          strSize := strSize + (|s.name| + 1);
          outSects := outSects + 1;
        }
        i := i + 1;
      }
      layout := Layout(outSects, Align4(allocSize), Align4(memSize), relocSize, Align4(strSize) + |SHSTRTAB| + 1);
      size := layout.Size();
    }

    method OutputHeader(data: array<u8>, h: ElfHeader)
      requires layout.Size() < 0x8000_0000 && 0 < layout.outSects < 0x1_0000 && data.Length >= 52
      modifies data
      ensures Filled(old(data[..]), data[..], 0, HeaderBytes(h, layout))
    {
      PutBytes(data, 0, HeaderBytes(h, layout));
    }

    method OutputPh(data: array<u8>, modinfoAddr: u32, modFlags: u32)
      requires layout.Size() < 0x8000_0000 && layout.memSize < WORD && data.Length >= 84
      modifies data
      ensures Filled(old(data[..]), data[..], layout.PhBase(), WordsBytes(ProgramHeader(layout, modinfoAddr, modFlags)))
    {
      PutBytes(data, layout.PhBase(), WordsBytes(ProgramHeader(layout, modinfoAddr, modFlags)));
    }

    // The load image, section by section over what is there.
    method OutputAlloc(data: array<u8>, base: nat, ghost image: Bytes)
      requires sections != [] && NoData(sections[0]) && Fits(sections) && |image| == LayoutOf(sections).allocSize
      requires base + |image| <= data.Length && data[base..base + |image|] == image
      modifies data
      ensures Filled(old(data[..]), data[..], base, Image(image, sections, |sections|))
    {
      ghost var before, part := data[..], image;
      FillNothing(before, base, image);
      for i := 0 to |sections|
        invariant part == Image(image, sections, i) && Filled(before, data[..], base, part)
      {
        part := NextAlloc(data, base, i, before, image, part);
      }
    }

    method NextAlloc(data: array<u8>, base: nat, i: nat, ghost before: Bytes, ghost image: Bytes, ghost part: Bytes)
      returns (ghost next: Bytes)
      requires i < |sections| && NoData(sections[0]) && Fits(sections) && |image| == LayoutOf(sections).allocSize
      requires part == Image(image, sections, i) && Filled(before, data[..], base, part)
      modifies data
      ensures next == Image(image, sections, i + 1) && Filled(before, data[..], base, next)
    {
      var s := sections[i];
      next := part;
      if s.output && s.IsProgbits() {
        RoomInImage(sections, i);
        FillOver(before, data[..], base, part, s.addr, s.data);
        PutBytes(data, base + s.addr, s.data);
        next := Over(part, s.addr, s.data);
      }
    }

    // The section headers behind an empty one, and the header of the names.
    method OutputSh(data: array<u8>)
      requires sections != [] && Fits(sections) && layout == LayoutOf(sections) && layout.Size() <= data.Length
      modifies data
      ensures Filled(old(data[..]), data[..], layout.ShBase(),
                     Zeros(40) + Headers(sections, |sections|) + WordsBytes(NamesHeader(sections)))
    {
      ghost var before, n := data[..], 40 * layout.outSects;
      PutBytes(data, layout.ShBase(), Zeros(layout.outSects * 40));
      var shdr, strOfs := PutHeaders(data, before, n);
      PutNamesHeader(data, shdr, strOfs, before, n);
    }

    method PutHeaders(data: array<u8>, ghost before: Bytes, ghost n: nat) returns (shdr: nat, strOfs: nat)
      requires sections != [] && Fits(sections) && layout == LayoutOf(sections) && n == 40 * layout.outSects
      requires Filled(before, data[..], layout.ShBase(), Zeros(n))
      modifies data
      ensures shdr == layout.ShBase() + 40 + 40 * Kept(sections, |sections|)
        && strOfs == 1 + NameBytes(sections, |sections|)
      ensures Filled(before, data[..], layout.ShBase(), Slots(sections, |sections|, n))
    {
      var relocOfs: nat;
      shdr, relocOfs, strOfs := layout.ShBase() + 40, layout.RelocBase(), 1;
      ghost var slots := Zeros(n);
      HeadersBegin(sections, n);
      PrefixSums(sections, 1, |sections|);
      var i := 1;
      while i < |sections|
        invariant 1 <= i <= |sections| && Cursor(sections, layout, i, shdr, relocOfs, strOfs)
        invariant slots == Slots(sections, i, n) && Filled(before, data[..], layout.ShBase(), slots)
      {
        shdr, relocOfs, strOfs, slots := NextHeader(data, i, shdr, relocOfs, strOfs, before, n, slots);
        i := i + 1;
      }
    }

    // One turn of the loop.
    method NextHeader(data: array<u8>, i: nat, shdr: nat, relocOfs: nat, strOfs: nat, ghost before: Bytes, ghost n: nat,
                      ghost slots: Bytes) returns (shdr': nat, relocOfs': nat, strOfs': nat, ghost slots': Bytes)
      requires 0 < i < |sections| && Fits(sections) && layout == LayoutOf(sections) && n == 40 * layout.outSects
      requires Cursor(sections, layout, i, shdr, relocOfs, strOfs)
      requires slots == Slots(sections, i, n) && Filled(before, data[..], layout.ShBase(), slots)
      modifies data
      ensures Cursor(sections, layout, i + 1, shdr', relocOfs', strOfs')
      ensures slots' == Slots(sections, i + 1, n) && Filled(before, data[..], layout.ShBase(), slots')
    {
      PrefixSums(sections, i + 1, |sections|);
      shdr', relocOfs', strOfs' := shdr, relocOfs, strOfs;
      if sections[i].output {
        PutSectionHeader(data, i, shdr, relocOfs, strOfs, before, n);
        strOfs' := strOfs + |sections[i].name| + 1;
        if sections[i].IsReloc() { relocOfs' := relocOfs + sections[i].size; }
        shdr' := shdr + 40;
      } else {
        SlotSkipped(sections, i, n);
      }
      slots' := Slots(sections, i + 1, n);
    }

    method SectionHeader(i: nat, relocOfs: nat, strOfs: nat) returns (h: seq<u32>)
      requires 0 < i < |sections| && Fits(sections) && layout == LayoutOf(sections) && sections[i].output
      requires relocOfs == layout.RelocBase() + RelocBytes(sections, i) && strOfs == 1 + NameBytes(sections, i)
      ensures h == Header(sections, i)
    {
      var s := sections[i];
      PrefixSums(sections, i, |sections|);
      var reloc := s.IsReloc();
      var place := if reloc then relocOfs else if s.IsProgbits() then layout.AllocBase() + s.addr
                   else layout.AllocBase() + layout.allocSize;
      assert place == Place(sections, i);
      h := [strOfs, if reloc then PRXRELOC else s.sectType, s.flags, s.addr, place, s.size, 0,
            if reloc && s.ref.Some? then sections[s.ref.value].index % WORD else 0, s.addralign, s.entsize];
      assert h[7] == Info(sections, s);
    }

    method PutSectionHeader(data: array<u8>, i: nat, shdr: nat, relocOfs: nat, strOfs: nat, ghost before: Bytes,
                            ghost n: nat)
      requires 0 < i < |sections| && Fits(sections) && layout == LayoutOf(sections) && sections[i].output
      requires n == 40 * layout.outSects && Kept(sections, i + 1) <= Kept(sections, |sections|)
      requires shdr == layout.ShBase() + 40 + 40 * Kept(sections, i)
      requires relocOfs == layout.RelocBase() + RelocBytes(sections, i) && strOfs == 1 + NameBytes(sections, i)
      requires Filled(before, data[..], layout.ShBase(), Slots(sections, i, n))
      modifies data
      ensures Filled(before, data[..], layout.ShBase(), Slots(sections, i + 1, n))
    {
      var h := SectionHeader(i, relocOfs, strOfs);
      var bytes := WordsBytes(h);
      HeaderGoesIn(before, data[..], layout.ShBase(), sections, i, n, shdr, bytes);
      PutBytes(data, shdr, bytes);
    }

    method PutNamesHeader(data: array<u8>, shdr: nat, strOfs: nat, ghost before: Bytes, ghost n: nat)
      requires Fits(sections) && layout == LayoutOf(sections) && n == 40 * layout.outSects
      requires shdr == layout.ShBase() + 40 + 40 * Kept(sections, |sections|)
        && strOfs == 1 + NameBytes(sections, |sections|)
      requires Filled(before, data[..], layout.ShBase(), Slots(sections, |sections|, n))
      modifies data
      ensures Filled(before, data[..], layout.ShBase(),
                     Zeros(40) + Headers(sections, |sections|) + WordsBytes(NamesHeader(sections)))
    {
      NamesHeaderGoesIn(before, data[..], layout.ShBase(), sections, n);
      var h: seq<u32> := [strOfs, STRTAB, 0, 0, layout.ShStrBase(), layout.strSize, 0, 0, 1, 0];
      assert h == NamesHeader(sections);
      PutBytes(data, shdr, WordsBytes(h));
    }

    // The relocations end to end, each with only its type left.
    method OutputRelocs(data: array<u8>, base: nat)
      requires sections != [] && NoData(sections[0]) && Fits(sections)
      requires base + RelocBytes(sections, |sections|) <= data.Length
      modifies data
      ensures Filled(old(data[..]), data[..], base, Relocs(sections, |sections|))
    {
      ghost var before := data[..];
      var reloc := base;
      assert data[..] == before[..base] + [] + before[base..];
      for i := 0 to |sections|
        invariant reloc == base + RelocBytes(sections, i)
        invariant Filled(before, data[..], base, Relocs(sections, i))
      {
        reloc := NextRelocs(data, base, reloc, i, before);
      }
    }

    method NextRelocs(data: array<u8>, ghost base: nat, reloc: nat, i: nat, ghost before: Bytes) returns (reloc': nat)
      requires i < |sections| && NoData(sections[0]) && Fits(sections)
      requires base + RelocBytes(sections, |sections|) <= data.Length && reloc == base + RelocBytes(sections, i)
      requires Filled(before, data[..], base, Relocs(sections, i))
      modifies data
      ensures reloc' == base + RelocBytes(sections, i + 1) && Filled(before, data[..], base, Relocs(sections, i + 1))
    {
      PrefixSums(sections, i + 1, |sections|);
      var s := sections[i];
      RelocsGrow(sections, i, s);
      if s.output && s.IsReloc() {
        ghost var was, part, more := data[..], Relocs(sections, i), Masked(s.data);
        PutRelocs(data, reloc, s.data);
        FillMore(before, was, data[..], base, part, more);
        return reloc + s.size;
      }
      return reloc;
    }

    // The names, each with its NUL, behind an empty one.
    method OutputShstrtab(data: array<u8>, base: nat)
      requires sections != [] && Fits(sections) && layout == LayoutOf(sections) && base + layout.strSize <= data.Length
      modifies data
      ensures Filled(old(data[..]), data[..], base, NamesPart(sections))
    {
      ghost var before, n := data[..], layout.strSize;
      PutBytes(data, base, Zeros(layout.strSize));
      var p := PutNames(data, base, before, n);
      p := PutName(data, p, SHSTRTAB + [0], before, base, Names(sections, |sections|), n);
      LastName(Names(sections, |sections|), n, Align4(1 + NameBytes(sections, |sections|)));
    }

    method PutNames(data: array<u8>, base: nat, ghost before: Bytes, ghost n: nat) returns (p: nat)
      requires sections != [] && 1 + NameBytes(sections, |sections|) <= n && Filled(before, data[..], base, Zeros(n))
      modifies data
      ensures p == base + 1 + NameBytes(sections, |sections|)
      ensures Filled(before, data[..], base, NamesUpTo(Names(sections, |sections|), n))
    {
      p := base + 1;
      NamesBegin(n);
      var i := 1;
      while i < |sections|
        invariant 1 <= i <= |sections| && p == base + 1 + NameBytes(sections, i) && 1 + NameBytes(sections, i) <= n
        invariant Filled(before, data[..], base, NamesUpTo(Names(sections, i), n))
      {
        p := NextName(data, p, i, before, base, n);
        i := i + 1;
      }
    }

    method NextName(data: array<u8>, p: nat, i: nat, ghost before: Bytes, ghost base: nat, ghost n: nat)
        returns (p': nat)
      requires 0 < i < |sections| && 1 + NameBytes(sections, |sections|) <= n && p == base + 1 + NameBytes(sections, i)
      requires 1 + NameBytes(sections, i) <= n && Filled(before, data[..], base, NamesUpTo(Names(sections, i), n))
      modifies data
      ensures p' == base + 1 + NameBytes(sections, i + 1) && 1 + NameBytes(sections, i + 1) <= n
      ensures Filled(before, data[..], base, NamesUpTo(Names(sections, i + 1), n))
    {
      PrefixSums(sections, i + 1, |sections|);
      p' := p;
      if sections[i].output {
        p' := PutName(data, p, sections[i].name + [0], before, base, Names(sections, i), n);
      }
    }

    method OutputFront(data: array<u8>, h: ElfHeader, modinfoAddr: u32, modFlags: u32)
      requires layout.Size() < 0x8000_0000 && 0 < layout.outSects < 0x1_0000 && layout.memSize < WORD
      requires data.Length == layout.Size() && data[..] == Zeros(layout.Size())
      modifies data
      ensures data[..] == Front(h, layout, modinfoAddr, modFlags) + Zeros(layout.Size() - 96)
    {
      ghost var e, p := HeaderBytes(h, layout), WordsBytes(ProgramHeader(layout, modinfoAddr, modFlags));
      ghost var f0 := data[..];
      OutputHeader(data, h);
      ghost var f1 := data[..];
      OutputPh(data, modinfoAddr, modFlags);
      FrontDone(f0, f1, data[..], e, p, layout.Size());
    }

    method OutputTables(data: array<u8>, ghost x: Bytes, ghost k: nat)
      requires sections != [] && NoData(sections[0]) && Fits(sections) && layout == LayoutOf(sections)
      requires data.Length == layout.Size() && data[..] == x + Zeros(k) && |x| == layout.ShBase()
      modifies data
      ensures data[..] == x + (Zeros(40) + Headers(sections, |sections|) + WordsBytes(NamesHeader(sections)))
                          + Relocs(sections, |sections|) + NamesPart(sections)
    {
      ghost var s, r, t := Zeros(40) + Headers(sections, |sections|) + WordsBytes(NamesHeader(sections)),
                           Relocs(sections, |sections|), NamesPart(sections);
      ghost var f0 := data[..];
      OutputSh(data);
      ghost var f1 := data[..];
      NextPart(f0, f1, x, s, k);
      OutputRelocs(data, layout.RelocBase());
      ghost var f2 := data[..];
      NextPart(f1, f2, x + s, r, k - |s|);
      OutputShstrtab(data, layout.ShStrBase());
      NextPart(f2, data[..], x + s + r, t, k - |s| - |r|);
      NothingLeft(x + s + r + t);
    }

    // The whole file, part by part into a zeroed buffer.
    method OutputPrx(h: ElfHeader, modinfoAddr: u32, modFlags: u32) returns (data: array<u8>)
      requires sections != [] && NoData(sections[0]) && Fits(sections)
      requires LayoutOf(sections).memSize < WORD && LayoutOf(sections).outSects < 0x1_0000
      modifies this`layout
      ensures fresh(data) && data[..] == PrxFile(h, sections, modinfoAddr, modFlags) && layout == LayoutOf(sections)
    {
      var size := CalculateOutsize();
      data := new u8[size](_ => 0);
      assert data[..] == Zeros(size);
      OutputFront(data, h, modinfoAddr, modFlags);
      OutputRest(data, Front(h, layout, modinfoAddr, modFlags));
    }

    // Renumber and write: in the file the kept sections are found by their new
    // numbers, for whatever sections fit.
    method ReindexAndOutput(h: ElfHeader, modinfoAddr: u32, modFlags: u32) returns (data: array<u8>)
      requires sections != [] && !sections[0].output && Fits(sections)
      requires LayoutOf(sections).memSize < WORD && LayoutOf(sections).outSects < 0x1_0000
      modifies this
      ensures SameButIndex(old(sections), sections) && Indexed(sections)
      ensures layout == LayoutOf(sections) == LayoutOf(old(sections))
      ensures fresh(data) && data[..] == PrxFile(h, sections, modinfoAddr, modFlags)
      ensures AllInSlots(data[..], sections)
    {
      ReindexSections();
      ReindexedIsIndexed(old(sections), sections);
      SameLayout(old(sections), sections);
      data := OutputPrx(h, modinfoAddr, modFlags);
      SectionsInFile(h, sections, modinfoAddr, modFlags, data[..]);
    }

    // What follows the two headers.
    method OutputRest(data: array<u8>, ghost front: Bytes)
      requires sections != [] && NoData(sections[0]) && Fits(sections) && layout == LayoutOf(sections)
      requires data.Length == layout.Size() && |front| == 96 && data[..] == front + Zeros(layout.Size() - 96)
      modifies data
      ensures data[..] == front + Image(Zeros(layout.allocSize), sections, |sections|)
                          + (Zeros(40) + Headers(sections, |sections|) + WordsBytes(NamesHeader(sections)))
                          + Relocs(sections, |sections|) + NamesPart(sections)
    {
      ghost var image, k := Image(Zeros(layout.allocSize), sections, |sections|), layout.Size() - 96;
      OutputImage(data, front, k, image);
      ghost var x := front + image;
      assert |x| == layout.ShBase();
      OutputTables(data, x, k - layout.allocSize);
    }

    method OutputImage(data: array<u8>, ghost front: Bytes, ghost k: nat, ghost image: Bytes)
      requires sections != [] && NoData(sections[0]) && Fits(sections) && layout == LayoutOf(sections)
      requires data[..] == front + Zeros(k) && |front| == 96 && layout.allocSize <= k
      requires image == Image(Zeros(layout.allocSize), sections, |sections|)
      modifies data
      ensures data[..] == front + image + Zeros(k - layout.allocSize)
    {
      ghost var f0 := data[..];
      ZerosBehind(f0, front, k, layout.allocSize);
      OutputAlloc(data, layout.AllocBase(), Zeros(layout.allocSize));
      NextPart(f0, data[..], front, image, k);
    }
  }

  // The headers and the gap in front of the image.
  function Front(h: ElfHeader, l: Layout, modinfoAddr: u32, modFlags: u32): (b: Bytes)
    requires l.Size() < 0x8000_0000 && l.outSects < 0x1_0000 && l.memSize < WORD
    ensures |b| == 96
  {
    HeaderBytes(h, l) + WordsBytes(ProgramHeader(l, modinfoAddr, modFlags)) + Zeros(12)
  }

  // One more part behind those written, the rest still zero.
  lemma NextPart(buf: Bytes, buf': Bytes, x: Bytes, part: Bytes, k: nat)
    requires buf == x + Zeros(k) && |part| <= k && Filled(buf, buf', |x|, part)
    ensures buf' == x + part + Zeros(k - |part|)
  {
    assert buf[..|x|] == x && buf[|x| + |part|..] == Zeros(k - |part|);
  }

  lemma FrontDone(f0: Bytes, f1: Bytes, f2: Bytes, e: Bytes, p: Bytes, n: nat)
    requires f0 == Zeros(n) && n >= 96 && |e| == 52 && |p| == 32 && Filled(f0, f1, 0, e) && Filled(f1, f2, 52, p)
    ensures f2 == e + p + Zeros(12) + Zeros(n - 96)
  {
    assert f0 == [] + Zeros(n);
    NextPart(f0, f1, [], e, n);
    NextPart(f1, f2, e, p, n - 52);
    GapOfZeros(e + p, n - 84);
  }

  lemma GapOfZeros(x: Bytes, k: nat)
    requires k >= 12
    ensures x + Zeros(k) == x + Zeros(12) + Zeros(k - 12)
  {
  }

  lemma ZerosBehind(buf: Bytes, x: Bytes, k: nat, n: nat)
    requires buf == x + Zeros(k) && n <= k
    ensures buf[|x|..|x| + n] == Zeros(n)
  {
  }

  // strcpy, and where the next name goes.
  method PutName(data: array<u8>, p: nat, s: Bytes, ghost before: Bytes, ghost base: nat, ghost names: Bytes,
                 ghost n: nat)
    returns (p': nat)
    requires p == base + 1 + |names| && 1 + |names| + |s| <= n && Filled(before, data[..], base, NamesUpTo(names, n))
    modifies data
    ensures p' == base + 1 + |names + s| && Filled(before, data[..], base, NamesUpTo(names + s, n))
  {
    NameGoesIn(before, data[..], base, names, s, n);
    PutBytes(data, p, s);
    p' := p + |s|;
  }

  lemma NamesBegin(n: nat)
    requires n >= 1
    ensures NamesUpTo([], n) == Zeros(n)
  {
  }

  // What is written of the names so far, and zeros.
  function NamesUpTo(names: Bytes, n: nat): (b: Bytes)
    requires 1 + |names| <= n
    ensures |b| == n
  {
    [0] + names + Zeros(n - 1 - |names|)
  }

  lemma NameGoesIn(before: Bytes, buf: Bytes, base: nat, names: Bytes, s: Bytes, n: nat)
    requires 1 + |names| + |s| <= n && Filled(before, buf, base, NamesUpTo(names, n))
    ensures var at := base + 1 + |names|;
      at + |s| <= |buf| && Filled(before, buf[..at] + s + buf[at + |s|..], base, NamesUpTo(names + s, n))
  {
    FillOver(before, buf, base, NamesUpTo(names, n), 1 + |names|, s);
    assert Over(NamesUpTo(names, n), 1 + |names|, s) == NamesUpTo(names + s, n);
  }

  lemma LastName(names: Bytes, n: nat, aligned: nat)
    requires 1 + |names| <= aligned && n == aligned + |SHSTRTAB| + 1
    ensures NamesUpTo(names + (SHSTRTAB + [0]), n) == [0] + names + SHSTRTAB + Zeros(aligned - (1 + |names|) + 1)
  {
    var k := aligned - (1 + |names|);
    assert Zeros(k + 1) == [0] + Zeros(k);
  }

  // One more piece behind what is filled.
  lemma FillMore(before: Bytes, was: Bytes, buf: Bytes, base: nat, part: Bytes, more: Bytes)
    requires Filled(before, was, base, part) && Filled(was, buf, base + |part|, more)
    ensures Filled(before, buf, base, part + more)
  {
    assert was[..base + |part|] == before[..base] + part;
    assert was[base + |part| + |more|..] == before[base + |part| + |more|..];
  }

  // memcpy, and then the loop over the entries of eight bytes.
  method PutRelocs(data: array<u8>, at: nat, rel: Bytes)
    requires at + |rel| <= data.Length
    modifies data
    ensures Filled(old(data[..]), data[..], at, Masked(rel))
  {
    ghost var before := data[..];
    PutBytes(data, at, rel);
    for j := 0 to |rel| / 8
      invariant data[..] == before[..at] + MaskedTo(rel, j) + before[at + |rel|..]
    {
      ghost var now := data[..];
      var info := Le32(data[..], at + 8 * j + 4);
      MaskOne(before, now, at, rel, j);
      PutBytes(data, at + 8 * j + 4, Word(info % 0x100));
    }
    MaskedAll(rel, |rel| / 8);
  }

  // The first j entries masked.
  function MaskedTo(rel: Bytes, j: nat): (b: Bytes)
    requires 8 * j <= |rel|
    ensures |b| == |rel|
  {
    Masked(rel[..8 * j]) + rel[8 * j..]
  }

  lemma MaskOne(before: Bytes, now: Bytes, at: nat, rel: Bytes, j: nat)
    requires 8 * j + 8 <= |rel| && at + |rel| <= |before|
      && now == before[..at] + MaskedTo(rel, j) + before[at + |rel|..]
    ensures var k := at + 8 * j + 4;
      k + 4 <= |now|
      && now[..k] + Word(Le32(now, k) % 0x100) + now[k + 4..]
          == before[..at] + MaskedTo(rel, j + 1) + before[at + |rel|..]
  {
    var k := at + 8 * j + 4;
    assert now[k] == rel[8 * j + 4];
    LowByte(now, k);
    MaskedGrows(rel, j);
  }

  lemma LowByte(s: Bytes, k: nat)
    requires k + 4 <= |s|
    ensures Word(Le32(s, k) % 0x100) == [s[k], 0, 0, 0]
  {
  }

  lemma {:induction false} MaskedAppend(a: Bytes, b: Bytes, j: nat)
    requires |a| == 8 * j
    ensures Masked(a + b) == Masked(a) + Masked(b)
  {
    if j == 0 {
      assert a + b == b;
    } else {
      assert (a + b)[8..] == a[8..] + b && (a + b)[..4] == a[..4];
      MaskedAppend(a[8..], b, j - 1);
    }
  }

  lemma MaskedGrows(rel: Bytes, j: nat)
    requires 8 * j + 8 <= |rel|
    ensures MaskedTo(rel, j + 1)
      == Masked(rel[..8 * j]) + rel[8 * j..8 * j + 4] + [rel[8 * j + 4], 0, 0, 0] + rel[8 * j + 8..]
  {
    var one := rel[8 * j..8 * j + 8];
    assert rel[..8 * (j + 1)] == rel[..8 * j] + one;
    MaskedAppend(rel[..8 * j], one, j);
    assert Masked(one) == one[..4] + [one[4], 0, 0, 0] + Masked(one[8..]) && one[8..] == []
      && one[..4] == rel[8 * j..8 * j + 4];
  }

  // Fewer than eight bytes are left over and stay.
  lemma MaskedShort(all: Bytes, front: Bytes, tail: Bytes, j: nat)
    requires all == front + tail && |front| == 8 * j && |tail| < 8
    ensures Masked(all) == Masked(front) + tail
  {
    MaskedAppend(front, tail, j);
  }

  lemma MaskedAll(rel: Bytes, j: nat)
    requires 8 * j <= |rel| < 8 * j + 8
    ensures MaskedTo(rel, j) == Masked(rel)
  {
    var front, tail := rel[..8 * j], rel[8 * j..];
    MaskedShort(rel, front, tail, j);
  }

  // Where the next header, relocations and name go.
  ghost predicate Cursor(secs: seq<Section>, l: Layout, i: nat, shdr: nat, relocOfs: nat, strOfs: nat)
  {
    && i <= |secs| && Kept(secs, i) + 2 <= l.outSects
    && shdr == l.ShBase() + 40 + 40 * Kept(secs, i) && relocOfs == l.RelocBase() + RelocBytes(secs, i)
    && strOfs == 1 + NameBytes(secs, i)
  }

  lemma RelocsGrow(secs: seq<Section>, i: nat, s: Section)
    requires i < |secs| && s == secs[i] && NoData(secs[0]) && Fits(secs)
    ensures s.output && s.IsReloc() ==>
      && |s.data| == s.size && RelocBytes(secs, i + 1) == RelocBytes(secs, i) + s.size
      && Relocs(secs, i + 1) == Relocs(secs, i) + Masked(s.data)
    ensures !(s.output && s.IsReloc()) ==>
      RelocBytes(secs, i + 1) == RelocBytes(secs, i) && Relocs(secs, i + 1) == Relocs(secs, i)
  {
    assert s.Sized();
  }

  lemma FillNothing(buf: Bytes, i: nat, part: Bytes)
    requires i + |part| <= |buf| && buf[i..i + |part|] == part
    ensures Filled(buf, buf, i, part)
  {
  }

  // Writing inside the part that is filled.
  lemma FillOver(before: Bytes, buf: Bytes, base: nat, part: Bytes, at: nat, data: Bytes)
    requires Filled(before, buf, base, part) && at + |data| <= |part|
    ensures base + at + |data| <= |buf|
    ensures Filled(before, buf[..base + at] + data + buf[base + at + |data|..], base, Over(part, at, data))
  {
    var buf' := buf[..base + at] + data + buf[base + at + |data|..];
    assert buf[..base + at] == before[..base] + part[..at];
    assert buf[base + at + |data|..] == part[at + |data|..] + before[base + |part|..];
    assert buf' == before[..base] + (part[..at] + data + part[at + |data|..]) + before[base + |part|..];
  }

  lemma RoomInImage(secs: seq<Section>, i: nat)
    requires 0 < i < |secs| && Fits(secs) && secs[i].output && secs[i].IsProgbits()
    ensures secs[i].addr + |secs[i].data| <= LayoutOf(secs).allocSize
  {
    assert secs[i].Sized();
    PrefixSums(secs, i + 1, |secs|);
  }

  // The headers before i in their slots, the rest empty.
  function Slots(secs: seq<Section>, i: nat, n: nat): (b: Bytes)
    requires i <= |secs| && Fits(secs) && 40 + 40 * Kept(secs, i) <= n
    ensures |b| == n
  {
    Zeros(40) + Headers(secs, i) + Zeros(n - 40 - 40 * Kept(secs, i))
  }

  lemma HeadersBegin(secs: seq<Section>, n: nat)
    requires secs != [] && Fits(secs) && n >= 40
    ensures Slots(secs, 1, n) == Zeros(n)
  {
  }

  lemma SlotSkipped(secs: seq<Section>, i: nat, n: nat)
    requires 0 < i < |secs| && Fits(secs) && !secs[i].output && 40 + 40 * Kept(secs, i) <= n
    ensures Kept(secs, i + 1) == Kept(secs, i) && Slots(secs, i + 1, n) == Slots(secs, i, n)
  {
    assert Headers(secs, i + 1) == Headers(secs, i);
  }

  lemma SlotFilled(secs: seq<Section>, i: nat, n: nat, header: Bytes)
    requires i <= |secs| && Fits(secs) && |header| == 40 && 80 + 40 * Kept(secs, i) <= n
    ensures Over(Slots(secs, i, n), 40 + 40 * Kept(secs, i), header)
         == Zeros(40) + Headers(secs, i) + header + Zeros(n - 80 - 40 * Kept(secs, i))
  {
  }

  lemma HeaderGoesIn(before: Bytes, buf: Bytes, base: nat, secs: seq<Section>, i: nat, n: nat, at: nat, h: Bytes)
    requires 0 < i < |secs| && Fits(secs) && secs[i].output && n == 40 * LayoutOf(secs).outSects
    requires Kept(secs, i + 1) <= Kept(secs, |secs|) && Filled(before, buf, base, Slots(secs, i, n))
    requires at == base + 40 + 40 * Kept(secs, i) && h == WordsBytes(Header(secs, i))
    ensures |h| == 40 && at + 40 <= |buf| && Filled(before, buf[..at] + h + buf[at + 40..], base, Slots(secs, i + 1, n))
  {
    HeadersGrow(secs, i);
    SlotFilled(secs, i, n, h);
    FillOver(before, buf, base, Slots(secs, i, n), 40 + 40 * Kept(secs, i), h);
  }

  lemma HeadersGrow(secs: seq<Section>, i: nat)
    requires 0 < i < |secs| && Fits(secs) && secs[i].output
    ensures Kept(secs, i + 1) == Kept(secs, i) + 1
      && Headers(secs, i + 1) == Headers(secs, i) + WordsBytes(Header(secs, i))
  {
  }

  lemma NothingLeft(b: Bytes)
    ensures b + Zeros(0) == b
  {
  }

  lemma NamesHeaderGoesIn(before: Bytes, buf: Bytes, base: nat, secs: seq<Section>, n: nat)
    requires Fits(secs) && n == 40 * LayoutOf(secs).outSects && Filled(before, buf, base, Slots(secs, |secs|, n))
    ensures var at, h := base + 40 + 40 * Kept(secs, |secs|), WordsBytes(NamesHeader(secs));
      && at + 40 <= |buf|
      && Filled(before, buf[..at] + h + buf[at + 40..], base, Zeros(40) + Headers(secs, |secs|) + h)
  {
    var h := WordsBytes(NamesHeader(secs));
    SlotFilled(secs, |secs|, n, h);
    FillOver(before, buf, base, Slots(secs, |secs|, n), 40 + 40 * Kept(secs, |secs|), h);
    NothingLeft(Zeros(40) + Headers(secs, |secs|) + h);
  }

  function Reindexed(secs: seq<Section>, i: nat): Section
    requires i < |secs|
  {
    if secs[i].output then secs[i].(index := IndexFrom(secs, i)) else secs[i]
  }

  // One more than the kept sections before i, the null section among them.
  function IndexFrom(secs: seq<Section>, i: nat): nat
    requires i <= |secs|
  {
    if i == 0 then 1 else IndexFrom(secs, i - 1) + if secs[i - 1].output then 1 else 0
  }

  // The index given to a kept section is the slot of its header exactly when
  // the null section is not kept.
  lemma {:induction false} IndexIsSlot(secs: seq<Section>, i: nat)
    requires 0 < i <= |secs|
    ensures IndexFrom(secs, i) == 1 + Kept(secs, i) <==> !secs[0].output
    ensures IndexFrom(secs, i) == 1 + Kept(secs, i) + if secs[0].output then 1 else 0
  {
    if i > 1 { IndexIsSlot(secs, i - 1); }
  }

  // ----- the finished file -----

  lemma FileParts(f: Bytes, e: Bytes, m: Bytes, s: Bytes, r: Bytes, t: Bytes, i: nat, j: nat, k: nat, n: nat)
    requires f == e + m + s + r + t
    requires i == |e| + |m| && j == i + |s| && k == j + |r| && n == k + |t|
    ensures n == |f| && f[|e|..i] == m && f[i..j] == s && f[j..k] == r && f[k..n] == t
  {
  }

  // The whole list after reindex_sections: each kept section carries its slot.
  ghost predicate Indexed(secs: seq<Section>)
  {
    forall i :: 0 < i < |secs| && secs[i].output ==> secs[i].index == 1 + Kept(secs, i)
  }

  // Lists that differ in their indices only.
  ghost predicate SameButIndex(a: seq<Section>, b: seq<Section>)
  {
    |a| == |b| && forall i :: 0 <= i < |a| ==> b[i] == a[i].(index := b[i].index)
  }

  lemma {:induction false} SameSums(a: seq<Section>, b: seq<Section>, n: nat)
    requires SameButIndex(a, b) && n <= |a|
    ensures Kept(b, n) == Kept(a, n) && NameBytes(b, n) == NameBytes(a, n) && RelocBytes(b, n) == RelocBytes(a, n)
    ensures Top(b, n, false) == Top(a, n, false) && Top(b, n, true) == Top(a, n, true)
  {
    if n > 1 {
      SameSums(a, b, n - 1);
      assert b[n - 1] == a[n - 1].(index := b[n - 1].index);
    }
  }

  // Renumbering changes neither the layout nor whether the sections fit.
  lemma SameLayout(a: seq<Section>, b: seq<Section>)
    requires SameButIndex(a, b)
    ensures LayoutOf(b) == LayoutOf(a) && (Fits(a) ==> Fits(b))
  {
    SameSums(a, b, |a|);
    if Fits(a) {
      forall i | 0 <= i < |b| ensures b[i].Sized() && (b[i].ref.Some? ==> b[i].ref.value < |b|) {
        assert b[i] == a[i].(index := b[i].index) && a[i].Sized();
      }
    }
  }

  // reindex_sections makes it so, unless the null section is kept.
  lemma ReindexedIsIndexed(secs: seq<Section>, secs': seq<Section>)
    requires |secs'| == |secs| && (forall i :: 0 <= i < |secs| ==> secs'[i] == Reindexed(secs, i)) && secs != []
    requires !secs[0].output
    ensures Indexed(secs')
  {
    forall i | 0 < i < |secs'| && secs'[i].output ensures secs'[i].index == 1 + Kept(secs', i) {
      IndexIsSlot(secs, i);
      SameSums(secs, secs', i);
    }
  }

  // A slice of a part is a slice of the file.
  lemma InPart(f: Bytes, i: nat, j: nat, part: Bytes, a: nat, at: nat, want: Bytes)
    requires i <= j <= |f| && f[i..j] == part && a + |want| <= |part| && part[a..a + |want|] == want && at == i + a
    ensures at + |want| <= j && f[at..at + |want|] == want
  {
    SliceOfSlice(f, i, j, a, a + |want|);
  }

  // The parts of the file: headers, image, section headers, relocations and
  // names lie next to each other without overlapping, and fill the file.
  lemma PartsOfFile(h: ElfHeader, secs: seq<Section>, modinfoAddr: u32, modFlags: u32, l: Layout, f: Bytes)
    requires Fits(secs) && l == LayoutOf(secs) && l.memSize < WORD && l.outSects < 0x1_0000
    requires f == PrxFile(h, secs, modinfoAddr, modFlags)
    ensures |f| == l.Size() && f[..52] == HeaderBytes(h, l)
    ensures f[l.PhBase()..84] == WordsBytes(ProgramHeader(l, modinfoAddr, modFlags))
      && f[84..l.AllocBase()] == Zeros(12)
    ensures f[l.AllocBase()..l.ShBase()] == Image(Zeros(l.allocSize), secs, |secs|)
    ensures f[l.ShBase()..l.RelocBase()] == Zeros(40) + Headers(secs, |secs|) + WordsBytes(NamesHeader(secs))
    ensures f[l.RelocBase()..l.ShStrBase()] == Relocs(secs, |secs|) && f[l.ShStrBase()..l.Size()] == NamesPart(secs)
  {
    var s, front := Zeros(40) + Headers(secs, |secs|) + WordsBytes(NamesHeader(secs)),
      Front(h, l, modinfoAddr, modFlags);
    assert |s| == 40 * l.outSects;
    PartsBehind(l, f, front, Image(Zeros(l.allocSize), secs, |secs|), s, Relocs(secs, |secs|), NamesPart(secs));
    FrontParts(f, HeaderBytes(h, l), WordsBytes(ProgramHeader(l, modinfoAddr, modFlags)), Zeros(12));
  }

  lemma FrontParts(f: Bytes, e: Bytes, p: Bytes, z: Bytes)
    requires |e| == 52 && |p| == 32 && |z| == 12 && e + p + z <= f
    ensures f[..52] == e && f[52..84] == p && f[84..96] == z
  {
    assert f[..96] == e + p + z;
  }

  lemma PartsBehind(l: Layout, f: Bytes, front: Bytes, m: Bytes, s: Bytes, r: Bytes, t: Bytes)
    requires f == front + m + s + r + t && |front| == 96
    requires |m| == l.allocSize && |s| == 40 * l.outSects && |r| == l.relocSize && |t| == l.strSize
    ensures |f| == l.Size() && front <= f && f[l.AllocBase()..l.ShBase()] == m && f[l.ShBase()..l.RelocBase()] == s
    ensures f[l.RelocBase()..l.ShStrBase()] == r && f[l.ShStrBase()..l.Size()] == t
  {
    FileParts(f, front, m, s, r, t, l.ShBase(), l.RelocBase(), l.ShStrBase(), l.Size());
  }

  // In the file, a kept section has its header in its slot.
  lemma HeaderInFile(secs: seq<Section>, i: nat, l: Layout, f: Bytes)
    requires 0 < i < |secs| && Fits(secs) && secs[i].output && l == LayoutOf(secs) && |f| == l.Size()
    requires f[l.ShBase()..l.RelocBase()] == Zeros(40) + Headers(secs, |secs|) + WordsBytes(NamesHeader(secs))
    ensures var at := l.ShBase() + 40 * (1 + Kept(secs, i));
      at + 40 <= l.RelocBase() && f[at..at + 40] == WordsBytes(Header(secs, i))
  {
    var k, hs := 40 * Kept(secs, i), Headers(secs, |secs|);
    HeaderInSlot(secs, i, |secs|);
    InMiddle(Zeros(40), hs, WordsBytes(NamesHeader(secs)), k, k + 40);
    InPart(f, l.ShBase(), l.RelocBase(), Zeros(40) + hs + WordsBytes(NamesHeader(secs)), 40 + k,
           l.ShBase() + 40 * (1 + Kept(secs, i)), WordsBytes(Header(secs, i)));
  }

  lemma InMiddle(a: Bytes, b: Bytes, c: Bytes, i: nat, j: nat)
    requires i <= j <= |b|
    ensures (a + b + c)[|a| + i..|a| + j] == b[i..j]
  {
  }

  // The header's name is the section's own.
  lemma NameInFile(secs: seq<Section>, i: nat, l: Layout, f: Bytes)
    requires 0 < i < |secs| && Fits(secs) && secs[i].output && l == LayoutOf(secs) && |f| == l.Size()
    requires f[l.ShStrBase()..l.Size()] == NamesPart(secs)
    ensures var at, s := l.ShStrBase() + Header(secs, i)[0], secs[i].name + [0];
      at + |s| <= |f| && f[at..at + |s|] == s
  {
    var k, s := NameBytes(secs, i), secs[i].name + [0];
    NameInTable(secs, i, |secs|);
    NamesInPart(secs, k, k + |s|);
    InPart(f, l.ShStrBase(), l.Size(), NamesPart(secs), 1 + k, l.ShStrBase() + 1 + k, s);
  }

  lemma NamesInPart(secs: seq<Section>, i: nat, j: nat)
    requires i <= j <= NameBytes(secs, |secs|)
    ensures 1 + j <= |NamesPart(secs)| && NamesPart(secs)[1 + i..1 + j] == Names(secs, |secs|)[i..j]
  {
    var used := 1 + NameBytes(secs, |secs|);
    InMiddle([0], Names(secs, |secs|), SHSTRTAB + Zeros(Align4(used) - used + 1), i, j);
    assert NamesPart(secs) == [0] + Names(secs, |secs|) + (SHSTRTAB + Zeros(Align4(used) - used + 1));
  }

  lemma PlaceOf(secs: seq<Section>, i: nat, l: Layout)
    requires 0 < i < |secs| && Fits(secs) && secs[i].output && l == LayoutOf(secs)
    ensures secs[i].IsReloc() ==> Place(secs, i) == l.RelocBase() + RelocBytes(secs, i)
    ensures !secs[i].IsReloc() && secs[i].IsProgbits() ==> Place(secs, i) == l.AllocBase() + secs[i].addr
  {
  }

  // A relocation section names the slot of the section it is for.
  lemma InfoNamesSlot(secs: seq<Section>, i: nat)
    requires 0 < i < |secs| && Fits(secs) && Indexed(secs) && secs[i].output && secs[i].IsReloc() && secs[i].ref.Some?
    requires secs[i].ref.value > 0 && secs[secs[i].ref.value].output
    ensures Header(secs, i)[7] == 1 + Kept(secs, secs[i].ref.value)
  {
    var ref := secs[i].ref.value;
    SlotIsSmall(secs, ref);
    WordOfSmall(secs[ref].index);
  }

  lemma WordOfSmall(x: nat)
    requires x < WORD
    ensures x % WORD == x
  {
  }

  lemma SlotIsSmall(secs: seq<Section>, i: nat)
    requires i <= |secs| && Fits(secs)
    ensures 1 + Kept(secs, i) < WORD
  {
    PrefixSums(secs, i, |secs|);
  }

  // In the file, the header of every kept section is in the slot of its index,
  // and leads to its name.
  lemma SectionInFile(h: ElfHeader, secs: seq<Section>, modinfoAddr: u32, modFlags: u32, i: nat)
    requires 0 < i < |secs| && Fits(secs) && Indexed(secs) && secs[i].output
    requires LayoutOf(secs).memSize < WORD && LayoutOf(secs).outSects < 0x1_0000
    ensures var l, f, w := LayoutOf(secs), PrxFile(h, secs, modinfoAddr, modFlags), Header(secs, i);
      var at, name, s := l.ShBase() + 40 * secs[i].index, l.ShStrBase() + w[0], secs[i].name + [0];
      && at + 40 <= l.RelocBase() && f[at..at + 40] == WordsBytes(w) && name + |s| <= |f| && f[name..name + |s|] == s
  {
    var l, f := LayoutOf(secs), PrxFile(h, secs, modinfoAddr, modFlags);
    PartsOfFile(h, secs, modinfoAddr, modFlags, l, f);
    HeaderInFile(secs, i, l, f);
    NameInFile(secs, i, l, f);
  }

  // The header of every kept section is in the slot of its number.
  ghost predicate AllInSlots(f: Bytes, secs: seq<Section>)
  {
    && Fits(secs)
    && forall i :: 0 < i < |secs| && secs[i].output ==>
      var at := LayoutOf(secs).ShBase() + 40 * secs[i].index;
      at + 40 <= |f| && f[at..at + 40] == WordsBytes(Header(secs, i))
  }

  lemma SectionsInFile(h: ElfHeader, secs: seq<Section>, modinfoAddr: u32, modFlags: u32, f: Bytes)
    requires Fits(secs) && Indexed(secs) && LayoutOf(secs).memSize < WORD && LayoutOf(secs).outSects < 0x1_0000
    requires f == PrxFile(h, secs, modinfoAddr, modFlags)
    ensures AllInSlots(f, secs)
  {
    forall i | 0 < i < |secs| && secs[i].output
      ensures var at := LayoutOf(secs).ShBase() + 40 * secs[i].index;
        at + 40 <= |f| && f[at..at + 40] == WordsBytes(Header(secs, i))
    {
      SectionInFile(h, secs, modinfoAddr, modFlags, i);
    }
  }

  // And to its data: relocations with only their types left, and the bytes of
  // a section that overlaps no other.
  lemma DataOfSection(h: ElfHeader, secs: seq<Section>, modinfoAddr: u32, modFlags: u32, i: nat)
    requires 0 < i < |secs| && Fits(secs) && secs[i].output
    requires LayoutOf(secs).memSize < WORD && LayoutOf(secs).outSects < 0x1_0000
    requires secs[i].IsReloc() || (secs[i].IsProgbits() && Alone(secs, i, |secs|))
    ensures var f, at, s := PrxFile(h, secs, modinfoAddr, modFlags), Header(secs, i)[4], secs[i];
      at + s.size <= |f| && f[at..at + s.size] == if s.IsReloc() then Masked(s.data) else s.data
  {
    var l, f := LayoutOf(secs), PrxFile(h, secs, modinfoAddr, modFlags);
    PartsOfFile(h, secs, modinfoAddr, modFlags, l, f);
    PlaceOf(secs, i, l);
    if secs[i].IsReloc() {
      RelocsInFile(secs, i, secs[i], f, l.RelocBase(), l.ShStrBase(), RelocBytes(secs, i), Place(secs, i));
    } else {
      DataInFile(secs, i, secs[i], f, l.AllocBase(), l.ShBase(), l.allocSize, Place(secs, i));
    }
  }

  lemma RelocsInFile(secs: seq<Section>, i: nat, s: Section, f: Bytes, lo: nat, hi: nat, k: nat, at: nat)
    requires 0 < i < |secs| && Fits(secs) && s == secs[i] && s.output && s.IsReloc() && k == RelocBytes(secs, i)
    requires lo <= hi <= |f| && f[lo..hi] == Relocs(secs, |secs|) && at == lo + k
    ensures at + s.size <= |f| && f[at..at + s.size] == Masked(s.data)
  {
    RelocsAtPlace(secs, i, s, k, f[lo..hi], Masked(s.data));
    InPart(f, lo, hi, f[lo..hi], k, at, Masked(s.data));
  }

  lemma DataInFile(secs: seq<Section>, i: nat, s: Section, f: Bytes, lo: nat, hi: nat, size: nat, at: nat)
    requires 0 < i < |secs| && Fits(secs) && s == secs[i] && s.output && s.IsProgbits() && Alone(secs, i, |secs|)
    requires size == LayoutOf(secs).allocSize && at == lo + s.addr
    requires lo <= hi <= |f| && f[lo..hi] == Image(Zeros(size), secs, |secs|)
    ensures at + s.size <= |f| && f[at..at + s.size] == s.data
  {
    DataAtPlace(secs, i, s, size, f[lo..hi]);
    InPart(f, lo, hi, f[lo..hi], s.addr, at, s.data);
  }

  lemma RelocsAtPlace(secs: seq<Section>, i: nat, s: Section, k: nat, all: Bytes, masked: Bytes)
    requires 0 < i < |secs| && Fits(secs) && s == secs[i] && s.output && s.IsReloc()
    requires all == Relocs(secs, |secs|) && k == RelocBytes(secs, i) && masked == Masked(s.data)
    ensures k + s.size <= |all| && |masked| == s.size && all[k..k + s.size] == masked
  {
    assert s.Sized();
    RelocsInPlace(secs, i, |secs|);
  }

  lemma DataAtPlace(secs: seq<Section>, i: nat, s: Section, size: nat, image: Bytes)
    requires 0 < i < |secs| && Fits(secs) && s == secs[i] && s.output && s.IsProgbits() && Alone(secs, i, |secs|)
    requires size == LayoutOf(secs).allocSize && image == Image(Zeros(size), secs, |secs|)
    ensures s.addr + s.size <= |image| && |s.data| == s.size && image[s.addr..s.addr + s.size] == s.data
  {
    assert s.Sized();
    DataInImage(Zeros(size), secs, i, |secs|);
  }
}
