/** The stripped module as a loader reads it: from the words at fixed places of
    the file to the segment, the section headers, their names and their data. */
module PrxSeen {
  import opened Bits
  import opened ByteArrays
  import opened PrxLayout
  import opened PrxGen
  import opened Wrappers

  // A word and a halfword of the file, the lowest byte first.
  ghost function W(f: Bytes, i: nat): nat
  {
    if i + 4 > |f| then 0
    else f[i] as int + 0x100 * f[i + 1] as int + 0x1_0000 * f[i + 2] as int + 0x100_0000 * f[i + 3] as int
  }

  ghost function H(f: Bytes, i: nat): nat
  {
    if i + 2 > |f| then 0 else f[i] as int + 0x100 * f[i + 1] as int
  }

  // What the ELF header leads to: the program header, the section headers with
  // how many there are, and the one of the names.
  ghost function Segment(f: Bytes): nat { W(f, 28) }
  ghost function HeaderAt(f: Bytes, k: nat): nat { W(f, 32) + 40 * k }
  ghost function HeaderCount(f: Bytes): nat { H(f, 48) }
  ghost function NameTable(f: Bytes): nat { HeaderAt(f, H(f, 50)) }

  // Where the name of a header and the data of its section are.
  ghost function NameAt(f: Bytes, at: nat): nat { W(f, NameTable(f) + 16) + W(f, at) }
  ghost function DataAt(f: Bytes, at: nat): nat { W(f, at + 16) }

  ghost predicate Stands(f: Bytes, i: nat, part: Bytes)
  {
    i + |part| <= |f| && f[i..i + |part|] == part
  }

  // ----- the ELF header -----

  ghost predicate ElfSeen(f: Bytes, h: ElfHeader)
  {
    && |f| >= 52 && W(f, 0) == h.magic && f[4] == h.class_ && f[5] == h.data && f[6] == h.idver
    && H(f, 16) == 0xFFA0 && H(f, 18) == h.machine && W(f, 20) == h.version && W(f, 24) == h.entry
    && W(f, 36) == h.flags && H(f, 40) == 52 && H(f, 42) == 32 && H(f, 44) == 1 && H(f, 46) == 40
  }

  lemma WordSeen(f: Bytes, i: nat, x: u32)
    requires Stands(f, i, Word(x))
    ensures W(f, i) == x
  {
    WordRead(f, i, x);
  }

  lemma HalfSeen(f: Bytes, i: nat, x: u16)
    requires Stands(f, i, Half(x))
    ensures H(f, i) == x
  {
    HalfRead(f, i, x);
  }

  lemma StandsInside(f: Bytes, i: nat, part: Bytes, a: nat, want: Bytes)
    requires Stands(f, i, part) && Stands(part, a, want)
    ensures Stands(f, i + a, want)
  {
    SliceOfSlice(f, i, i + |part|, a, a + |want|);
  }

  lemma Pieces(a: Bytes, b: Bytes, c: Bytes)
    ensures Stands(a + b + c, |a|, b)
  {
    var s := a + b + c;
    assert s[|a|..|a| + |b|] == b;
  }

  lemma HeaderWords(h: ElfHeader, l: Layout)
    requires l.Size() < 0x8000_0000 && l.outSects < 0x1_0000
    ensures var e := HeaderBytes(h, l);
      && Stands(e, 0, Word(h.magic)) && e[4] == h.class_ && e[5] == h.data && e[6] == h.idver
      && Stands(e, 16, Half(0xFFA0)) && Stands(e, 18, Half(h.machine)) && Stands(e, 20, Word(h.version))
      && Stands(e, 24, Word(h.entry))
  {
    var e := HeaderBytes(h, l);
    assert e[0..4] == Word(h.magic);
    assert e[16..18] == Half(0xFFA0);
    assert e[18..20] == Half(h.machine);
    assert e[20..24] == Word(h.version);
    assert e[24..28] == Word(h.entry);
  }

  lemma HeaderPlaces(h: ElfHeader, l: Layout)
    requires l.Size() < 0x8000_0000 && 0 < l.outSects < 0x1_0000
    ensures var e := HeaderBytes(h, l);
      && Stands(e, 28, Word(l.PhBase())) && Stands(e, 32, Word(l.ShBase())) && Stands(e, 36, Word(h.flags))
      && Stands(e, 40, Half(52)) && Stands(e, 42, Half(32)) && Stands(e, 44, Half(1)) && Stands(e, 46, Half(40))
      && Stands(e, 48, Half(l.outSects)) && Stands(e, 50, Half(l.outSects - 1))
  {
    var e := HeaderBytes(h, l);
    assert e[28..32] == Word(l.PhBase());
    assert e[32..36] == Word(l.ShBase());
    assert e[36..40] == Word(h.flags);
    assert e[40..42] == Half(52);
    assert e[42..44] == Half(32);
    assert e[44..46] == Half(1);
    assert e[46..48] == Half(40);
    assert e[48..50] == Half(l.outSects);
    var last := Half(l.outSects - 1);
    assert e[50] == last[0] && e[51] == last[1];
    assert e[50..52] == [e[50], e[51]] == last;
  }

  lemma ElfIsSeen(f: Bytes, h: ElfHeader, l: Layout)
    requires l.Size() < 0x8000_0000 && 0 < l.outSects < 0x1_0000
    requires |f| >= 52 && f[..52] == HeaderBytes(h, l)
    ensures ElfSeen(f, h) && Segment(f) == 52 && HeaderAt(f, 0) == l.ShBase()
    ensures HeaderCount(f) == l.outSects && H(f, 50) == l.outSects - 1
  {
    var e := HeaderBytes(h, l);
    HeaderWords(h, l);
    HeaderPlaces(h, l);
    assert Stands(f, 0, e) && f[4] == e[4] && f[5] == e[5] && f[6] == e[6];
    PutWord(f, e, 0, h.magic);
    PutHalf(f, e, 16, 0xFFA0);
    PutHalf(f, e, 18, h.machine);
    PutWord(f, e, 20, h.version);
    PutWord(f, e, 24, h.entry);
    PutWord(f, e, 28, l.PhBase());
    PutWord(f, e, 32, l.ShBase());
    PutWord(f, e, 36, h.flags);
    PutHalf(f, e, 40, 52);
    PutHalf(f, e, 42, 32);
    PutHalf(f, e, 44, 1);
    PutHalf(f, e, 46, 40);
    PutHalf(f, e, 48, l.outSects);
    PutHalf(f, e, 50, l.outSects - 1);
  }

  lemma PutWord(f: Bytes, e: Bytes, i: nat, x: u32)
    requires Stands(f, 0, e) && Stands(e, i, Word(x))
    ensures W(f, i) == x
  {
    StandsInside(f, 0, e, i, Word(x));
    WordSeen(f, i, x);
  }

  lemma PutHalf(f: Bytes, e: Bytes, i: nat, x: u16)
    requires Stands(f, 0, e) && Stands(e, i, Half(x))
    ensures H(f, i) == x
  {
    StandsInside(f, 0, e, i, Half(x));
    HalfSeen(f, i, x);
  }

  // ----- a table of words -----

  // The words of a header that stands in the file.
  lemma {:induction false} WordsSeen(f: Bytes, at: nat, b: Bytes, ws: seq<u32>, k: nat, i: nat)
    requires Stands(f, at, b) && b == WordsBytes(ws) && k < |ws| && i == at + 4 * k
    ensures W(f, i) == ws[k]
    decreases k
  {
    FirstWord(f, at, Word(ws[0]), WordsBytes(ws[1..]));
    if k == 0 {
      WordSeen(f, at, ws[0]);
    } else {
      WordsSeen(f, at + 4, WordsBytes(ws[1..]), ws[1..], k - 1, i);
    }
  }

  lemma FirstWord(f: Bytes, at: nat, w: Bytes, rest: Bytes)
    requires Stands(f, at, w + rest)
    ensures Stands(f, at, w) && Stands(f, at + |w|, rest)
  {
    assert Stands(w + rest, 0, w) && Stands(w + rest, |w|, rest);
    StandsInside(f, at, w + rest, 0, w);
    StandsInside(f, at, w + rest, |w|, rest);
  }

  // ----- the segment -----

  // One segment, readable and executable, aligned to 16, with a physical
  // address from the module information, in the upper half for kernel modules.
  ghost predicate SegmentSeen(f: Bytes, modinfoAddr: u32, modFlags: u32)
  {
    var p := Segment(f);
    var offset, paddr := W(f, p + 4), W(f, p + 12);
    && W(f, p) == 1 && W(f, p + 8) == 0 && W(f, p + 24) == 5 && W(f, p + 28) == 0x10
    && offset % 16 == 0 && p + 32 <= offset && offset + W(f, p + 16) <= |f| && W(f, p + 16) <= W(f, p + 20)
    && (if modFlags / 0x1000 % 2 == 1
        then paddr >= 0x8000_0000 && (paddr - modinfoAddr - offset) % 0x8000_0000 == 0
        else (paddr - modinfoAddr - offset) % 0x1_0000_0000 == 0)
  }

  lemma SegmentWords(f: Bytes, l: Layout, modinfoAddr: u32, modFlags: u32)
    requires l.Size() < 0x8000_0000 && l.memSize < WORD && |f| == l.Size() && Segment(f) == 52
    requires f[52..84] == WordsBytes(ProgramHeader(l, modinfoAddr, modFlags))
    ensures W(f, 56) == 96 && W(f, 68) == l.allocSize && W(f, 72) == l.memSize
    ensures W(f, 52) == 1 && W(f, 60) == 0 && W(f, 76) == 5 && W(f, 80) == 0x10
    ensures W(f, 64) == ProgramHeader(l, modinfoAddr, modFlags)[3]
  {
    var ws := ProgramHeader(l, modinfoAddr, modFlags);
    assert Stands(f, 52, f[52..84]);
    WordsSeen(f, 52, f[52..84], ws, 0, 52);
    WordsSeen(f, 52, f[52..84], ws, 1, 56);
    WordsSeen(f, 52, f[52..84], ws, 2, 60);
    WordsSeen(f, 52, f[52..84], ws, 3, 64);
    WordsSeen(f, 52, f[52..84], ws, 4, 68);
    WordsSeen(f, 52, f[52..84], ws, 5, 72);
    WordsSeen(f, 52, f[52..84], ws, 6, 76);
    WordsSeen(f, 52, f[52..84], ws, 7, 80);
  }

  lemma SegmentIsSeen(f: Bytes, l: Layout, modinfoAddr: u32, modFlags: u32)
    requires l.Size() < 0x8000_0000 && l.allocSize <= l.memSize < WORD && |f| == l.Size() && Segment(f) == 52
    requires f[52..84] == WordsBytes(ProgramHeader(l, modinfoAddr, modFlags))
    ensures SegmentSeen(f, modinfoAddr, modFlags)
  {
    SegmentWords(f, l, modinfoAddr, modFlags);
    PhysicalAddress(modinfoAddr + 96, if modFlags / 0x1000 % 2 == 1 then WithTopBit((modinfoAddr + 96) % WORD)
                                      else (modinfoAddr + 96) % WORD, modFlags / 0x1000 % 2 == 1);
  }

  lemma PhysicalAddress(a: nat, p: nat, kernel: bool)
    requires p == if kernel then WithTopBit(a % WORD) else a % WORD
    ensures if kernel then p >= 0x8000_0000 && (p - a) % 0x8000_0000 == 0 else (p - a) % 0x1_0000_0000 == 0
  {
  }

  // ----- the sections -----

  ghost predicate IsRelocation(s: Section) { s.sectType == 9 || s.sectType == 0x7000_00A0 }

  // In the slot of its index: its name, type, flags, address, size, alignment
  // and entry size; relocations all have the module's own type and name the
  // section that they are for.
  ghost predicate HeaderSeen(f: Bytes, secs: seq<Section>, i: nat)
    requires i < |secs|
  {
    && 0 < secs[i].index < HeaderCount(f) - 1
    && DescribedAt(f, secs, i, HeaderAt(f, secs[i].index), W(f, NameTable(f) + 16))
  }

  ghost predicate DescribedAt(f: Bytes, secs: seq<Section>, i: nat, at: nat, names: nat)
    requires i < |secs|
  {
    var s := secs[i];
    && Stands(f, names + W(f, at), s.name + [0])
    && W(f, at + 4) == (if IsRelocation(s) then 0x7000_00A0 else s.sectType)
    && W(f, at + 8) == s.flags && W(f, at + 12) == s.addr && W(f, at + 20) == s.size && W(f, at + 24) == 0
    && W(f, at + 32) == s.addralign && W(f, at + 36) == s.entsize
    && W(f, at + 28) == (if IsRelocation(s) && s.ref.Some? && s.ref.value < |secs|
                         then secs[s.ref.value].index % 0x1_0000_0000 else 0)
  }

  // Its place: relocations with all but the type cleared from their second
  // words; data in the segment at the section's address, there unless another
  // section overlaps it; anything else at the end of the segment, with room in
  // memory.
  ghost predicate DataSeen(f: Bytes, secs: seq<Section>, i: nat)
    requires i < |secs|
  {
    var p := Segment(f);
    FoundAt(f, secs, i, DataAt(f, HeaderAt(f, secs[i].index)), W(f, p + 4), W(f, p + 16), W(f, p + 20))
  }

  ghost predicate FoundAt(f: Bytes, secs: seq<Section>, i: nat, o: nat, offset: nat, fileSize: nat, memSize: nat)
    requires i < |secs|
  {
    var s := secs[i];
    if IsRelocation(s) then RelocsSeen(f, o, s.data)
    else
      && s.addr + s.size <= memSize
      && if s.sectType == 1
         then o == offset + s.addr && s.addr + s.size <= fileSize && (Alone(secs, i, |secs|) ==> Stands(f, o, s.data))
         else o == offset + fileSize
  }

  ghost predicate RelocsSeen(f: Bytes, o: nat, data: Bytes)
  {
    && o + |data| <= |f|
    && (forall j: nat {:trigger W(data, 8 * j)} | 8 * j + 8 <= |data| ::
          W(f, o + 8 * j) == W(data, 8 * j) && W(f, o + 8 * j + 4) == W(data, 8 * j + 4) % 0x100)
  }

  // The kept sections before n.
  ghost function Survivors(secs: seq<Section>, n: nat): set<nat>
    requires n <= |secs|
  {
    set i: nat | 0 < i < n && secs[i].output
  }

  // ".shstrtab", with its NUL.
  ghost function OwnName(): Bytes
  {
    [0x2e, 0x73, 0x68, 0x73, 0x74, 0x72, 0x74, 0x61, 0x62, 0]
  }

  // The empty header in front, the one of the names behind, and one for every
  // section that is kept.
  ghost predicate TableSeen(f: Bytes, secs: seq<Section>)
  {
    && HeaderCount(f) == 2 + |Survivors(secs, |secs|)| && H(f, 50) == HeaderCount(f) - 1
    && HeaderAt(f, HeaderCount(f)) <= |f|
    && (forall k :: HeaderAt(f, 0) <= k < HeaderAt(f, 1) ==> k < |f| && f[k] == 0)
    && W(f, NameTable(f) + 4) == 3 && W(f, NameTable(f) + 16) + W(f, NameTable(f) + 20) == |f|
    && Stands(f, NameAt(f, NameTable(f)), OwnName())
  }

  // Segment, headers, relocations and names follow each other.
  ghost predicate InOrder(f: Bytes, secs: seq<Section>)
  {
    var p := Segment(f);
    && W(f, p + 4) + W(f, p + 16) <= HeaderAt(f, 0)
    && HeaderAt(f, HeaderCount(f)) <= W(f, NameTable(f) + 16)
    && (forall i :: 0 < i < |secs| && secs[i].output && IsRelocation(secs[i]) ==>
          var o := DataAt(f, HeaderAt(f, secs[i].index));
          HeaderAt(f, HeaderCount(f)) <= o && o + secs[i].size <= W(f, NameTable(f) + 16))
    && (forall i, k :: 0 < i < k < |secs| && secs[i].output && IsRelocation(secs[i])
                       && secs[k].output && IsRelocation(secs[k]) ==>
          DataAt(f, HeaderAt(f, secs[i].index)) + secs[i].size <= DataAt(f, HeaderAt(f, secs[k].index)))
  }

  ghost predicate Loadable(f: Bytes, h: ElfHeader, secs: seq<Section>, modinfoAddr: u32, modFlags: u32)
  {
    && ElfSeen(f, h) && SegmentSeen(f, modinfoAddr, modFlags) && TableSeen(f, secs) && InOrder(f, secs)
    && forall i :: 0 < i < |secs| && secs[i].output ==> HeaderSeen(f, secs, i) && DataSeen(f, secs, i)
  }

  // What the proofs share: the layout, where the file's words are those of it.
  ghost predicate LaidOut(f: Bytes, l: Layout)
  {
    && |f| == l.Size() && Segment(f) == 52 && W(f, 32) == l.ShBase() && HeaderCount(f) == l.outSects
    && H(f, 50) == l.outSects - 1 && l.outSects >= 2
    && W(f, 56) == 96 && W(f, 68) == l.allocSize && W(f, 72) == l.memSize
    && W(f, l.ShBase() + 40 * (l.outSects - 1) + 16) == l.ShStrBase()
  }

  lemma NamesHeaderSeen(f: Bytes, secs: seq<Section>, l: Layout, at: nat)
    requires Fits(secs) && l == LayoutOf(secs) && |f| == l.Size() && at == l.ShBase() + 40 * (l.outSects - 1)
    requires f[l.ShBase()..l.RelocBase()] == Zeros(40) + Headers(secs, |secs|) + WordsBytes(NamesHeader(secs))
    ensures W(f, at) == 1 + NameBytes(secs, |secs|) && W(f, at + 4) == 3
    ensures W(f, at + 16) == l.ShStrBase() && W(f, at + 20) == l.strSize
    ensures forall k :: l.ShBase() <= k < l.ShBase() + 40 ==> f[k] == 0
  {
    var b := WordsBytes(NamesHeader(secs));
    ThreeParts(f, l.ShBase(), l.RelocBase(), Zeros(40), Headers(secs, |secs|), b, at);
    TenWords(f, at, b, NamesHeader(secs));
  }

  // The words of a section header.
  lemma TenWords(f: Bytes, at: nat, b: Bytes, ws: seq<u32>)
    requires Stands(f, at, b) && b == WordsBytes(ws) && |ws| == 10
    ensures W(f, at) == ws[0] && W(f, at + 4) == ws[1] && W(f, at + 8) == ws[2] && W(f, at + 12) == ws[3]
    ensures W(f, at + 16) == ws[4] && W(f, at + 20) == ws[5] && W(f, at + 24) == ws[6] && W(f, at + 28) == ws[7]
    ensures W(f, at + 32) == ws[8] && W(f, at + 36) == ws[9]
  {
    WordsSeen(f, at, b, ws, 0, at);
    WordsSeen(f, at, b, ws, 1, at + 4);
    WordsSeen(f, at, b, ws, 2, at + 8);
    WordsSeen(f, at, b, ws, 3, at + 12);
    WordsSeen(f, at, b, ws, 4, at + 16);
    WordsSeen(f, at, b, ws, 5, at + 20);
    WordsSeen(f, at, b, ws, 6, at + 24);
    WordsSeen(f, at, b, ws, 7, at + 28);
    WordsSeen(f, at, b, ws, 8, at + 32);
    WordsSeen(f, at, b, ws, 9, at + 36);
  }

  lemma ThreeParts(f: Bytes, lo: nat, hi: nat, z: Bytes, hs: Bytes, b: Bytes, at: nat)
    requires lo <= hi <= |f| && f[lo..hi] == z + hs + b && z == Zeros(40) && at == lo + |z| + |hs|
    ensures Stands(f, at, b) && forall k :: lo <= k < lo + 40 ==> f[k] == 0
  {
    Pieces(z + hs, b, []);
    assert (z + hs) + b + [] == z + hs + b;
    assert Stands(f, lo, z + hs + b);
    StandsInside(f, lo, z + hs + b, |z + hs|, b);
    forall k | lo <= k < lo + 40 ensures f[k] == 0 {
      assert f[k] == f[lo..hi][k - lo];
    }
  }

  // ----- relocations -----

  lemma ByteInside(f: Bytes, o: nat, part: Bytes, i: nat)
    requires Stands(f, o, part) && i + 4 <= |part|
    ensures W(f, o + i) == W(part, i)
  {
    var s := f[o..o + |part|];
    assert f[o + i] == s[i] && f[o + i + 1] == s[i + 1] && f[o + i + 2] == s[i + 2] && f[o + i + 3] == s[i + 3];
  }

  lemma {:induction false} MaskedWords(rel: Bytes, j: nat)
    requires 8 * j + 8 <= |rel|
    ensures W(Masked(rel), 8 * j) == W(rel, 8 * j) && W(Masked(rel), 8 * j + 4) == W(rel, 8 * j + 4) % 0x100
    decreases j
  {
    var m := Masked(rel);
    if j == 0 {
      assert m[0] == rel[0] && m[1] == rel[1] && m[2] == rel[2] && m[3] == rel[3];
      assert m[4] == rel[4] && m[5] == 0 && m[6] == 0 && m[7] == 0;
    } else {
      MaskedWords(rel[8..], j - 1);
      Behind(rel[..8], rel[8..], 8 * (j - 1));
      Behind(rel[..8], rel[8..], 8 * (j - 1) + 4);
      Behind(m[..8], Masked(rel[8..]), 8 * (j - 1));
      Behind(m[..8], Masked(rel[8..]), 8 * (j - 1) + 4);
      assert rel == rel[..8] + rel[8..] && m == m[..8] + Masked(rel[8..]);
    }
  }

  lemma Behind(a: Bytes, b: Bytes, i: nat)
    requires i + 4 <= |b|
    ensures W(a + b, |a| + i) == W(b, i)
  {
  }

  lemma RelocsAreSeen(f: Bytes, o: nat, data: Bytes)
    requires Stands(f, o, Masked(data))
    ensures RelocsSeen(f, o, data)
  {
    forall j: nat {:trigger W(data, 8 * j)} | 8 * j + 8 <= |data|
      ensures W(f, o + 8 * j) == W(data, 8 * j) && W(f, o + 8 * j + 4) == W(data, 8 * j + 4) % 0x100
    {
      MaskedWords(data, j);
      ByteInside(f, o, Masked(data), 8 * j);
      ByteInside(f, o, Masked(data), 8 * j + 4);
    }
  }

  // ----- all of it -----

  lemma {:induction false} KeptIsCount(secs: seq<Section>, n: nat)
    requires n <= |secs|
    ensures Kept(secs, n) == |Survivors(secs, n)|
  {
    if n <= 1 {
      assert Survivors(secs, n) == {};
    } else {
      KeptIsCount(secs, n - 1);
      var before := Survivors(secs, n - 1);
      assert Survivors(secs, n) == if secs[n - 1].output then before + {n - 1} else before;
    }
  }

  // The layout behind a file that was written.
  lemma FileLaidOut(h: ElfHeader, secs: seq<Section>, modinfoAddr: u32, modFlags: u32, l: Layout, f: Bytes)
    requires Fits(secs) && l == LayoutOf(secs) && l.memSize < WORD && l.outSects < 0x1_0000
    requires f == PrxFile(h, secs, modinfoAddr, modFlags)
    ensures LaidOut(f, l) && ElfSeen(f, h) && SegmentSeen(f, modinfoAddr, modFlags)
  {
    PartsOfFile(h, secs, modinfoAddr, modFlags, l, f);
    ElfIsSeen(f, h, l);
    SizesAreTight(secs, true);
    SegmentWords(f, l, modinfoAddr, modFlags);
    SegmentIsSeen(f, l, modinfoAddr, modFlags);
    NamesHeaderSeen(f, secs, l, l.ShBase() + 40 * (l.outSects - 1));
  }

  lemma TableOf(f: Bytes, secs: seq<Section>, sh: nat, n: nat, at: nat, str: nat, name: nat)
    requires W(f, 32) == sh && HeaderCount(f) == n && H(f, 50) == n - 1 && at == sh + 40 * (n - 1)
    requires n == 2 + |Survivors(secs, |secs|)| && sh + 40 * n <= |f|
    requires forall k :: sh <= k < sh + 40 ==> f[k] == 0
    requires W(f, at + 4) == 3 && W(f, at + 16) == str && str + W(f, at + 20) == |f|
    requires name == str + W(f, at) && Stands(f, name, OwnName())
    ensures TableSeen(f, secs)
  {
    assert NameTable(f) == at;
  }

  lemma NamesStand(secs: seq<Section>, l: Layout, f: Bytes) returns (part: Bytes, names: Bytes, pad: nat)
    requires l == LayoutOf(secs) && |f| == l.Size() && f[l.ShStrBase()..l.Size()] == NamesPart(secs)
    ensures Stands(f, l.ShStrBase(), part) && part == [0] + names + SHSTRTAB + Zeros(pad + 1)
    ensures |names| == NameBytes(secs, |secs|)
  {
    var used := 1 + NameBytes(secs, |secs|);
    part, names, pad := NamesPart(secs), Names(secs, |secs|), Align4(used) - used;
  }

  lemma NameBehind(f: Bytes, str: nat, part: Bytes, names: Bytes, pad: nat, at: nat)
    requires Stands(f, str, part) && part == [0] + names + SHSTRTAB + Zeros(pad + 1) && at == str + 1 + |names|
    ensures Stands(f, at, OwnName())
  {
    var last: Bytes := [0x2e, 0x73, 0x68, 0x73, 0x74, 0x72, 0x74, 0x61, 0x62, 0];
    assert SHSTRTAB + [0] == last && Zeros(pad + 1) == [0] + Zeros(pad);
    LastPiece([0] + names, SHSTRTAB, Zeros(pad));
    StandsInside(f, str, part, 1 + |names|, SHSTRTAB + [0]);
  }

  lemma LastPiece(a: Bytes, b: Bytes, z: Bytes)
    ensures Stands(a + b + ([0] + z), |a|, b + [0])
  {
    Pieces(a, b + [0], z);
    assert a + b + ([0] + z) == a + (b + [0]) + z;
  }

  // The name that the header of the names leads to.
  lemma OwnNameSeen(secs: seq<Section>, l: Layout, f: Bytes, at: nat)
    requires l == LayoutOf(secs) && |f| == l.Size() && f[l.ShStrBase()..l.Size()] == NamesPart(secs)
    requires at == l.ShStrBase() + 1 + NameBytes(secs, |secs|)
    ensures Stands(f, at, OwnName())
  {
    var part, names, pad := NamesStand(secs, l, f);
    NameBehind(f, l.ShStrBase(), part, names, pad, at);
  }

  lemma TableFromParts(secs: seq<Section>, l: Layout, f: Bytes, at: nat)
    requires Fits(secs) && l == LayoutOf(secs) && LaidOut(f, l) && l.outSects < 0x1_0000 && |f| == l.Size()
    requires f[l.ShBase()..l.RelocBase()] == Zeros(40) + Headers(secs, |secs|) + WordsBytes(NamesHeader(secs))
    requires f[l.ShStrBase()..l.Size()] == NamesPart(secs) && at == l.ShBase() + 40 * (l.outSects - 1)
    ensures TableSeen(f, secs)
  {
    NamesHeaderSeen(f, secs, l, at);
    KeptIsCount(secs, |secs|);
    var name := l.ShStrBase() + W(f, at);
    OwnNameSeen(secs, l, f, name);
    TableOf(f, secs, l.ShBase(), l.outSects, at, l.ShStrBase(), name);
  }

  lemma TableIsSeen(h: ElfHeader, secs: seq<Section>, modinfoAddr: u32, modFlags: u32, l: Layout, f: Bytes)
    requires Fits(secs) && l == LayoutOf(secs) && l.memSize < WORD && l.outSects < 0x1_0000
    requires f == PrxFile(h, secs, modinfoAddr, modFlags) && LaidOut(f, l)
    ensures TableSeen(f, secs)
  {
    PartsOfFile(h, secs, modinfoAddr, modFlags, l, f);
    TableFromParts(secs, l, f, l.ShBase() + 40 * (l.outSects - 1));
  }

  // ----- one section -----

  lemma SlotOfIndex(secs: seq<Section>, i: nat, l: Layout)
    requires 0 < i < |secs| && l == LayoutOf(secs) && secs[i].output
    ensures 0 < 1 + Kept(secs, i) < l.outSects - 1
  {
    PrefixSums(secs, i, |secs|);
  }

  lemma HeaderInParts(secs: seq<Section>, l: Layout, f: Bytes, i: nat, at: nat)
    requires 0 < i < |secs| && Fits(secs) && secs[i].output && l == LayoutOf(secs) && |f| == l.Size()
    requires f[l.ShBase()..l.RelocBase()] == Zeros(40) + Headers(secs, |secs|) + WordsBytes(NamesHeader(secs))
    requires f[l.ShStrBase()..l.Size()] == NamesPart(secs) && at == l.ShBase() + 40 * (1 + Kept(secs, i))
    ensures Stands(f, at, WordsBytes(Header(secs, i)))
    ensures Stands(f, l.ShStrBase() + Header(secs, i)[0], secs[i].name + [0])
  {
    HeaderInFile(secs, i, l, f);
    NameInFile(secs, i, l, f);
  }

  // The words of its header, and its name.
  lemma HeaderFound(h: ElfHeader, secs: seq<Section>, modinfoAddr: u32, modFlags: u32, l: Layout, f: Bytes, i: nat,
                    at: nat)
    requires 0 < i < |secs| && Fits(secs) && secs[i].output && l == LayoutOf(secs)
    requires l.memSize < WORD && l.outSects < 0x1_0000 && f == PrxFile(h, secs, modinfoAddr, modFlags)
    requires at == l.ShBase() + 40 * (1 + Kept(secs, i))
    ensures Stands(f, at, WordsBytes(Header(secs, i)))
    ensures Stands(f, l.ShStrBase() + Header(secs, i)[0], secs[i].name + [0])
  {
    PartsOfFile(h, secs, modinfoAddr, modFlags, l, f);
    HeaderInParts(secs, l, f, i, at);
  }

  lemma HeaderIsSeen(secs: seq<Section>, f: Bytes, i: nat, at: nat, names: nat)
    requires 0 < i < |secs| && Fits(secs) && secs[i].output && Stands(f, at, WordsBytes(Header(secs, i)))
    requires Stands(f, names + Header(secs, i)[0], secs[i].name + [0])
    ensures DescribedAt(f, secs, i, at, names) && DataAt(f, at) == Place(secs, i)
  {
    TenWords(f, at, WordsBytes(Header(secs, i)), Header(secs, i));
  }

  // Its data.
  lemma DataIsSeen(h: ElfHeader, secs: seq<Section>, modinfoAddr: u32, modFlags: u32, l: Layout, f: Bytes, i: nat)
    requires 0 < i < |secs| && Fits(secs) && secs[i].output && l == LayoutOf(secs)
    requires l.memSize < WORD && l.outSects < 0x1_0000 && f == PrxFile(h, secs, modinfoAddr, modFlags)
    ensures FoundAt(f, secs, i, Place(secs, i), 96, l.allocSize, l.memSize)
  {
    RoomFor(secs, i, l);
    if secs[i].IsReloc() {
      RelocsFound(h, secs, modinfoAddr, modFlags, f, i);
    } else if secs[i].IsProgbits() && Alone(secs, i, |secs|) {
      DataOfSection(h, secs, modinfoAddr, modFlags, i);
    }
  }

  lemma RelocsFound(h: ElfHeader, secs: seq<Section>, modinfoAddr: u32, modFlags: u32, f: Bytes, i: nat)
    requires 0 < i < |secs| && Fits(secs) && secs[i].output && secs[i].IsReloc()
    requires LayoutOf(secs).memSize < WORD && LayoutOf(secs).outSects < 0x1_0000
    requires f == PrxFile(h, secs, modinfoAddr, modFlags)
    ensures RelocsSeen(f, Place(secs, i), secs[i].data)
  {
    assert secs[i].Sized();
    DataOfSection(h, secs, modinfoAddr, modFlags, i);
    RelocsAreSeen(f, Place(secs, i), secs[i].data);
  }

  lemma RoomFor(secs: seq<Section>, i: nat, l: Layout)
    requires 0 < i < |secs| && Fits(secs) && secs[i].output && l == LayoutOf(secs)
    ensures |secs[i].data| == secs[i].size || !(secs[i].IsReloc() || secs[i].IsProgbits())
    ensures !secs[i].IsReloc() ==> secs[i].addr + secs[i].size <= l.memSize
    ensures secs[i].IsProgbits() ==> secs[i].addr + secs[i].size <= l.allocSize && Place(secs, i) == 96 + secs[i].addr
    ensures !secs[i].IsReloc() && !secs[i].IsProgbits() ==> Place(secs, i) == 96 + l.allocSize
  {
    assert secs[i].Sized();
    SizesAreTight(secs, false);
    SizesAreTight(secs, true);
    assert !secs[i].IsReloc() ==> Loaded(secs[i], true);
    assert secs[i].IsProgbits() ==> Loaded(secs[i], false);
  }

  // ----- the order -----

  lemma RelocPlace(secs: seq<Section>, i: nat, k: nat)
    requires 0 < i < k <= |secs| && secs[i].output && secs[i].IsReloc()
    ensures RelocBytes(secs, i) + secs[i].size <= RelocBytes(secs, k)
  {
    PrefixSums(secs, i + 1, k);
  }

  lemma WhereSeen(f: Bytes, l: Layout, k: nat, at: nat)
    requires LaidOut(f, l) && at == l.ShBase() + 40 * k
    ensures HeaderAt(f, k) == at && W(f, NameTable(f) + 16) == l.ShStrBase() && Segment(f) == 52
    ensures W(f, Segment(f) + 4) == 96 && W(f, Segment(f) + 16) == l.allocSize && W(f, Segment(f) + 20) == l.memSize
  {
  }

  lemma RelocInOrder(secs: seq<Section>, l: Layout, i: nat, k: nat)
    requires 0 < i < k <= |secs| && Fits(secs) && l == LayoutOf(secs) && secs[i].output && IsRelocation(secs[i])
    ensures l.RelocBase() <= Place(secs, i) && Place(secs, i) + secs[i].size <= l.ShStrBase()
    ensures k < |secs| && secs[k].output && IsRelocation(secs[k]) ==>
      Place(secs, i) + secs[i].size <= Place(secs, k)
  {
    RelocPlace(secs, i, |secs|);
    RelocPlace(secs, i, k);
  }

  lemma PartsInOrder(f: Bytes, l: Layout)
    requires LaidOut(f, l)
    ensures W(f, Segment(f) + 4) + W(f, Segment(f) + 16) <= HeaderAt(f, 0)
    ensures HeaderAt(f, HeaderCount(f)) <= W(f, NameTable(f) + 16)
  {
    WhereSeen(f, l, 0, l.ShBase());
    WhereSeen(f, l, l.outSects, l.RelocBase());
  }

  lemma OneRelocSeen(f: Bytes, secs: seq<Section>, l: Layout, i: nat, o: nat)
    requires 0 < i < |secs| && Fits(secs) && l == LayoutOf(secs) && secs[i].output && IsRelocation(secs[i])
    requires LaidOut(f, l) && o == Place(secs, i)
    ensures HeaderAt(f, HeaderCount(f)) <= o && o + secs[i].size <= W(f, NameTable(f) + 16)
  {
    RelocInOrder(secs, l, i, |secs|);
    WhereSeen(f, l, l.outSects, l.RelocBase());
  }

  lemma OrderIsSeen(f: Bytes, secs: seq<Section>, l: Layout)
    requires Fits(secs) && l == LayoutOf(secs) && LaidOut(f, l)
    requires forall i :: 0 < i < |secs| && secs[i].output ==> DataAt(f, HeaderAt(f, secs[i].index)) == Place(secs, i)
    ensures InOrder(f, secs)
  {
    PartsInOrder(f, l);
    forall i | 0 < i < |secs| && secs[i].output && IsRelocation(secs[i])
      ensures var o := DataAt(f, HeaderAt(f, secs[i].index));
        HeaderAt(f, HeaderCount(f)) <= o && o + secs[i].size <= W(f, NameTable(f) + 16)
    {
      OneRelocSeen(f, secs, l, i, Place(secs, i));
    }
    forall i, k | 0 < i < k < |secs| && secs[i].output && IsRelocation(secs[i])
                  && secs[k].output && IsRelocation(secs[k])
      ensures DataAt(f, HeaderAt(f, secs[i].index)) + secs[i].size <= DataAt(f, HeaderAt(f, secs[k].index))
    {
      RelocInOrder(secs, l, i, k);
    }
  }

  lemma SlotSeen(secs: seq<Section>, f: Bytes, i: nat, l: Layout, at: nat, place: nat)
    requires i < |secs| && LaidOut(f, l) && 0 < secs[i].index < l.outSects - 1
    requires at == l.ShBase() + 40 * secs[i].index && DescribedAt(f, secs, i, at, l.ShStrBase())
    requires DataAt(f, at) == place
    ensures HeaderSeen(f, secs, i) && DataAt(f, HeaderAt(f, secs[i].index)) == place
  {
    WhereSeen(f, l, secs[i].index, at);
  }

  lemma HeaderInSlotSeen(secs: seq<Section>, l: Layout, f: Bytes, i: nat, at: nat)
    requires 0 < i < |secs| && Fits(secs) && Indexed(secs) && secs[i].output && l == LayoutOf(secs) && LaidOut(f, l)
    requires at == l.ShBase() + 40 * (1 + Kept(secs, i)) && Stands(f, at, WordsBytes(Header(secs, i)))
    requires Stands(f, l.ShStrBase() + Header(secs, i)[0], secs[i].name + [0])
    ensures HeaderSeen(f, secs, i) && DataAt(f, HeaderAt(f, secs[i].index)) == Place(secs, i)
  {
    HeaderIsSeen(secs, f, i, at, l.ShStrBase());
    SlotOfIndex(secs, i, l);
    SlotSeen(secs, f, i, l, at, Place(secs, i));
  }

  lemma SectionIsSeen(h: ElfHeader, secs: seq<Section>, modinfoAddr: u32, modFlags: u32, l: Layout, f: Bytes, i: nat)
    requires 0 < i < |secs| && Fits(secs) && Indexed(secs) && secs[i].output && l == LayoutOf(secs) && LaidOut(f, l)
    requires l.memSize < WORD && l.outSects < 0x1_0000 && f == PrxFile(h, secs, modinfoAddr, modFlags)
    ensures HeaderSeen(f, secs, i) && DataSeen(f, secs, i)
    ensures DataAt(f, HeaderAt(f, secs[i].index)) == Place(secs, i)
  {
    var at := l.ShBase() + 40 * (1 + Kept(secs, i));
    HeaderFound(h, secs, modinfoAddr, modFlags, l, f, i, at);
    HeaderInSlotSeen(secs, l, f, i, at);
    DataIsSeen(h, secs, modinfoAddr, modFlags, l, f, i);
    WhereSeen(f, l, secs[i].index, l.ShBase() + 40 * secs[i].index);
  }

  // Whatever sections fit, the file that is written is one that a loader can
  // follow from its first word to every section's own data.
  lemma FileIsLoadable(h: ElfHeader, secs: seq<Section>, modinfoAddr: u32, modFlags: u32, l: Layout, f: Bytes)
    requires Fits(secs) && Indexed(secs) && l == LayoutOf(secs) && l.memSize < WORD && l.outSects < 0x1_0000
    requires f == PrxFile(h, secs, modinfoAddr, modFlags)
    ensures Loadable(f, h, secs, modinfoAddr, modFlags)
  {
    FileLaidOut(h, secs, modinfoAddr, modFlags, l, f);
    TableIsSeen(h, secs, modinfoAddr, modFlags, l, f);
    forall i | 0 < i < |secs| && secs[i].output
      ensures HeaderSeen(f, secs, i) && DataSeen(f, secs, i)
      ensures DataAt(f, HeaderAt(f, secs[i].index)) == Place(secs, i)
    {
      SectionIsSeen(h, secs, modinfoAddr, modFlags, l, f, i);
    }
    OrderIsSeen(f, secs, l);
  }

  // psp-prxgen from the sections chosen to the file.
  method WriteModule(g: Generator, h: ElfHeader, modinfoAddr: u32, modFlags: u32) returns (data: array<u8>)
    requires g.sections != [] && !g.sections[0].output && Fits(g.sections)
    requires LayoutOf(g.sections).memSize < WORD && LayoutOf(g.sections).outSects < 0x1_0000
    modifies g
    ensures SameButIndex(old(g.sections), g.sections) && fresh(data)
    ensures Loadable(data[..], h, g.sections, modinfoAddr, modFlags)
  {
    data := g.ReindexAndOutput(h, modinfoAddr, modFlags);
    SameLayout(old(g.sections), g.sections);
    FileIsLoadable(h, g.sections, modinfoAddr, modFlags, LayoutOf(g.sections), data[..]);
  }
}
