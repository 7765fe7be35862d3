/** The packer and the reader together, and a reader that is used again. */
module CisoUse {
  import opened Bits
  import opened CisoReader
  import opened CisoTool
  import opened CisoRoundTrip

  // Open a file and read from it.
  method OpenRead(data: seq<u8>, zlib: Unpacker, lz4: Unpacker, mem: array<u8>, addr: nat, size: u32, offset: u32,
                  ghost image: seq<u8>) returns (o: OpenResult, r: u32)
    requires |data| >= HEADER_UNION_SIZE ==>
      && IsCompressedImage(data, zlib, lz4, image)
      && ISO_SECTOR_SIZE <= Le32(data, 16) < ISO_SECTOR_SIZE * (CISO_IDX_MAX_ENTRIES / 2 + 1)
    requires 0 < addr && addr + size <= mem.Length && (offset <= |image| ==> offset + size < WORD)
    modifies mem
    ensures o == if |data| < HEADER_UNION_SIZE then IoError else OpenResult.Ok
    ensures o == OpenResult.Ok ==> r == if offset > |image| then 0 else Min(size, |image| - offset)
    ensures o == OpenResult.Ok && r > 0 ==> mem[addr..addr + r] == image[offset..offset + r]
    ensures forall i :: 0 <= i < addr || addr + size <= i < mem.Length ==> mem[i] == old(mem[i])
  {
    var file := new CisoFile(data, true, zlib, lz4);
    r := 0;
    o := file.Open(image);
    if o == OpenResult.Ok {
      r := file.Read(mem, addr, size, offset, image);
    }
  }

  // What the packer writes, the reader opens and reads back, in any piece, where
  // the last block survives the rounding of its end; only a file shorter than
  // the largest of the three headers is refused.
  method PackOpenRead(image: seq<u8>, t: Settings, zlib: Unpacker, lz4: Unpacker, mem: array<u8>, addr: nat, size: u32,
                      offset: u32) returns (o: OpenResult, r: u32)
    requires t.Sane() && Undoes(zlib, t.deflate) && IsPow2(t.blockSize) && t.align < 31
    requires ISO_SECTOR_SIZE <= t.blockSize < ISO_SECTOR_SIZE * (CISO_IDX_MAX_ENTRIES / 2 + 1)
    requires 0 < |image| < WORD && Rem(|image|, t.blockSize) == 0
    requires t.Fits(Cut(image, t.blockSize), t.Base(Quot(|image|, t.blockSize))) && |t.Packed(image)| < WORD
    requires Survives(t, zlib, Last(image, t.blockSize), Rem(|t.Packed(image)|, Pow2(t.align)))
    requires 0 < addr && addr + size <= mem.Length && (offset <= |image| ==> offset + size < WORD)
    modifies mem
    ensures o == if |t.Packed(image)| < HEADER_UNION_SIZE then IoError else OpenResult.Ok
    ensures o == OpenResult.Ok ==> r == if offset > |image| then 0 else Min(size, |image| - offset)
    ensures o == OpenResult.Ok && r > 0 ==> mem[addr..addr + r] == image[offset..offset + r]
    ensures forall i :: 0 <= i < addr || addr + size <= i < mem.Length ==> mem[i] == old(mem[i])
  {
    var packed := CompressCso(image, t);
    if |t.Packed(image)| >= HEADER_UNION_SIZE {
      SmallUnits(t.align);
      PackedIsCompressedImage(image, t, zlib, lz4);
      PackedBlockSize(image, t);
    }
    o, r := OpenRead(packed.file, zlib, lz4, mem, addr, size, offset, image);
  }

  lemma SmallUnits(align: nat)
    requires align < 31
    ensures ISO_SECTOR_SIZE * (CISO_IDX_MAX_ENTRIES / 2 + 1) + Pow2(align) < TOP_BIT
  {
    Pow2Monotone(align, 30);
    Pow2Words();
    assert Pow2(31) == 2 * Pow2(30);
  }

  lemma PackedBlockSize(image: seq<u8>, t: Settings)
    requires t.Sane() && 0 < |image| < WORD && Rem(|image|, t.blockSize) == 0
    requires t.Fits(Cut(image, t.blockSize), t.Base(Quot(|image|, t.blockSize)))
    ensures |t.Packed(image)| >= 20 && Le32(t.Packed(image), 16) == t.blockSize
  {
    CutCount(image, t.blockSize);
    PackedFields(image, t);
  }

  // ----- a file object that is opened again -----

  // Opening another file over one whose whole index is in the cache leaves the
  // reader with that index: where the blocks of both files lie alike, it goes
  // on to read the first file's image.
  method OpenOver(file: CisoFile, data: seq<u8>, ghost image: seq<u8>, ghost l: Layout, ghost n: nat)
    returns (o: OpenResult)
    requires file.Ready(l, n) && file.data == l.data && file.idxStartBlock == 0 && 0 < n && n + 2 < file.idxCacheNum
    requires IsCompressedImage(data, file.zlib, file.lz4, image)
    requires HeaderLayout(data, file.zlib, file.lz4).(data := l.data) == l && SameBlocks(data, l, n)
    modifies file
    ensures o == OpenResult.Ok && file.Ready(l, n) && file.uncompressedSize == |image|
    ensures file.blockBuf == old(file.blockBuf) && file.decBuf == old(file.decBuf)
    ensures file.idxCache == old(file.idxCache)
  {
    file.data := data;
    o := file.Open(image);
  }

  // Two files that differ in their index only: a plain sector of ones, and
  // behind it one of twos, of which the index leads to one.
  const SECTOR := 2048

  function Filled(x: u8): (s: seq<u8>)
    ensures |s| == SECTOR && Cut(s, SECTOR) == [s]
  {
    seq(SECTOR, _ => x)
  }

  function Front(): (h: seq<u8>)
    ensures |h| == 24
  {
    Word(CSO_MAGIC) + Word(24) + Word(SECTOR) + Word(0) + Word(SECTOR) + [1, 0, 0, 0]
  }

  const ONES := 32
  const TWOS := 2080

  function FileOf(start: nat): (f: seq<u8>)
    requires start == ONES || start == TWOS
    ensures |f| == 4128
  {
    Front() + Word(TOP_BIT + start) + Word(TOP_BIT + start + SECTOR) + (Filled(1) + Filled(2))
  }

  lemma FrontFields(rest: seq<u8>)
    ensures var f := Front() + rest;
      && Le32(f, 0) == CSO_MAGIC && Le32(f, 8) == SECTOR && Le32(f, 16) == SECTOR && f[20] == 1 && f[21] == 0
  {
    WordRoundTrip(CSO_MAGIC);
    WordRoundTrip(SECTOR);
    var f := Front() + rest;
    assert f[0..4] == Word(CSO_MAGIC) && f[8..12] == Word(SECTOR) && f[16..20] == Word(SECTOR);
    Le32Slice(f, 0);
    Le32Slice(f, 8);
    Le32Slice(f, 16);
  }

  lemma FileFields(start: nat)
    requires start == ONES || start == TWOS
    ensures var f := FileOf(start);
      && Le32(f, 0) == CSO_MAGIC && Le32(f, 8) == SECTOR && Le32(f, 16) == SECTOR && f[20] == 1 && f[21] == 0
      && Le32(f, 24) == TOP_BIT + start && Le32(f, 28) == TOP_BIT + start + SECTOR
      && f[ONES..TWOS] == Filled(1) && f[TWOS..] == Filled(2)
  {
    var e0, e1, body, f := Word(TOP_BIT + start), Word(TOP_BIT + start + SECTOR), Filled(1) + Filled(2), FileOf(start);
    assert f == Front() + (e0 + e1 + body);
    FrontFields(e0 + e1 + body);
    WordRoundTrip(TOP_BIT + start);
    WordRoundTrip(TOP_BIT + start + SECTOR);
    assert f[24..28] == e0 && f[28..32] == e1;
    Le32Slice(f, 24);
    Le32Slice(f, 28);
  }

  function Held(start: nat): (x: u8) { if start == ONES then 1 else 2 }

  function LayoutOf(start: nat, zlib: Unpacker, lz4: Unpacker): Layout
    requires start == ONES || start == TWOS
  {
    Layout(FileOf(start), 24, SECTOR, 0, SECTOR + 1, CisoV1, zlib, lz4)
  }

  lemma SectorIsPow2()
    ensures IsPow2(SECTOR) && IndexEntries(SECTOR) == CISO_IDX_MAX_ENTRIES
  {
    assert Pow2(11) == SECTOR by {
      assert Pow2(3) == 8 && Pow2(6) == 64 && Pow2(9) == 512;
    }
    QuotIsDiv(CISO_IDX_MAX_ENTRIES, 1);
  }

  lemma OneBlockStored(start: nat, zlib: Unpacker, lz4: Unpacker)
    requires start == ONES || start == TWOS
    ensures var l := LayoutOf(start, zlib, lz4);
      l.Start(0) == start && l.Stores([Filled(Held(start))])
  {
    FileFields(start);
    SectorIsPow2();
    PlainBlockStored(LayoutOf(start, zlib, lz4), start, Filled(Held(start)));
  }

  // A plain block of one sector.
  lemma PlainBlockStored(l: Layout, start: nat, block: seq<u8>)
    requires l.blockSize == SECTOR && l.comSize == SECTOR + 1 && l.align == 0 && l.codec == CisoV1 && l.headerSize == 24
    requires l.Geometry(1) && l.Entry(0) == TOP_BIT + start && l.Entry(1) == TOP_BIT + start + SECTOR
    requires start + SECTOR <= |l.data| && l.data[start..start + SECTOR] == block
    ensures l.Start(0) == start && l.Stores([block])
  {
    TopDropped(l.Entry(0), start);
    TopDropped(l.Entry(1), start + SECTOR);
    BlockBetween(l, block);
  }

  lemma TopDropped(e: nat, start: nat)
    requires e == TOP_BIT + start && start < TOP_BIT
    ensures Shl(e % TOP_BIT, 0) == start
  {
  }

  lemma BlockBetween(l: Layout, block: seq<u8>)
    requires l.Geometry(1) && l.codec == CisoV1 && l.Entry(0) >= TOP_BIT && l.Start(0) <= l.Start(1) <= |l.data|
    requires l.Start(1) - l.Start(0) <= l.comSize && block == l.data[l.Start(0)..l.Start(1)]
    ensures l.Stores([block])
  {
    assert l.StoredBlock([block], 0);
  }

  lemma FileHolds(start: nat, zlib: Unpacker, lz4: Unpacker)
    requires start == ONES || start == TWOS
    ensures HeaderLayout(FileOf(start), zlib, lz4) == LayoutOf(start, zlib, lz4)
    ensures LayoutOf(start, zlib, lz4).Encodes(Filled(Held(start)))
    ensures IsCompressedImage(FileOf(start), zlib, lz4, Filled(Held(start)))
  {
    FileFields(start);
    OneBlockStored(start, zlib, lz4);
  }

  // The first of them opened, and a byte read.
  method UseFirst(zlib: Unpacker, lz4: Unpacker, mem: array<u8>) returns (file: CisoFile)
    requires mem.Length >= 2
    modifies mem
    ensures fresh(file) && file.allocates && file.zlib == zlib && file.lz4 == lz4 && file.Valid(Filled(1))
    ensures file.Disk() == LayoutOf(ONES, zlib, lz4) && file.idxStartBlock == 0
    ensures file.idxCacheNum == CISO_IDX_MAX_ENTRIES
    ensures fresh(file.blockBuf) && fresh(file.decBuf) && fresh(file.idxCache)
  {
    FileHolds(ONES, zlib, lz4);
    SectorIsPow2();
    FileFields(ONES);
    file := new CisoFile(FileOf(ONES), true, zlib, lz4);
    var o := file.Open(Filled(1));
    var r := file.Read(mem, 1, 1, 0, Filled(1));
  }

  lemma SameBehindIndex(zlib: Unpacker, lz4: Unpacker)
    ensures LayoutOf(ONES, zlib, lz4).Geometry(1) && SameBlocks(FileOf(TWOS), LayoutOf(ONES, zlib, lz4), 1)
    ensures LayoutOf(TWOS, zlib, lz4).(data := FileOf(ONES)) == LayoutOf(ONES, zlib, lz4)
  {
    OneBlockStored(ONES, zlib, lz4);
    assert FileOf(ONES)[ONES..] == Filled(1) + Filled(2) == FileOf(TWOS)[ONES..];
  }

  // Then the second: its first byte comes out as that of the first file.
  method Reopen(zlib: Unpacker, lz4: Unpacker, mem: array<u8>) returns (o: OpenResult, r: u32)
    requires mem.Length >= 2
    modifies mem
    ensures IsCompressedImage(FileOf(TWOS), zlib, lz4, Filled(2))
    ensures o == OpenResult.Ok && r == 1 && mem[1] != Filled(2)[0]
  {
    FileHolds(TWOS, zlib, lz4);
    FileHolds(ONES, zlib, lz4);
    SameBehindIndex(zlib, lz4);
    var file := UseFirst(zlib, lz4, mem);
    o := OpenOver(file, FileOf(TWOS), Filled(2), LayoutOf(ONES, zlib, lz4), 1);
    r := file.ReadWith(mem, 1, 1, 0, Filled(1), LayoutOf(ONES, zlib, lz4));
    assert mem[1] == mem[1..2][0] == Filled(1)[0];
  }

  // Closed in between, it comes out right.
  method CloseAndReopen(zlib: Unpacker, lz4: Unpacker, mem: array<u8>) returns (o: OpenResult, r: u32)
    requires mem.Length >= 2
    modifies mem
    ensures o == OpenResult.Ok && r == 1 && mem[1] == Filled(2)[0]
  {
    FileHolds(TWOS, zlib, lz4);
    FileFields(TWOS);
    var file := UseFirst(zlib, lz4, mem);
    file.Close();
    file.data := FileOf(TWOS);
    o := file.Open(Filled(2));
    r := file.Read(mem, 1, 1, 0, Filled(2));
    assert mem[1] == mem[1..2][0];
  }
}
