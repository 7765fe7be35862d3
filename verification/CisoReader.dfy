/** The compressed-ISO reader for CISO and ZISO files: block index, index cache,
    and the chunk pre-reading into the tail of the caller's own buffer. */
module CisoReader {
  import opened Bits

  const TOP_BIT := 0x8000_0000
  const OFFSET_MASK := 0x7FFF_FFFF

  // CISO version 1 (deflate), ZISO (LZ4), and CISO version 2 (both).
  datatype Codec = CisoV1 | ZisoV1 | CisoV2

  // What zlib_inflate and LZ4_decompress_fast write for a source buffer.
  type Unpacker = seq<u8> -> seq<u8>

  // An image cut into blocks; only the last block may be short.
  function Cut(image: seq<u8>, blockSize: nat): (blocks: seq<seq<u8>>)
    requires blockSize > 0
    ensures forall b :: 0 <= b < |blocks| ==> 0 < |blocks[b]| <= blockSize
  {
    if image == [] then []
    else if |image| <= blockSize then [image]
    else [image[..blockSize]] + Cut(image[blockSize..], blockSize)
  }

  /** Everything the reader knows about an open file, as a value. */
  datatype Layout = Layout(
    data: seq<u8>, headerSize: nat, blockSize: nat, align: nat,
    comSize: nat, codec: Codec, zlib: Unpacker, lz4: Unpacker)
  {
    function Entry(b: nat): u32
      requires headerSize + 4 * b + 4 <= |data|
    {
      Le32(data, headerSize + 4 * b)
    }

    function Start(b: nat): nat
      requires headerSize + 4 * b + 4 <= |data|
    {
      Shl(Entry(b) % TOP_BIT, align)
    }

    // A stored span, read with its top bit, yields the block whatever follows it.
    ghost predicate Decodes(span: seq<u8>, top: bool, plain: seq<u8>)
    {
      match codec
      case CisoV1 => if top then plain <= span else Unpacks(zlib, span, plain)
      case ZisoV1 => if top then plain <= span else Unpacks(lz4, span, plain)
      case CisoV2 =>
        if |span| >= blockSize then plain <= span
        else if top then Unpacks(lz4, span, plain)
        else Unpacks(zlib, span, plain)
    }

    // The index has an entry for each of n blocks and one past the last.
    ghost predicate Geometry(n: nat)
    {
      && IsPow2(blockSize)
      && blockSize <= comSize < TOP_BIT
      && |data| < WORD
      && headerSize + 4 * n + 4 <= |data|
    }

    ghost predicate StoredBlock(blocks: seq<seq<u8>>, b: nat)
      requires Geometry(|blocks|) && b < |blocks|
    {
      && Start(b) <= Start(b + 1) <= |data|
      && Start(b + 1) - Start(b) <= comSize
      && Decodes(data[Start(b)..Start(b + 1)], Entry(b) >= TOP_BIT, blocks[b])
    }

    ghost predicate Stores(blocks: seq<seq<u8>>)
    {
      && Geometry(|blocks|)
      && forall b: nat | b < |blocks| :: StoredBlock(blocks, b)
    }

    /** The file is a well-formed compressed form of `image`. */
    ghost predicate Encodes(image: seq<u8>)
    {
      blockSize > 0 && |image| < WORD && Stores(Cut(image, blockSize))
    }
  }

  // The decompressor reproduces `plain` from any source that begins with `span`.
  ghost predicate Unpacks(f: Unpacker, span: seq<u8>, plain: seq<u8>)
  {
    forall src: seq<u8> :: span <= src ==> plain <= f(src)
  }

  lemma {:induction false} StartMonotone(l: Layout, blocks: seq<seq<u8>>, a: nat, b: nat)
    requires l.Stores(blocks) && a <= b <= |blocks|
    ensures l.Start(a) <= l.Start(b)
    ensures blocks != [] ==> l.Start(b) <= |l.data|
    decreases b - a
  {
    if a < b {
      StartMonotone(l, blocks, a, b - 1);
      assert l.StoredBlock(blocks, b - 1);
    } else if b < |blocks| {
      assert l.StoredBlock(blocks, b);
    } else if b > 0 {
      assert l.StoredBlock(blocks, b - 1);
    }
  }

  // A request at `offset` begins inside block offset / blockSize, takes one
  // piece of it, and goes on at the start of the next block.
  ghost predicate PieceAt(image: seq<u8>, bs: nat, blocks: seq<seq<u8>>, offset: nat, size: nat)
    requires bs > 0 && size > 0 && offset + size <= |image|
  {
    var b, pos := Quot(offset, bs), Rem(offset, bs);
    var k := Min(size, bs - pos);
    && b < |blocks| && pos + k <= |blocks[b]| <= bs
    && blocks[b][pos..pos + k] == image[offset..offset + k]
    && (k < size ==> Quot(offset + k, bs) == b + 1 && b + 1 < |blocks|)
  }

  lemma {:induction false} PieceOfBlock(image: seq<u8>, bs: nat, offset: nat, size: nat)
    requires bs > 0 && size > 0 && offset + size <= |image|
    ensures PieceAt(image, bs, Cut(image, bs), offset, size)
    decreases offset
  {
    if offset >= bs {
      var rest := image[bs..];
      PieceOfBlock(rest, bs, offset - bs, size);
      PieceShift(image, bs, Cut(rest, bs), offset, size);
    } else {
      assert Quot(offset, bs) == 0;
      if offset + size > bs {
        assert Cut(image, bs)[1..] == Cut(image[bs..], bs);
        assert Quot(bs, bs) == 1 + Quot(0, bs);
      }
    }
  }

  // One block more in front moves every piece by one block.
  lemma PieceShift(image: seq<u8>, bs: nat, tail: seq<seq<u8>>, offset: nat, size: nat)
    requires 0 < bs <= offset && size > 0 && offset + size <= |image|
    requires PieceAt(image[bs..], bs, tail, offset - bs, size)
    ensures PieceAt(image, bs, [image[..bs]] + tail, offset, size)
  {
    var blocks := [image[..bs]] + tail;
    var k := Min(size, bs - Rem(offset, bs));
    assert Quot(offset, bs) == 1 + Quot(offset - bs, bs) && Rem(offset, bs) == Rem(offset - bs, bs);
    assert image[bs..][offset - bs..offset - bs + k] == image[offset..offset + k];
    assert blocks[Quot(offset, bs)] == tail[Quot(offset - bs, bs)];
    assert k < size ==> Quot(offset + k, bs) == 1 + Quot(offset - bs + k, bs);
  }

  // A request that ends at `offset` ends inside the index.
  ghost predicate EndsAt(image: seq<u8>, bs: nat, blocks: seq<seq<u8>>, offset: nat)
    requires bs > 0
  {
    Quot(offset, bs) <= |blocks|
  }

  // All that the read loop needs to know about an image and its blocks.
  ghost predicate Tiles(image: seq<u8>, bs: nat, blocks: seq<seq<u8>>)
    requires bs > 0
  {
    && (forall o: nat | o <= |image| :: EndsAt(image, bs, blocks, o))
    && forall o: nat, n: nat | n > 0 && o + n <= |image| :: PieceAt(image, bs, blocks, o, n)
  }

  lemma CutTiles(image: seq<u8>, bs: nat)
    requires bs > 0
    ensures Tiles(image, bs, Cut(image, bs))
  {
    forall o: nat | o <= |image|
      ensures EndsAt(image, bs, Cut(image, bs), o)
    {
      QuotInIndex(image, bs, o);
    }
    forall o: nat, n: nat | n > 0 && o + n <= |image|
      ensures PieceAt(image, bs, Cut(image, bs), o, n)
    {
      PieceOfBlock(image, bs, o, n);
    }
  }

  lemma {:induction false} QuotMonotone(a: nat, b: nat, d: nat)
    requires a <= b && d > 0
    ensures Quot(a, d) <= Quot(b, d)
  {
    if a >= d { QuotMonotone(a - d, b - d, d); }
  }

  // The index has an entry for the block at the end of any request.
  lemma {:induction false} QuotInIndex(image: seq<u8>, bs: nat, offset: nat)
    requires bs > 0 && offset <= |image|
    ensures Quot(offset, bs) <= |Cut(image, bs)|
    decreases offset
  {
    if offset >= bs {
      QuotInIndex(image[bs..], bs, offset - bs);
      if |image| == bs { assert offset - bs == 0; }
    }
  }

  // offset & (block_size - 1) in the reader is the position inside the block.
  lemma PositionInBlock(offset: nat, bs: nat)
    requires IsPow2(bs)
    ensures And(offset, bs - 1) == Rem(offset, bs)
  {
    var k: nat :| bs == Pow2(k);
    AndLowMask(offset, k);
    QuotIsDiv(offset, bs);
  }

  // ... and that holds for every offset only when the block size is a power of two.
  lemma MaskIsPosition(bs: nat)
    requires bs > 0
    ensures (forall offset: nat :: And(offset, bs - 1) == Rem(offset, bs)) <==> IsPow2(bs)
  {
    if IsPow2(bs) {
      forall offset: nat
        ensures And(offset, bs - 1) == Rem(offset, bs)
      {
        PositionInBlock(offset, bs);
      }
    } else {
      AndPredecessor(bs);
      assert And(bs, bs - 1) != Rem(bs, bs);
    }
  }

  // The size adjustment of a read, with the 32-bit sum the reader computes.
  function ClampedSize(size: u32, offset: u32, total: u32): u32
    requires offset <= total
  {
    if (offset + size) % WORD > total then total - offset else size
  }

  // It stops at the end of the image exactly when that sum does not wrap.
  lemma ClampIsExact(size: u32, offset: u32, total: u32)
    requires offset <= total
    ensures ClampedSize(size, offset, total) == Min(size, total - offset) <==> offset + size < WORD
  {
    if offset + size >= WORD {
      assert (offset + size) % WORD == offset + size - WORD < offset;
    }
  }

  // (entry & 0x7FFFFFFF) << align on 32-bit words
  function FileOffset(entry: u32, align: nat): u32
  {
    Shl(And(entry, OFFSET_MASK), align) % WORD
  }

  lemma FileOffsetIsStart(l: Layout, blocks: seq<seq<u8>>, b: nat)
    requires l.Stores(blocks) && blocks != [] && b <= |blocks|
    ensures FileOffset(l.Entry(b), l.align) == l.Start(b) <= |l.data|
  {
    StartMonotone(l, blocks, b, b);
    AndLow31(l.Entry(b));
  }

  function CacheEntry(cache: seq<u8>, i: nat): u32
    requires 4 * i + 4 <= |cache|
  {
    Le32(cache, 4 * i)
  }

  // The cached window agrees with the index wherever the index has an entry.
  ghost predicate Cached(l: Layout, blocks: nat, cache: seq<u8>, start: int, num: nat)
    requires l.Geometry(blocks) && |cache| >= 4 * num
  {
    start >= 0 ==>
      forall i: nat :: i < num && start + i <= blocks ==> CacheEntry(cache, i) == l.Entry(start + i)
  }

  // A window kept from another index is found out by any entry that differs.
  lemma StaleWindow(l: Layout, m: Layout, blocks: nat, cache: seq<u8>, start: nat, num: nat, i: nat)
    requires l.Geometry(blocks) && m.Geometry(blocks) && |cache| >= 4 * num && i < num && start + i <= blocks
    requires Cached(l, blocks, cache, start, num) && l.Entry(start + i) != m.Entry(start + i)
    ensures !Cached(m, blocks, cache, start, num)
  {
    assert CacheEntry(cache, i) == l.Entry(start + i);
  }

  method ReadData(data: seq<u8>, buf: array<u8>, at: nat, size: nat, offset: nat) returns (n: nat)
    requires at + size <= buf.Length
    modifies buf
    ensures n == if offset >= |data| then 0 else Min(size, |data| - offset)
    ensures forall i :: at <= i < at + n ==> buf[i] == data[offset + i - at]
    ensures forall i :: 0 <= i < at || at + n <= i < buf.Length ==> buf[i] == old(buf[i])
  {
    n := if offset >= |data| then 0 else Min(size, |data| - offset);
    forall i | at <= i < at + n { buf[i] := data[offset + i - at]; }
  }

  method Copy(dst: array<u8>, at: nat, src: array<u8>, from: nat, n: nat)
    requires dst != src && at + n <= dst.Length && from + n <= src.Length
    modifies dst
    ensures forall i :: at <= i < at + n ==> dst[i] == src[from + i - at]
    ensures forall i :: 0 <= i < at || at + n <= i < dst.Length ==> dst[i] == old(dst[i])
  {
    forall i | at <= i < at + n { dst[i] := src[from + i - at]; }
  }

  // The part of the caller's buffer from cBuf up to top still holds the file
  // from position `from` on, wherever output has not overwritten it.
  ghost predicate InSync(data: seq<u8>, mem: array<u8>, addr: nat, cBuf: nat, top: nat, from: nat)
    requires top <= mem.Length
    reads mem
  {
    0 < cBuf <= top ==>
      && from + (top - cBuf) <= |data|
      && forall j :: cBuf <= j < top && addr <= j ==> mem[j] == data[from + j - cBuf]
  }

  // Pull one stored span into blockBuf: from the chunk at the end of the
  // caller's buffer while it is still there, otherwise from the file, reading a
  // new chunk first when enough of the request is left.
  method FetchSpan(data: seq<u8>, mem: array<u8>, blockBuf: array<u8>, addr: nat, size: nat, top: nat,
                   cBuf0: nat, bOffset: u32, bSize: u32, blockSize: u32, oEnd: u32) returns (cBuf: nat, n: nat)
    requires mem != blockBuf && 0 < addr && 0 < size && addr + size <= top <= mem.Length
    requires bSize <= blockBuf.Length && bOffset + bSize <= |data| && bOffset <= oEnd <= |data|
    requires 0 < blockSize && InSync(data, mem, addr, cBuf0, top, bOffset)
    modifies mem, blockBuf
    ensures n == bSize && blockBuf[..bSize] == data[bOffset..bOffset + bSize]
    ensures InSync(data, mem, addr, cBuf, top, bOffset + bSize)
    ensures forall i :: 0 <= i < addr || top <= i < mem.Length ==> mem[i] == old(mem[i])
  {
    cBuf, n := cBuf0, bSize;
    if cBuf < addr || cBuf + bSize > top {
      if size > bSize + blockSize {
        var compressedSize: u32 := Sub32(oEnd, bOffset);
        if size < compressedSize { compressedSize := size - blockSize; }
        if compressedSize >= bSize {
          cBuf := top - compressedSize;
          var _ := ReadData(data, mem, cBuf, compressedSize, bOffset);
        }
      }
    }
    if cBuf >= addr && cBuf + bSize <= top {
      Copy(blockBuf, 0, mem, cBuf, bSize);
      cBuf := cBuf + bSize;
    } else {
      n := ReadData(data, blockBuf, 0, bSize, bOffset);
      if cBuf != 0 { cBuf := cBuf + n; }
    }
  }

  datatype OpenResult = Ok | IoError | NotValid

  const CSO_MAGIC := 0x4F534943
  const ZSO_MAGIC := 0x4F53495A
  const DAX_MAGIC := 0x00584144
  const JSO_MAGIC := 0x4F53494A
  const HEADER_UNION_SIZE := 48  // the largest of the three header structs
  const ISO_SECTOR_SIZE := 2048
  const CISO_IDX_MAX_ENTRIES := 2048

  // What a CISO or ZISO header of 24 bytes says about the file.
  function HeaderLayout(data: seq<u8>, zlib: Unpacker, lz4: Unpacker): Layout
    requires |data| >= HEADER_UNION_SIZE
  {
    var blockSize, align := Le32(data, 16), data[21];
    Layout(data, 24, blockSize, align, blockSize + Shl(1, align),
           if data[20] == 2 then CisoV2 else if Le32(data, 0) == ZSO_MAGIC then ZisoV1 else CisoV1, zlib, lz4)
  }

  /** A CISO or ZISO file that stores `image`. */
  ghost predicate IsCompressedImage(data: seq<u8>, zlib: Unpacker, lz4: Unpacker, image: seq<u8>)
  {
    && |data| >= HEADER_UNION_SIZE
    && (Le32(data, 0) == CSO_MAGIC || Le32(data, 0) == ZSO_MAGIC)
    && Le32(data, 8) == |image|
    && HeaderLayout(data, zlib, lz4).Encodes(image)
  }

  // The entries of an index cache that is allocated for a block size.
  function IndexEntries(blockSize: nat): nat
    requires blockSize >= ISO_SECTOR_SIZE
  {
    Quot(CISO_IDX_MAX_ENTRIES, blockSize / ISO_SECTOR_SIZE)
  }

  // There is room for two, which reading a block takes, exactly for block sizes
  // of less than 1025 sectors.
  lemma IndexCacheBound(blockSize: nat)
    requires blockSize >= ISO_SECTOR_SIZE
    ensures IndexEntries(blockSize) >= 2 <==> blockSize < ISO_SECTOR_SIZE * (CISO_IDX_MAX_ENTRIES / 2 + 1)
  {
    QuotIsDiv(CISO_IDX_MAX_ENTRIES, blockSize / ISO_SECTOR_SIZE);
    TwoFit(blockSize / ISO_SECTOR_SIZE);
  }

  lemma TwoFit(ratio: nat)
    requires ratio > 0
    ensures CISO_IDX_MAX_ENTRIES / ratio >= 2 <==> 2 * ratio <= CISO_IDX_MAX_ENTRIES
  {
    var q := CISO_IDX_MAX_ENTRIES / ratio;
    assert q * ratio <= CISO_IDX_MAX_ENTRIES < q * ratio + ratio;
    if q >= 2 { MulAtLeast(ratio, q); }
  }

  // Where the data is as in l from the first block on, so is every block.
  ghost predicate SameBlocks(data: seq<u8>, l: Layout, n: nat)
    requires l.Geometry(n)
  {
    data == l.data
    || (|data| == |l.data| && l.Start(0) <= |data| && data[l.Start(0)..] == l.data[l.Start(0)..])
  }

  lemma SameSpan(data: seq<u8>, l: Layout, blocks: seq<seq<u8>>, b: nat)
    requires l.Stores(blocks) && b < |blocks| && SameBlocks(data, l, |blocks|)
    ensures l.Start(b) <= l.Start(b + 1) <= |l.data| == |data|
    ensures data[l.Start(b)..l.Start(b + 1)] == l.data[l.Start(b)..l.Start(b + 1)]
  {
    StartMonotone(l, blocks, 0, b);
    StartMonotone(l, blocks, b, b + 1);
    if data != l.data {
      var p, i, j := l.Start(0), l.Start(b), l.Start(b + 1);
      assert data[i..j] == data[p..][i - p..j - p] && l.data[i..j] == l.data[p..][i - p..j - p];
    }
  }

  class CisoFile {
    var data: seq<u8>       // what read_data delivers
    const allocates: bool   // memalign and free are given
    const zlib: Unpacker
    const lz4: Unpacker
    var codec: Codec
    var blockBuf: array?<u8>
    var decBuf: array?<u8>
    var idxCache: array?<u8>
    var idxStartBlock: int
    var idxCacheNum: nat
    var headerSize: u32
    var blockSize: u32
    var uncompressedSize: u32
    var align: nat
    var totalBlocks: nat
    var comSize: nat

    ghost function Disk(): Layout
      reads this
    {
      Layout(data, headerSize, blockSize, align, comSize, codec, zlib, lz4)
    }

    ghost predicate Buffers()
      reads this
    {
      && blockBuf != null && decBuf != null && idxCache != null
      && blockBuf != decBuf && blockBuf != idxCache && decBuf != idxCache
      && blockBuf.Length >= comSize && decBuf.Length >= comSize
      && idxCacheNum >= 2 && idxCache.Length >= 4 * idxCacheNum
    }

    // The buffers and the window that are there already serve a file with index
    // l of n blocks; those that are missing will be allocated, an index cache
    // for as many entries as the block size leaves.
    ghost predicate Usable(l: Layout, n: nat)
      reads this, idxCache
      requires l.Geometry(n)
    {
      && (idxCache == null ==> ISO_SECTOR_SIZE <= l.blockSize < ISO_SECTOR_SIZE * (CISO_IDX_MAX_ENTRIES / 2 + 1))
      && (blockBuf != null ==> blockBuf.Length >= l.comSize && blockBuf != idxCache)
      && (decBuf != null ==> decBuf.Length >= l.comSize && decBuf != idxCache && decBuf != blockBuf)
      && (idxCache != null ==>
            && idxCacheNum >= 2 && idxCache.Length >= 4 * idxCacheNum
            && Cached(l, n, idxCache[..], idxStartBlock, idxCacheNum))
    }

    constructor (data: seq<u8>, allocates: bool, zlib: Unpacker, lz4: Unpacker)
      ensures this.data == data && this.allocates == allocates && this.zlib == zlib && this.lz4 == lz4
      ensures blockBuf == null && decBuf == null && idxCache == null && idxStartBlock == -1
    {
      this.data, this.allocates, this.zlib, this.lz4 := data, allocates, zlib, lz4;
      blockBuf, decBuf, idxCache, idxStartBlock := null, null, null, -1;
      codec, idxCacheNum, headerSize, blockSize := CisoV1, 0, 0, 0;
      uncompressedSize, align, totalBlocks, comSize := 0, 0, 0, 0;
    }

    // Which buffers are new: those that were missing. An index cache that is
    // there keeps its size and its window.
    twostate predicate Allocated()
      reads this
    {
      && (if old(blockBuf) == null then blockBuf != null && fresh(blockBuf) else blockBuf == old(blockBuf))
      && (if old(decBuf) == null then decBuf != null && fresh(decBuf) else decBuf == old(decBuf))
      && (if old(idxCache) == null
          then idxCache != null && fresh(idxCache) && idxStartBlock == -1 && blockSize >= ISO_SECTOR_SIZE
               && idxCacheNum == IndexEntries(blockSize)
          else idxCache == old(idxCache) && idxStartBlock == old(idxStartBlock) && idxCacheNum == old(idxCacheNum))
    }

    // Count the blocks, and allocate the buffers that are missing. Reading is
    // safe afterwards exactly when what was there fits.
    method FinishOpen(ghost image: seq<u8>)
      requires Disk().Encodes(image) && uncompressedSize == |image|
      requires allocates || (blockBuf != null && decBuf != null && idxCache != null)
      requires idxCache == null ==> blockSize >= ISO_SECTOR_SIZE
      modifies `totalBlocks, `decBuf, `blockBuf, `idxCacheNum, `idxCache, `idxStartBlock
      ensures Valid(image) <==> old(Usable(Disk(), |Cut(image, blockSize)|))
      ensures Allocated()
    {
      totalBlocks := Quot(uncompressedSize, blockSize);
      ghost var fit := Usable(Disk(), |Cut(image, blockSize)|);
      AllocateMissing();
      assert old(idxCache) == null ==> Cached(Disk(), |Cut(image, blockSize)|, idxCache[..], -1, idxCacheNum);
      assert Ready(Disk(), |Cut(image, blockSize)|) <==> fit;
    }

    method AllocateMissing()
      requires idxCache == null ==> blockSize >= ISO_SECTOR_SIZE
      modifies `decBuf, `blockBuf, `idxCacheNum, `idxCache, `idxStartBlock
      ensures Allocated()
      ensures old(blockBuf) == null ==> blockBuf.Length == comSize
      ensures old(decBuf) == null ==> decBuf.Length == comSize
      ensures blockBuf != null && decBuf != null && idxCache != null
      ensures old(decBuf) == null ==> decBuf != blockBuf && decBuf != idxCache
      ensures old(blockBuf) == null ==> decBuf != blockBuf && blockBuf != idxCache
      ensures old(idxCache) == null ==> decBuf != idxCache && blockBuf != idxCache
      ensures old(idxCache) == null ==>
        && idxCache.Length == 4 * idxCacheNum
        && (idxCacheNum >= 2 <==> blockSize < ISO_SECTOR_SIZE * (CISO_IDX_MAX_ENTRIES / 2 + 1))
    {
      if decBuf == null { decBuf := new u8[comSize]; }
      if blockBuf == null { blockBuf := new u8[comSize]; }
      if idxCache == null {
        var ratio := blockSize / ISO_SECTOR_SIZE;
        idxCacheNum := Quot(CISO_IDX_MAX_ENTRIES, ratio);
        IndexCacheBound(blockSize);
        idxCache := new u8[idxCacheNum * 4];
        idxStartBlock := -1;
      }
    }

    // ciso_close: what was allocated is freed, and the window is empty.
    method Close()
      modifies `decBuf, `blockBuf, `idxCache, `idxStartBlock
      ensures idxStartBlock == -1
      ensures if allocates then blockBuf == null && decBuf == null && idxCache == null
              else blockBuf == old(blockBuf) && decBuf == old(decBuf) && idxCache == old(idxCache)
    {
      if allocates {
        decBuf, blockBuf, idxCache := null, null, null;
      }
      idxStartBlock := -1;
    }

    // The fields that a CISO or ZISO header fills.
    method TakeHeader(header: seq<u8>)
      requires |header| == HEADER_UNION_SIZE <= |data| && header <= data
      modifies `headerSize, `blockSize, `uncompressedSize, `align, `comSize, `codec
      ensures Disk() == HeaderLayout(data, zlib, lz4) && uncompressedSize == Le32(data, 8)
    {
      headerSize := 24;
      blockSize := Le32(header, 16);
      uncompressedSize := Le32(header, 8);  // the low word of total_bytes
      align := header[21];
      comSize := blockSize + Shl(1, align);
      codec := if header[20] == 2 then CisoV2 else if Le32(header, 0) == ZSO_MAGIC then ZisoV1 else CisoV1;
    }

    // ciso_open for CISO and ZISO files.
    method Open(ghost image: seq<u8>) returns (r: OpenResult)
      requires allocates || (blockBuf != null && decBuf != null && idxCache != null)
      requires |data| >= HEADER_UNION_SIZE ==>
        && Le32(data, 0) != DAX_MAGIC && Le32(data, 0) != JSO_MAGIC
        && (Le32(data, 0) == CSO_MAGIC || Le32(data, 0) == ZSO_MAGIC ==>
            && IsCompressedImage(data, zlib, lz4, image)
            && (idxCache == null ==> Le32(data, 16) >= ISO_SECTOR_SIZE))
      modifies this
      ensures r == if |data| < HEADER_UNION_SIZE then IoError
                   else if Le32(data, 0) == CSO_MAGIC || Le32(data, 0) == ZSO_MAGIC then OpenResult.Ok
                   else NotValid
      ensures data == old(data)
      ensures r == OpenResult.Ok ==> Disk() == HeaderLayout(data, zlib, lz4) && uncompressedSize == Le32(data, 8)
      ensures r == OpenResult.Ok ==>
        (Valid(image) <==> old(Usable(HeaderLayout(data, zlib, lz4), |Cut(image, Le32(data, 16))|)))
      ensures r == OpenResult.Ok ==> Allocated()
    {
      var buf := new u8[HEADER_UNION_SIZE];
      var n := ReadData(data, buf, 0, HEADER_UNION_SIZE, 0);
      if n != HEADER_UNION_SIZE { return IoError; }
      var header := buf[..];
      assert header <= data;
      var magic := Le32(header, 0);
      if magic != CSO_MAGIC && magic != ZSO_MAGIC { return NotValid; }
      TakeHeader(header);
      FinishOpen(image);
      return OpenResult.Ok;
    }

    // Open on a file with index l of n blocks, whatever the index cache holds;
    // or on one with another index, which is in the cache as a whole, so that
    // the one in the file is never looked at.
    ghost predicate Ready(l: Layout, n: nat)
      reads this, idxCache
    {
      && Disk().(data := l.data) == l && l.Geometry(n)
      && (data == l.data || AllInCache(l, n))
      && Buffers()
      && Cached(l, n, idxCache[..], idxStartBlock, idxCacheNum)
    }

    // The blocks are as in l, and the cache holds all entries.
    ghost predicate AllInCache(l: Layout, n: nat)
      reads `idxStartBlock, `idxCacheNum, `data
      requires l.Geometry(n)
    {
      idxStartBlock == 0 && 0 < n && n + 2 < idxCacheNum && SameBlocks(data, l, n)
    }

    ghost predicate Valid(image: seq<u8>)
      reads this, idxCache
    {
      && Disk().Encodes(image) && |image| == uncompressedSize
      && totalBlocks == Quot(uncompressedSize, blockSize)
      && Ready(Disk(), |Cut(image, blockSize)|)
    }

    method RefreshIndex(block: nat, ghost l: Layout, ghost n: nat)
      requires Disk() == l && l.Geometry(n) && Buffers() && block <= n
      modifies `idxStartBlock, idxCache
      ensures idxStartBlock == block && Ready(l, n)
    {
      var k := ReadData(data, idxCache, 0, idxCacheNum * 4, block * 4 + headerSize);
      idxStartBlock := block;
      forall i: nat | i < idxCacheNum && block + i <= n
        ensures CacheEntry(idxCache[..], i) == l.Entry(block + i)
      {
        assert 4 * i + 4 <= k;
      }
    }

    method Decompress(srcLen: nat, dstLen: nat, topbit: bool, ghost plain: seq<u8>)
      requires Buffers() && srcLen <= blockBuf.Length
      requires dstLen == blockSize <= comSize && |plain| <= dstLen
      requires Disk().Decodes(blockBuf[..srcLen], topbit, plain)
      modifies decBuf
      ensures plain == decBuf[..|plain|]
    {
      var stored := match codec
        case CisoV1 => topbit
        case ZisoV1 => topbit
        case CisoV2 => srcLen >= dstLen;
      if stored {
        Copy(decBuf, 0, blockBuf, 0, dstLen);
      } else {
        var useLz4 := codec == ZisoV1 || (codec == CisoV2 && topbit);
        var out := if useLz4 then lz4(blockBuf[..]) else zlib(blockBuf[..]);
        assert blockBuf[..srcLen] <= blockBuf[..];
        assert plain <= out;
        var n := ReadData(out, decBuf, 0, dstLen, 0);
      }
    }

    // Where a block starts in the file, by the cached window if it is inside
    // the window and by the index on disk otherwise.
    method OffsetOf(block: nat, ghost l: Layout, ghost blocks: seq<seq<u8>>) returns (o: u32)
      requires l.Stores(blocks) && Ready(l, |blocks|) && 0 <= idxStartBlock <= block <= |blocks|
      ensures blocks != [] ==> o == l.Start(block)
    {
      var entry: u32;
      if block - idxStartBlock < idxCacheNum - 1 {
        entry := CacheEntry(idxCache[..], block - idxStartBlock);
      } else {
        var word := new u8[4];
        var _ := ReadData(data, word, 0, 4, block * 4 + headerSize);
        entry := Le32(word[..], 0);
      }
      o := FileOffset(entry, align);
      assert entry == l.Entry(block);
      if blocks != [] { FileOffsetIsStart(l, blocks, block); }
    }

    // Refresh the index window for a request and find where its compressed
    // data begins and ends in the file.
    method LocateData(startingBlock: nat, endingBlock: nat, ghost l: Layout, ghost blocks: seq<seq<u8>>)
      returns (oStart: u32, oEnd: u32)
      requires l.Stores(blocks) && Ready(l, |blocks|) && startingBlock <= endingBlock <= |blocks|
      modifies `idxStartBlock, idxCache
      ensures Ready(l, |blocks|) && 0 <= idxStartBlock <= startingBlock
      ensures blocks != [] ==> oStart == l.Start(startingBlock) <= oEnd == l.Start(endingBlock) <= |data|
    {
      if idxStartBlock < 0 || startingBlock < idxStartBlock
         || startingBlock - idxStartBlock + 1 >= idxCacheNum - 1 {
        RefreshIndex(startingBlock, l, |blocks|);
      }
      oStart := FileOffset(CacheEntry(idxCache[..], startingBlock - idxStartBlock), align);
      if blocks != [] { FileOffsetIsStart(l, blocks, startingBlock); }
      oEnd := OffsetOf(endingBlock, l, blocks);
      StartMonotone(l, blocks, startingBlock, endingBlock);
    }

    // The span of one block, refreshing the window when the entry after it
    // falls outside.
    method LocateBlock(curBlock: nat, ghost l: Layout, ghost blocks: seq<seq<u8>>)
      returns (bOffset: u32, bSize: u32, topbit: bool)
      requires l.Stores(blocks) && Ready(l, |blocks|) && curBlock < |blocks| && 0 <= idxStartBlock <= curBlock
      modifies `idxStartBlock, idxCache
      ensures Ready(l, |blocks|) && 0 <= idxStartBlock <= curBlock
      ensures bOffset == l.Start(curBlock) && bOffset + bSize == l.Start(curBlock + 1)
      ensures topbit == (l.Entry(curBlock) >= TOP_BIT)
    {
      if curBlock - idxStartBlock >= idxCacheNum - 1 {
        RefreshIndex(curBlock, l, |blocks|);
      }
      var entry := CacheEntry(idxCache[..], curBlock - idxStartBlock);
      var next := CacheEntry(idxCache[..], curBlock - idxStartBlock + 1);
      topbit := And(entry, TOP_BIT) != 0;
      AndTopBit(entry);
      StartMonotone(l, blocks, curBlock, curBlock + 1);
      FileOffsetIsStart(l, blocks, curBlock);
      FileOffsetIsStart(l, blocks, curBlock + 1);
      bOffset := FileOffset(entry, align);
      bSize := Sub32(FileOffset(next, align), bOffset);
    }

    // Fetch and unpack one block and copy the wanted piece of it to the output.
    method ReadPiece(mem: array<u8>, addr: nat, size: u32, top: nat, cBuf0: nat, curBlock: nat, pos: nat, oEnd: u32,
                     ghost l: Layout, ghost blocks: seq<seq<u8>>, ghost piece: seq<u8>, ghost from: nat)
      returns (cBuf: nat, readBytes: nat)
      requires l.Stores(blocks) && Ready(l, |blocks|) && mem != blockBuf && mem != decBuf && mem != idxCache
      requires 0 < addr && 0 < size && addr + size <= top <= mem.Length
      requires curBlock < |blocks| && 0 <= idxStartBlock <= curBlock
      requires l.Start(curBlock) == from <= oEnd <= |data|
      requires pos < blockSize && |piece| == Min(size, blockSize - pos)
      requires pos + |piece| <= |blocks[curBlock]| <= blockSize && piece == blocks[curBlock][pos..pos + |piece|]
      requires InSync(data, mem, addr, cBuf0, top, from)
      modifies `idxStartBlock, idxCache, blockBuf, decBuf, mem
      ensures Ready(l, |blocks|) && 0 <= idxStartBlock <= curBlock
      ensures readBytes == |piece|
      ensures forall j :: addr <= j < addr + readBytes ==> mem[j] == piece[j - addr]
      ensures forall i :: 0 <= i < addr || top <= i < mem.Length ==> mem[i] == old(mem[i])
      ensures InSync(data, mem, addr + readBytes, cBuf, top, l.Start(curBlock + 1))
    {
      assert l.StoredBlock(blocks, curBlock);
      SameSpan(data, l, blocks, curBlock);
      ghost var plain := blocks[curBlock];
      var bOffset, bSize, topbit := LocateBlock(curBlock, l, blocks);
      var n;
      cBuf, n := FetchSpan(data, mem, blockBuf, addr, size, top, cBuf0, bOffset, bSize, blockSize, oEnd);
      Decompress(n, blockSize, topbit, plain);
      readBytes := Min(size, blockSize - pos);
      assert decBuf[..|plain|] == plain;
      Copy(mem, addr, decBuf, pos, readBytes);
    }

    // Position inside the block: offset & (block_size - 1).
    method PositionOf(offset: nat) returns (pos: nat)
      requires blockSize > 0 && IsPow2(blockSize)
      ensures pos == Rem(offset, blockSize)
    {
      pos := And(offset, blockSize - 1);
      PositionInBlock(offset, blockSize);
    }

    // One turn of the read loop.
    method ReadTurn(mem: array<u8>, addr: nat, size: u32, offset: nat, top: nat, cBuf0: nat, oEnd: u32,
                    ghost l: Layout, ghost image: seq<u8>, ghost blocks: seq<seq<u8>>, ghost endingBlock: nat,
                    ghost from: nat)
      returns (cBuf: nat, readBytes: nat, ghost next: nat)
      requires l.Stores(blocks) && Ready(l, |blocks|) && mem != blockBuf && mem != decBuf && mem != idxCache
      requires 0 < addr && 0 < size && addr + size <= top <= mem.Length && offset + size <= |image|
      requires PieceAt(image, blockSize, blocks, offset, size)
      requires 0 <= idxStartBlock <= Quot(offset, blockSize) <= endingBlock <= |blocks| && oEnd == l.Start(endingBlock)
      requires from == l.Start(Quot(offset, blockSize)) && InSync(data, mem, addr, cBuf0, top, from)
      modifies `idxStartBlock, idxCache, blockBuf, decBuf, mem
      ensures Ready(l, |blocks|) && 0 < readBytes <= size && 0 <= idxStartBlock < |blocks|
      ensures forall j :: addr <= j < addr + readBytes ==> mem[j] == image[offset + j - addr]
      ensures forall i :: 0 <= i < addr || top <= i < mem.Length ==> mem[i] == old(mem[i])
      ensures InSync(data, mem, addr + readBytes, cBuf, top, next)
      ensures readBytes < size ==>
        && 0 <= idxStartBlock <= Quot(offset + readBytes, blockSize) < |blocks|
        && next == l.Start(Quot(offset + readBytes, blockSize))
    {
      var curBlock := Quot(offset, blockSize);
      var pos := PositionOf(offset);
      StartMonotone(l, blocks, curBlock, endingBlock);
      ghost var piece := image[offset..offset + Min(size, blockSize - pos)];
      cBuf, readBytes := ReadPiece(mem, addr, size, top, cBuf0, curBlock, pos, oEnd, l, blocks, piece, from);
      next := l.Start(curBlock + 1);
    }

    // Before the loop: when more than two blocks are wanted, read as much
    // compressed data as possible at once into the end of the buffer.
    method Preload(mem: array<u8>, addr: nat, size: u32, top: nat, oStart: u32, oEnd: u32) returns (cBuf: nat)
      requires mem != blockBuf && mem != decBuf && mem != idxCache
      requires 0 < addr && addr + size <= top <= mem.Length && 0 < blockSize
      requires size > 0 ==> oStart <= oEnd <= |data|
      modifies mem
      ensures forall i :: 0 <= i < addr || top <= i < mem.Length ==> mem[i] == old(mem[i])
      ensures size > 0 ==> InSync(data, mem, addr, cBuf, top, oStart)
    {
      cBuf := 0;  // NULL
      var compressedSize: u32 := Sub32(oEnd, oStart);
      if size > blockSize * 2 {
        if size < compressedSize { compressedSize := size - blockSize; }
        cBuf := top - compressedSize;
        var _ := ReadData(data, mem, cBuf, compressedSize, oStart);
      }
    }

    // Everything before the loop.
    method BeginRead(mem: array<u8>, addr: nat, size: u32, offset: u32, top: nat,
                     ghost image: seq<u8>, ghost l: Layout, ghost blocks: seq<seq<u8>>)
      returns (cBuf: nat, oEnd: u32, ghost endingBlock: nat, ghost from: nat)
      requires l.Stores(blocks) && Ready(l, |blocks|)
      requires mem != blockBuf && mem != decBuf && mem != idxCache
      requires 0 < addr && addr + size <= top <= mem.Length && offset + size <= |image|
        && Tiles(image, blockSize, blocks)
      modifies `idxStartBlock, idxCache, mem
      ensures Ready(l, |blocks|)
      ensures forall i :: 0 <= i < addr || top <= i < mem.Length ==> mem[i] == old(mem[i])
      ensures endingBlock == Quot(offset + size, blockSize) <= |blocks|
      ensures size > 0 ==>
        && oEnd == l.Start(endingBlock) && 0 <= idxStartBlock <= Quot(offset, blockSize) < |blocks|
        && from == l.Start(Quot(offset, blockSize)) && InSync(data, mem, addr, cBuf, top, from)
    {
      QuotMonotone(offset, offset + size, blockSize);
      var startingBlock := Quot(offset, blockSize);
      var lastBlock := Quot(offset + size, blockSize);
      endingBlock := lastBlock;
      assert EndsAt(image, blockSize, blocks, offset + size);
      if size > 0 { assert PieceAt(image, blockSize, blocks, offset, size); }
      var oStart;
      oStart, oEnd := LocateData(startingBlock, lastBlock, l, blocks);
      cBuf := Preload(mem, addr, size, top, oStart, oEnd);
      from := oStart;
    }

    method ReadBlocks(mem: array<u8>, addr0: nat, size0: u32, offset0: u32, top: nat,
                      ghost image: seq<u8>, ghost l: Layout, ghost blocks: seq<seq<u8>>)
      returns (r: u32)
      requires l.Stores(blocks) && Ready(l, |blocks|)
      requires mem != blockBuf && mem != decBuf && mem != idxCache
      requires 0 < addr0 && addr0 + size0 <= top <= mem.Length
      requires offset0 + size0 <= |image| < WORD
      requires Tiles(image, blockSize, blocks)
      modifies `idxStartBlock, idxCache, blockBuf, decBuf, mem
      ensures Ready(l, |blocks|)
      ensures r == size0 && (r > 0 ==> 0 <= idxStartBlock < |blocks|)
      ensures forall j :: addr0 <= j < addr0 + r ==> mem[j] == image[offset0 + j - addr0]
      ensures forall i :: 0 <= i < addr0 || top <= i < mem.Length ==> mem[i] == old(mem[i])
    {
      var addr, size: u32, offset: u32 := addr0, size0, offset0;
      var cBuf, oEnd;
      ghost var endingBlock, from;
      cBuf, oEnd, endingBlock, from := BeginRead(mem, addr, size, offset, top, image, l, blocks);
      ghost var n := |blocks|;

      while size > 0
        invariant 0 <= size <= size0
        invariant addr == addr0 + (size0 - size) && offset == offset0 + (size0 - size)
        invariant Ready(l, |blocks|) && (size0 > 0 ==> 0 <= idxStartBlock < n)
        invariant forall j :: addr0 <= j < addr ==> mem[j] == image[offset0 + j - addr0]
        invariant forall i :: 0 <= i < addr0 || top <= i < mem.Length ==> mem[i] == old(mem[i])
        invariant size > 0 ==>
          && 0 <= idxStartBlock <= Quot(offset, blockSize) < n
          && from == l.Start(Quot(offset, blockSize))
        invariant size > 0 ==> InSync(data, mem, addr, cBuf, top, from)
      {
        assert PieceAt(image, blockSize, blocks, offset, size);
        QuotMonotone(offset, offset + size, blockSize);
        var readBytes;
        cBuf, readBytes, from := ReadTurn(mem, addr, size, offset, top, cBuf, oEnd, l, image, blocks, endingBlock,
                                          from);
        size := size - readBytes;
        addr := addr + readBytes;
        offset := offset + readBytes;
      }
      return offset - offset0;
    }

    // ciso_read, for the image that the blocks make with index l.
    method ReadWith(mem: array<u8>, addr0: nat, size0: u32, offset0: u32, ghost image: seq<u8>, ghost l: Layout)
      returns (r: u32)
      requires l.Encodes(image) && |image| == uncompressedSize && Ready(l, |Cut(image, l.blockSize)|)
      requires mem != blockBuf && mem != decBuf && mem != idxCache
      requires 0 < addr0 && addr0 + size0 <= mem.Length
      requires offset0 <= |image| ==> offset0 + size0 < WORD
      modifies `idxStartBlock, idxCache, blockBuf, decBuf, mem
      ensures Ready(l, |Cut(image, l.blockSize)|)
      ensures r == if offset0 > |image| then 0 else Min(size0, |image| - offset0)
      ensures r > 0 ==> mem[addr0..addr0 + r] == image[offset0..offset0 + r]
      ensures r > 0 ==> 0 <= idxStartBlock < |Cut(image, l.blockSize)|
      ensures forall i :: 0 <= i < addr0 || addr0 + size0 <= i < mem.Length ==> mem[i] == old(mem[i])
    {
      var addr, size: u32, offset: u32 := addr0, size0, offset0;
      var top := addr + size;
      if offset > uncompressedSize {
        return 0;
      }
      size := ClampedSize(size, offset, uncompressedSize);
      ghost var blocks := Cut(image, blockSize);
      CutTiles(image, blockSize);
      r := ReadBlocks(mem, addr, size, offset, top, image, l, blocks);
    }

    method Read(mem: array<u8>, addr0: nat, size0: u32, offset0: u32, ghost image: seq<u8>) returns (r: u32)
      requires Valid(image)
      requires mem != blockBuf && mem != decBuf && mem != idxCache
      requires 0 < addr0 && addr0 + size0 <= mem.Length
      requires offset0 <= |image| ==> offset0 + size0 < WORD
      modifies `idxStartBlock, idxCache, blockBuf, decBuf, mem
      ensures Valid(image)
      ensures r == if offset0 > |image| then 0 else Min(size0, |image| - offset0)
      ensures r > 0 ==> mem[addr0..addr0 + r] == image[offset0..offset0 + r]
      ensures r > 0 ==> 0 <= idxStartBlock < |Cut(image, blockSize)|
      ensures forall i :: 0 <= i < addr0 || addr0 + size0 <= i < mem.Length ==> mem[i] == old(mem[i])
    {
      r := ReadWith(mem, addr0, size0, offset0, image, Disk());
    }
  }
}
