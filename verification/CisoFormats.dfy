/** CISO, ZISO and CISO version 2 files as they are written down, byte by byte,
    and what opening and reading them gives. */
module CisoFormats {
  import opened Bits
  import opened CisoReader
  import opened CisoUse

  // Four bytes, the lowest first.
  ghost function Number(f: seq<u8>, i: nat): nat
    requires i + 4 <= |f|
  {
    f[i] as int + 0x100 * f[i + 1] as int + 0x1_0000 * f[i + 2] as int + 0x100_0000 * f[i + 3] as int
  }

  // The index begins behind the 24 bytes of the header.
  ghost function Entry(f: seq<u8>, b: nat): nat
    requires 28 + 4 * b <= |f|
  {
    Number(f, 24 + 4 * b)
  }

  // Where a block begins: the entry without its top bit, in units of 1 << align.
  ghost function Place(f: seq<u8>, b: nat): nat
    requires 28 + 4 * b <= |f|
  {
    Entry(f, b) % 0x8000_0000 * Pow2(f[21])
  }

  // Whatever follows the span, unpacking it gives the block.
  ghost predicate UnpacksTo(unpack: Unpacker, span: seq<u8>, block: seq<u8>)
  {
    forall src: seq<u8> :: span <= src ==> block <= unpack(src)
  }

  // A span in the file, no longer than a block and one unit of alignment.
  ghost predicate Spanned(f: seq<u8>, b: nat, blockSize: nat)
    requires 32 + 4 * b <= |f|
  {
    Place(f, b) <= Place(f, b + 1) <= |f| && Place(f, b + 1) - Place(f, b) <= blockSize + Pow2(f[21])
  }

  // What stands in the file for a block.
  ghost function Span(f: seq<u8>, b: nat): seq<u8>
    requires 32 + 4 * b <= |f| && Place(f, b) <= Place(f, b + 1) <= |f|
  {
    f[Place(f, b)..Place(f, b + 1)]
  }

  // 'C' or 'Z', "ISO", the size of the image, that of a block, and one entry
  // more than there are blocks.
  ghost predicate Headed(f: seq<u8>, first: u8, size: nat, blockSize: nat, n: nat)
  {
    && 48 <= |f| < 0x1_0000_0000 && 28 + 4 * n <= |f|
    && f[0] == first && f[1] == 0x49 && f[2] == 0x53 && f[3] == 0x4F
    && Number(f, 8) == size && Number(f, 16) == blockSize
  }

  // All blocks of that size but the last.
  ghost predicate Even(blocks: seq<seq<u8>>, blockSize: nat)
  {
    forall b :: 0 <= b < |blocks| ==> 0 < |blocks[b]| <= blockSize && (b + 1 < |blocks| ==> |blocks[b]| == blockSize)
  }

  ghost function Joined(blocks: seq<seq<u8>>): seq<u8>
  {
    if blocks == [] then [] else blocks[0] + Joined(blocks[1..])
  }

  // 'CISO' of any version but 2: a block is plain under the top bit and deflated otherwise.
  ghost predicate IsCiso(f: seq<u8>, zlib: Unpacker, blockSize: nat, blocks: seq<seq<u8>>)
  {
    && Headed(f, 0x43, |Joined(blocks)|, blockSize, |blocks|) && f[20] != 2 && Even(blocks, blockSize)
    && forall b :: 0 <= b < |blocks| ==>
         && Spanned(f, b, blockSize)
         && if Entry(f, b) >= 0x8000_0000 then blocks[b] <= Span(f, b) else UnpacksTo(zlib, Span(f, b), blocks[b])
  }

  // 'ZISO' of any version but 2: plain under the top bit and LZ4 otherwise.
  ghost predicate IsZiso(f: seq<u8>, lz4: Unpacker, blockSize: nat, blocks: seq<seq<u8>>)
  {
    && Headed(f, 0x5A, |Joined(blocks)|, blockSize, |blocks|) && f[20] != 2 && Even(blocks, blockSize)
    && forall b :: 0 <= b < |blocks| ==>
         && Spanned(f, b, blockSize)
         && if Entry(f, b) >= 0x8000_0000 then blocks[b] <= Span(f, b) else UnpacksTo(lz4, Span(f, b), blocks[b])
  }

  // Version 2 of either: plain at full length, otherwise LZ4 under the top bit
  // and deflated without it.
  ghost predicate IsVersion2(f: seq<u8>, zlib: Unpacker, lz4: Unpacker, blockSize: nat, blocks: seq<seq<u8>>)
  {
    && |f| > 0 && (f[0] == 0x43 || f[0] == 0x5A)
    && Headed(f, f[0], |Joined(blocks)|, blockSize, |blocks|) && f[20] == 2 && Even(blocks, blockSize)
    && forall b :: 0 <= b < |blocks| ==>
         && Spanned(f, b, blockSize)
         && if |Span(f, b)| >= blockSize then blocks[b] <= Span(f, b)
            else UnpacksTo(if Entry(f, b) >= 0x8000_0000 then lz4 else zlib, Span(f, b), blocks[b])
  }

  ghost predicate Sound(blockSize: nat, align: u8, size: nat)
  {
    && IsPow2(blockSize) && 2048 <= blockSize < 2048 * 1025 && blockSize + Pow2(align) < 0x8000_0000
    && size < 0x1_0000_0000
  }

  lemma {:induction false} CutOfJoined(blocks: seq<seq<u8>>, blockSize: nat)
    requires Even(blocks, blockSize) && blockSize > 0
    ensures Cut(Joined(blocks), blockSize) == blocks
  {
    if |blocks| == 1 {
      assert Joined(blocks) == blocks[0] + [] == blocks[0] && blocks == [blocks[0]];
    } else if blocks != [] {
      CutOfJoined(blocks[1..], blockSize);
      assert blocks[1..][0] == blocks[1] && |Joined(blocks[1..])| > 0;
      var image := Joined(blocks);
      assert image[..blockSize] == blocks[0] && image[blockSize..] == Joined(blocks[1..]);
      assert blocks == [blocks[0]] + blocks[1..];
    }
  }

  lemma PlaceIsStart(l: Layout, f: seq<u8>, b: nat)
    requires l.data == f && l.headerSize == 24 && 28 + 4 * b <= |f| && l.align == f[21]
    ensures Place(f, b) == l.Start(b) && Entry(f, b) == l.Entry(b)
  {
    ShlIsTimes(l.Entry(b) % TOP_BIT, l.align);
  }

  // What the codec of the header makes of every span.
  ghost predicate Restores(l: Layout, f: seq<u8>, blocks: seq<seq<u8>>)
    requires 28 + 4 * |blocks| <= |f|
  {
    forall b :: 0 <= b < |blocks| ==>
      Spanned(f, b, l.blockSize) && l.Decodes(Span(f, b), Entry(f, b) >= 0x8000_0000, blocks[b])
  }

  lemma SpansAreStored(l: Layout, f: seq<u8>, blocks: seq<seq<u8>>)
    requires l.data == f && 28 + 4 * |blocks| <= |f| && l.Geometry(|blocks|) && l.headerSize == 24 && l.align == f[21]
    requires l.comSize == l.blockSize + Pow2(l.align)
    requires Restores(l, f, blocks)
    ensures l.Stores(blocks)
  {
    forall b: nat | b < |blocks| ensures l.StoredBlock(blocks, b) {
      assert Spanned(f, b, l.blockSize);
      PlaceIsStart(l, f, b);
      PlaceIsStart(l, f, b + 1);
    }
  }

  lemma HeaderRead(f: seq<u8>, first: u8, zlib: Unpacker, lz4: Unpacker, blockSize: nat, n: nat, size: nat)
    requires first == 0x43 || first == 0x5A
    requires Headed(f, first, size, blockSize, n) && Sound(blockSize, f[21], size)
    ensures var l := HeaderLayout(f, zlib, lz4);
      && l.data == f && l.headerSize == 24 && l.blockSize == blockSize && l.align == f[21]
      && l.comSize == blockSize + Pow2(l.align) && l.Geometry(n) && l.zlib == zlib && l.lz4 == lz4
      && l.codec == if f[20] == 2 then CisoV2 else if first == 0x5A then ZisoV1 else CisoV1
    ensures (Le32(f, 0) == CSO_MAGIC || Le32(f, 0) == ZSO_MAGIC) && Le32(f, 8) == size && Le32(f, 16) == blockSize
  {
    ShlIsTimes(1, f[21]);
  }

  lemma IsImage(f: seq<u8>, first: u8, zlib: Unpacker, lz4: Unpacker, blockSize: nat, blocks: seq<seq<u8>>,
                image: seq<u8>)
    requires first == 0x43 || first == 0x5A
    requires Headed(f, first, |image|, blockSize, |blocks|) && Sound(blockSize, f[21], |image|)
    requires Even(blocks, blockSize) && image == Joined(blocks)
    requires HeaderLayout(f, zlib, lz4).blockSize == blockSize && Restores(HeaderLayout(f, zlib, lz4), f, blocks)
    ensures IsCompressedImage(f, zlib, lz4, image)
  {
    HeaderRead(f, first, zlib, lz4, blockSize, |blocks|, |image|);
    CutOfJoined(blocks, blockSize);
    SpansAreStored(HeaderLayout(f, zlib, lz4), f, blocks);
  }

  // Files of the three formats are what the reader takes for their image.
  lemma WrittenIsImage(f: seq<u8>, zlib: Unpacker, lz4: Unpacker, blockSize: nat, blocks: seq<seq<u8>>,
                       image: seq<u8>)
    requires IsCiso(f, zlib, blockSize, blocks) || IsZiso(f, lz4, blockSize, blocks)
             || IsVersion2(f, zlib, lz4, blockSize, blocks)
    requires image == Joined(blocks) && Sound(blockSize, f[21], |image|)
    ensures IsCompressedImage(f, zlib, lz4, image) && Le32(f, 16) == blockSize
  {
    HeaderRead(f, f[0], zlib, lz4, blockSize, |blocks|, |image|);
    IsImage(f, f[0], zlib, lz4, blockSize, blocks, image);
  }

  // ciso_open and ciso_read on a file of any of the three formats: the image is
  // read, in any piece.
  method ReadWritten(f: seq<u8>, zlib: Unpacker, lz4: Unpacker, mem: array<u8>, addr: nat, size: u32, offset: u32,
                     ghost blockSize: nat, ghost blocks: seq<seq<u8>>) returns (o: OpenResult, r: u32)
    requires IsCiso(f, zlib, blockSize, blocks) || IsZiso(f, lz4, blockSize, blocks)
             || IsVersion2(f, zlib, lz4, blockSize, blocks)
    requires Sound(blockSize, f[21], |Joined(blocks)|)
    requires 0 < addr && addr + size <= mem.Length && (offset <= |Joined(blocks)| ==> offset + size < 0x1_0000_0000)
    modifies mem
    ensures o == OpenResult.Ok
    ensures var image := Joined(blocks);
      && r == (if offset > |image| then 0 else if offset + size > |image| then |image| - offset else size)
      && (r > 0 ==> mem[addr..addr + r] == image[offset..offset + r])
    ensures forall i :: 0 <= i < addr || addr + size <= i < mem.Length ==> mem[i] == old(mem[i])
  {
    WrittenIsImage(f, zlib, lz4, blockSize, blocks, Joined(blocks));
    o, r := OpenRead(f, zlib, lz4, mem, addr, size, offset, Joined(blocks));
  }
}
