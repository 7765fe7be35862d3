/** The CISO writer and unpacker of build-tools/ciso/ciso.py, in its
    single-process mode, on file contents held in memory. */
module CisoTool {
  import opened Bits
  import opened CisoReader

  const HEADER_SIZE := 24

  // The compressor's settings: the alignment after the 2 GiB adjustment, the
  // plain-storage threshold in percent, and the raw deflate it calls.
  datatype Settings = Settings(blockSize: nat, align: nat, threshold: nat, padding: u8, deflate: seq<u8> -> seq<u8>)
  {
    ghost predicate Sane()
    {
      0 < blockSize < WORD && align < 0x80 && threshold <= 100
    }

    predicate IsPlain(block: seq<u8>)
    {
      100 * |deflate(block)| >= threshold * |block|
    }

    function Stored(block: seq<u8>): seq<u8>
    {
      if IsPlain(block) then block else deflate(block)
    }

    // Where a block may start: pos rounded up to a multiple of 1 << align.
    function Aligned(pos: nat): (p: nat)
      ensures p >= pos
    {
      if Rem(pos, Pow2(align)) == 0 then pos else pos + (Pow2(align) - Rem(pos, Pow2(align)))
    }

    // Index value of a block placed at pos, with the top bit for plain storage.
    function Entry(block: seq<u8>, pos: nat): nat
    {
      var e := Quot(Aligned(pos), Pow2(align));
      if IsPlain(block) then SetTop(e) else e
    }

    // A compressed block must leave the top bit of its entry clear.
    predicate Markable(block: seq<u8>, pos: nat)
    {
      IsPlain(block) || And(Entry(block, pos), TOP_BIT) == 0
    }

    // Padding and contents of one block placed at pos.
    function Chunk(block: seq<u8>, pos: nat): (s: seq<u8>)
      ensures |s| == Aligned(pos) - pos + |Stored(block)|
    {
      seq(Aligned(pos) - pos, _ => padding) + Stored(block)
    }

    // The blocks behind a file of pos bytes ...
    function Body(blocks: seq<seq<u8>>, pos: nat): seq<u8>
    {
      if blocks == [] then []
      else
        var chunk := Chunk(blocks[0], pos);
        chunk + Body(blocks[1..], pos + |chunk|)
    }

    // ... and their index, closed by the total size.
    function Entries(blocks: seq<seq<u8>>, pos: nat): (es: seq<nat>)
      ensures |es| == |blocks| + 1
    {
      if blocks == [] then [Quot(pos, Pow2(align))]
      else [Entry(blocks[0], pos)] + Entries(blocks[1..], pos + |Chunk(blocks[0], pos)|)
    }

    predicate AllMarkable(blocks: seq<seq<u8>>, pos: nat)
    {
      blocks != [] ==> Markable(blocks[0], pos) && AllMarkable(blocks[1..], pos + |Chunk(blocks[0], pos)|)
    }

    // Every position fits the 31 bits of an index entry.
    ghost predicate Fits(blocks: seq<seq<u8>>, pos: nat)
    {
      Quot(pos + |Body(blocks, pos)|, Pow2(align)) < TOP_BIT
    }

    function Base(blocks: nat): nat
    {
      HEADER_SIZE + 4 * (blocks + 1)
    }

    function Header(total: nat): (s: seq<u8>)
      requires 0 <= align < 0x80 && blockSize < WORD
      ensures |s| == HEADER_SIZE
    {
      Word(CSO_MAGIC) + Word(HEADER_SIZE) + Word(total % WORD) + Word(total / WORD % WORD) + Word(blockSize)
          + [1, align, 0, 0]
    }

    function Packed(image: seq<u8>): seq<u8>
      requires 0 < blockSize < WORD && align < 0x80
    {
      var blocks := Cut(image, blockSize);
      var base := Base(|blocks|);
      Header(|image|) + IndexBytes(Entries(blocks, base)) + Body(blocks, base)
    }
  }

  // entry | 0x80000000
  function SetTop(e: nat): nat
  {
    if And(e, TOP_BIT) != 0 then e else e + TOP_BIT
  }

  function IndexBytes(entries: seq<nat>): (s: seq<u8>)
    ensures |s| == 4 * |entries|
  {
    if entries == [] then [] else Word(entries[0] % WORD) + IndexBytes(entries[1..])
  }

  lemma Le32Behind(w: seq<u8>, rest: seq<u8>, i: nat)
    requires i + 4 <= |rest|
    ensures Le32(w + rest, |w| + i) == Le32(rest, i)
  {
  }

  lemma Le32Front(w: seq<u8>, rest: seq<u8>)
    requires |w| == 4
    ensures Le32(w + rest, 0) == Le32(w, 0)
  {
  }

  lemma IndexHead(entries: seq<nat>)
    requires entries != []
    ensures Le32(IndexBytes(entries), 0) == entries[0] % WORD
  {
    Le32Front(Word(entries[0] % WORD), IndexBytes(entries[1..]));
    WordRoundTrip(entries[0] % WORD);
  }

  lemma IndexTail(entries: seq<nat>, i: nat)
    requires entries != [] && i + 4 <= 4 * |entries[1..]|
    ensures Le32(IndexBytes(entries), i + 4) == Le32(IndexBytes(entries[1..]), i)
  {
    Le32Behind(Word(entries[0] % WORD), IndexBytes(entries[1..]), i);
  }

  lemma {:induction false} IndexBytesEntry(entries: seq<nat>, b: nat)
    requires b < |entries| && entries[b] < WORD
    ensures Le32(IndexBytes(entries), 4 * b) == entries[b]
  {
    if b == 0 {
      IndexHead(entries);
    } else {
      IndexTail(entries, 4 * (b - 1));
      IndexBytesEntry(entries[1..], b - 1);
    }
  }

  datatype PackResult = Written(file: seq<u8>) | AlignError | IndexError | PackError | ZeroDivisionError

  // The number of integers below the true quotient n / d.
  function CeilQuot(n: nat, d: nat): nat
    requires d > 0
  {
    Quot(n, d) + if Rem(n, d) == 0 then 0 else 1
  }

  lemma {:induction false} CutCount(image: seq<u8>, bs: nat)
    requires bs > 0
    ensures |Cut(image, bs)| == CeilQuot(|image|, bs)
  {
    if |image| > bs {
      CutCount(image[bs..], bs);
      assert Quot(|image|, bs) == 1 + Quot(|image| - bs, bs) && Rem(|image|, bs) == Rem(|image| - bs, bs);
    } else if |image| == bs {
      assert Quot(bs, bs) == 1 + Quot(0, bs) && Rem(bs, bs) == Rem(0, bs);
    }
  }

  lemma SmallEntry(t: Settings, block: seq<u8>, pos: nat)
    requires Quot(t.Aligned(pos), Pow2(t.align)) < TOP_BIT
    ensures t.Markable(block, pos) && t.Entry(block, pos) < WORD
    ensures t.Entry(block, pos) % TOP_BIT == Quot(t.Aligned(pos), Pow2(t.align))
    ensures t.Entry(block, pos) >= TOP_BIT <==> t.IsPlain(block)
  {
    AndTopBit(Quot(t.Aligned(pos), Pow2(t.align)));
  }

  // While the final size fits, every entry does.
  lemma {:induction false} FitsAll(t: Settings, blocks: seq<seq<u8>>, pos: nat)
    requires t.Fits(blocks, pos)
    ensures t.AllMarkable(blocks, pos)
    ensures forall b :: 0 <= b <= |blocks| ==> t.Entries(blocks, pos)[b] < WORD
  {
    if blocks != [] {
      var next := pos + |t.Chunk(blocks[0], pos)|;
      FitsAll(t, blocks[1..], next);
      QuotMonotone(t.Aligned(pos), pos + |t.Body(blocks, pos)|, Pow2(t.align));
      SmallEntry(t, blocks[0], pos);
    }
  }

  method SetAlign(fout: seq<u8>, writePos: nat, t: Settings) returns (out: seq<u8>, pos: nat)
    requires writePos == |fout|
    ensures pos == t.Aligned(writePos) == |out|
    ensures out == fout + seq(pos - writePos, _ => t.padding)
  {
    out, pos := fout, writePos;
    if Rem(writePos, Pow2(t.align)) != 0 {
      var alignLen := Pow2(t.align) - Rem(writePos, Pow2(t.align));
      out := out + seq(alignLen, _ => t.padding);
      pos := pos + alignLen;
    }
  }

  // One turn of the writer: align, note the index entry, store the block.
  method WriteBlock(fout: seq<u8>, writePos: nat, isoData: seq<u8>, t: Settings, ghost rest: seq<seq<u8>>)
    returns (out: seq<u8>, pos: nat, entry: nat, aligned: bool)
    requires writePos == |fout| && rest != [] && rest[0] == isoData
    ensures pos == |out| && out + t.Body(rest[1..], pos) == fout + t.Body(rest, writePos)
    ensures [entry] + t.Entries(rest[1..], pos) == t.Entries(rest, writePos)
    ensures aligned <==> t.Markable(isoData, writePos)
    ensures t.AllMarkable(rest, writePos) <==> aligned && t.AllMarkable(rest[1..], pos)
  {
    out, pos := SetAlign(fout, writePos, t);
    entry := Quot(pos, Pow2(t.align));
    var csoData := t.deflate(isoData);
    aligned := true;
    if 100 * |csoData| >= t.threshold * |isoData| {
      csoData := isoData;
      entry := SetTop(entry);
    } else if And(entry, TOP_BIT) != 0 {
      aligned := false;
    }
    out := out + csoData;
    pos := pos + |csoData|;
    assert out == fout + t.Chunk(isoData, writePos);
  }

  // fin.read(block_size) at the front of what is left yields the next block.
  lemma CutStep(image: seq<u8>, bs: nat, pos: nat)
    requires bs > 0 && pos <= |image| && Cut(image[pos..], bs) != []
    ensures var rest, next := Cut(image[pos..], bs), Min(pos + bs, |image|);
      pos < next && rest[0] == image[pos..next] && rest[1..] == Cut(image[next..], bs)
  {
    var next := Min(pos + bs, |image|);
    assert image[pos..][next - pos..] == image[next..];
  }

  lemma NoteEntry(indexBuf: seq<nat>, block: nat, entry: nat, rest: seq<nat>)
    requires block < |indexBuf|
    ensures indexBuf[block := entry][..block + 1] + rest == indexBuf[..block] + ([entry] + rest)
  {
  }

  method WriteBlocks(image: seq<u8>, front: seq<u8>, totalBlock: nat, t: Settings)
    returns (fout: seq<u8>, writePos: nat, indexBuf: seq<nat>, block: nat, aligned: bool)
    requires t.Sane() && totalBlock == Quot(|image|, t.blockSize)
    ensures var blocks := Cut(image, t.blockSize);
      && |blocks| <= |indexBuf| == totalBlock + 1
      && (aligned <==> t.AllMarkable(blocks, |front|))
      && (aligned ==>
          && block == |blocks| && writePos == |fout|
          && fout == front + t.Body(blocks, |front|)
          && indexBuf[..block] + [Quot(writePos, Pow2(t.align))] == t.Entries(blocks, |front|))
  {
    ghost var blocks, base := Cut(image, t.blockSize), |front|;
    CutCount(image, t.blockSize);
    fout, writePos := front, |front|;
    indexBuf := seq(totalBlock + 1, _ => 0);
    block, aligned := 0, true;
    var pos: nat := 0;
    ghost var rest := blocks;
    var blockCount := CeilQuot(|image|, t.blockSize);
    while block < blockCount  // block < total_bytes / block_size
      invariant block + |rest| == blockCount <= |indexBuf| == totalBlock + 1 && aligned
      invariant pos <= |image| && rest == Cut(image[pos..], t.blockSize)
      invariant writePos == |fout| && fout + t.Body(rest, writePos) == front + t.Body(blocks, base)
      invariant indexBuf[..block] + t.Entries(rest, writePos) == t.Entries(blocks, base)
      invariant t.AllMarkable(rest, writePos) <==> t.AllMarkable(blocks, base)
    {
      CutStep(image, t.blockSize, pos);
      var next := Min(pos + t.blockSize, |image|);
      var isoData := image[pos..next];
      pos := next;
      var entry;
      fout, writePos, entry, aligned := WriteBlock(fout, writePos, isoData, t, rest);
      if !aligned { return; }
      NoteEntry(indexBuf, block, entry, t.Entries(rest[1..], writePos));
      indexBuf := indexBuf[block := entry];
      block := block + 1;
      rest := rest[1..];
    }
  }

  lemma IndexStep(out: seq<u8>, entries: seq<nat>)
    requires entries != [] && entries[0] < WORD
    ensures out + IndexBytes(entries) == (out + Word(entries[0])) + IndexBytes(entries[1..])
  {
    assert entries[0] % WORD == entries[0];
  }

  method WriteIndex(fout: seq<u8>, indexBuf: seq<nat>) returns (r: PackResult)
    requires |fout| >= HEADER_SIZE + 4 * |indexBuf|
    ensures if forall b :: 0 <= b < |indexBuf| ==> indexBuf[b] < WORD
            then r == Written(fout[..HEADER_SIZE] + IndexBytes(indexBuf) + fout[HEADER_SIZE + 4 * |indexBuf|..])
            else r == PackError
  {
    var b := 0;
    var out := fout[..HEADER_SIZE];
    while b < |indexBuf|
      invariant b <= |indexBuf| && forall k :: 0 <= k < b ==> indexBuf[k] < WORD
      invariant out + IndexBytes(indexBuf[b..]) == fout[..HEADER_SIZE] + IndexBytes(indexBuf)
    {
      if indexBuf[b] >= WORD { return PackError; }
      IndexStep(out, indexBuf[b..]);
      assert indexBuf[b..][1..] == indexBuf[b + 1..];
      out := out + Word(indexBuf[b]);
      b := b + 1;
    }
    return Written(out + fout[HEADER_SIZE + 4 * |indexBuf|..]);
  }

  /** compress_cso: what it writes, and when it stops with which exception. */
  method CompressCso(image: seq<u8>, t: Settings) returns (r: PackResult)
    requires t.Sane() && |image| < WORD * WORD
    ensures Rem(|image|, t.blockSize) == 0 && image != [] && r.Written? ==> r.file == t.Packed(image)
    ensures var blocks, base := Cut(image, t.blockSize), t.Base(Quot(|image|, t.blockSize));
      && (r == AlignError <==> !t.AllMarkable(blocks, base))
      && (r == IndexError <==> t.AllMarkable(blocks, base) && Rem(|image|, t.blockSize) != 0)
      && (r == PackError <==> t.AllMarkable(blocks, base) && Rem(|image|, t.blockSize) == 0
                              && exists b :: 0 <= b <= |blocks| && t.Entries(blocks, base)[b] >= 0x1_0000_0000)
      && (t.Fits(blocks, base) ==>
          && (r.Written? <==> Rem(|image|, t.blockSize) == 0 && image != [])
          && (r == ZeroDivisionError <==> image == []))
  {
    ghost var blocks := Cut(image, t.blockSize);
    CutCount(image, t.blockSize);
    var totalBlock := Quot(|image|, t.blockSize);
    ghost var base := t.Base(totalBlock);
    var header := t.Header(|image|);
    var front := header + seq(4 * (totalBlock + 1), _ => 0);
    if t.Fits(blocks, base) { FitsAll(t, blocks, base); }
    var fout, writePos, indexBuf, block, aligned := WriteBlocks(image, front, totalBlock, t);
    if !aligned { return AlignError; }
    // Last position (total size)
    if block >= |indexBuf| { return IndexError; }
    LastPut(indexBuf, block, Quot(writePos, Pow2(t.align)));
    indexBuf := indexBuf[block := Quot(writePos, Pow2(t.align))];
    r := FinishFile(image, header, fout, indexBuf, t, blocks, base);
    if r.Written? && image == [] { return ZeroDivisionError; }
  }

  lemma LastPut(s: seq<nat>, k: nat, x: nat)
    requires k < |s|
    ensures k + 1 == |s| ==> s[k := x] == s[..k] + [x]
  {
  }

  // The index goes in behind the header.
  method FinishFile(image: seq<u8>, header: seq<u8>, fout: seq<u8>, indexBuf: seq<nat>, t: Settings,
                    ghost blocks: seq<seq<u8>>, ghost base: nat) returns (r: PackResult)
    requires t.Sane() && header == t.Header(|image|) && blocks == Cut(image, t.blockSize) && base == t.Base(|blocks|)
    requires indexBuf == t.Entries(blocks, base) && |fout| >= base && fout[..HEADER_SIZE] == header
      && fout[base..] == t.Body(blocks, base)
    ensures r == PackError || r == Written(t.Packed(image))
    ensures r == PackError <==> exists b :: 0 <= b < |indexBuf| && indexBuf[b] >= WORD
    ensures t.Fits(blocks, base) ==> r == Written(t.Packed(image))
  {
    if t.Fits(blocks, base) { FitsAll(t, blocks, base); }
    r := WriteIndex(fout, indexBuf);
  }

  // fin.seek(pos); fin.read(size)
  function SeekAndRead(file: seq<u8>, pos: nat, size: int): seq<u8>
  {
    if pos >= |file| then []
    else if size < 0 then file[pos..]
    else file[pos..Min(pos + size, |file|)]
  }

  // Bytes to read for a compressed block, from its index value and the next.
  function ReadSize(index: nat, index2: nat, align: nat): int
  {
    var units := if align != 0 then index2 - index + 1 else index2 - index;
    if units < 0 then 0 - Shl(-units, align) as int else Shl(units, align)
  }

  // One block as decompress_cso restores it, from two consecutive entries.
  function BlockData(file: seq<u8>, zlib: Unpacker, blockSize: nat, align: nat, entry: nat, entry2: nat): seq<u8>
  {
    var index := entry % TOP_BIT;
    if And(entry, TOP_BIT) != 0 then SeekAndRead(file, Shl(index, align), blockSize)
    else zlib(SeekAndRead(file, Shl(index, align), ReadSize(index, entry2 % TOP_BIT, align)))
  }

  // All blocks of an index that is closed by one more entry, given what restores
  // the block between two entries.
  function Unpacked(restore: (nat, nat) -> seq<u8>, index: seq<nat>): seq<u8>
  {
    if |index| <= 1 then [] else restore(index[0], index[1]) + Unpacked(restore, index[1..])
  }

  datatype UnpackResult = Restored(image: seq<u8>) | FormatError | StructError | ValueError | IndexOutOfRange

  // Header fields of decompress_cso.
  function TotalBytes(file: seq<u8>): nat
    requires |file| >= HEADER_SIZE
  {
    Le32(file, 8) + WORD * Le32(file, 12)
  }

  /** The index of a file: as many entries as there are whole blocks, and one more. */
  function IndexOf(file: seq<u8>, n: nat): (es: seq<nat>)
    requires |file| >= HEADER_SIZE + 4 * n
    ensures |es| == n
    ensures forall i :: 0 <= i < n ==> es[i] == Le32(file, HEADER_SIZE + 4 * i)
  {
    seq(n, i requires 0 <= i < n => Le32(file, HEADER_SIZE + 4 * i) as nat)
  }

  // A CISO header, a whole number of blocks, and a full index behind it.
  predicate Readable(file: seq<u8>)
  {
    && |file| >= HEADER_SIZE
    && Le32(file, 0) == CSO_MAGIC && Le32(file, 16) > 0 && TotalBytes(file) > 0
    && file[21] < 0x80 && Rem(TotalBytes(file), Le32(file, 16)) == 0
    && |file| >= HEADER_SIZE + 4 * (Quot(TotalBytes(file), Le32(file, 16)) + 1)
  }

  function Restorer(file: seq<u8>, zlib: Unpacker, blockSize: nat, align: nat): (nat, nat) -> seq<u8>
  {
    (e: nat, e2: nat) => BlockData(file, zlib, blockSize, align, e, e2)
  }

  // The first n blocks of an index.
  function Front(file: seq<u8>, zlib: Unpacker, n: nat): seq<u8>
    requires |file| >= 28 + 4 * n
  {
    Unpacked(Restorer(file, zlib, Le32(file, 16), file[21]), IndexOf(file, n + 1))
  }

  function Contents(file: seq<u8>, zlib: Unpacker): seq<u8>
    requires Readable(file)
  {
    Front(file, zlib, Quot(TotalBytes(file), Le32(file, 16)))
  }

  // The signature, a block size and a size that are not zero.
  ghost predicate Signed(file: seq<u8>)
  {
    |file| >= 24 && file[..4] == [0x43, 0x49, 0x53, 0x4F] && Le32(file, 16) != 0 && TotalBytes(file) != 0
  }

  lemma SignatureBytes(file: seq<u8>)
    requires |file| >= 24
    ensures Le32(file, 0) == CSO_MAGIC <==> file[..4] == [0x43, 0x49, 0x53, 0x4F]
  {
    assert file[..4] == [file[0], file[1], file[2], file[3]];
  }

  /** decompress_cso, for a zlib that accepts every stored stream: which error it
      ends with, and for a size that is not a whole number of blocks, that the
      last block has to be a plain one. */
  method DecompressCso(file: seq<u8>, zlib: Unpacker) returns (r: UnpackResult)
    ensures Readable(file) ==> r == Restored(Contents(file, zlib))
    ensures |file| < 24 ==> r == StructError
    ensures |file| >= 24 && !Signed(file) ==> r == FormatError
    ensures Signed(file) ==>
      var n := Quot(TotalBytes(file), Le32(file, 16));
      && (|file| < 28 + 4 * n ==> r == StructError)
      && (|file| >= 28 + 4 * n && file[21] >= 0x80 ==> r == ValueError)
      && (|file| >= 28 + 4 * n && file[21] < 0x80 && Rem(TotalBytes(file), Le32(file, 16)) != 0 ==>
            var last := Le32(file, 24 + 4 * n);
            if last < 0x8000_0000 then r == IndexOutOfRange
            else r == Restored(Front(file, zlib, n)
                               + SeekAndRead(file, Shl(last - 0x8000_0000, file[21]), Le32(file, 16))))
  {
    if |file| >= 24 { SignatureBytes(file); }
    if |file| < HEADER_SIZE { return StructError; }
    var totalBytes, blockSize := TotalBytes(file), Le32(file, 16);
    if Le32(file, 0) != CSO_MAGIC || blockSize == 0 || totalBytes == 0 { return FormatError; }
    r := DecompressBlocks(file, zlib, Quot(totalBytes, blockSize), CeilQuot(totalBytes, blockSize));
  }

  // Behind the header: the index, and the blocks.
  method DecompressBlocks(file: seq<u8>, zlib: Unpacker, totalBlock: nat, blockCount: nat) returns (r: UnpackResult)
    requires |file| >= 24 && totalBlock <= blockCount <= totalBlock + 1
    ensures |file| < 28 + 4 * totalBlock ==> r == StructError
    ensures |file| >= 28 + 4 * totalBlock && file[21] >= 0x80 ==> r == ValueError
    ensures |file| >= 28 + 4 * totalBlock && file[21] < 0x80 ==>
      var last := Le32(file, 24 + 4 * totalBlock);
      r == if blockCount == totalBlock then Restored(Front(file, zlib, totalBlock))
           else if last < 0x8000_0000 then IndexOutOfRange
           else Restored(Front(file, zlib, totalBlock)
                         + SeekAndRead(file, Shl(last - 0x8000_0000, file[21]), Le32(file, 16)))
  {
    if |file| < HEADER_SIZE + 4 * (totalBlock + 1) { return StructError; }
    var blockSize, align := Le32(file, 16), file[21];
    var indexBuf := IndexOf(file, totalBlock + 1);
    if align >= 0x80 { return ValueError; }  // 1 << a negative align
    LastEntry(file, indexBuf, totalBlock);
    r := RestoreAll(file, zlib, blockSize, align, indexBuf, blockCount, Restorer(file, zlib, blockSize, align));
  }

  lemma LastEntry(file: seq<u8>, index: seq<nat>, n: nat)
    requires |file| >= 28 + 4 * n && index == IndexOf(file, n + 1)
    ensures var last := Le32(file, 24 + 4 * n);
      && (And(index[n], TOP_BIT) == 0 <==> last < 0x8000_0000)
      && (last >= 0x8000_0000 ==> index[n] % TOP_BIT == last - 0x8000_0000)
  {
    AndTopBit(index[n]);
  }

  // The loop over the blocks; a last one that is not whole has no entry behind
  // its own.
  method RestoreAll(file: seq<u8>, zlib: Unpacker, blockSize: nat, align: nat, indexBuf: seq<nat>, blockCount: nat,
                    ghost restore: (nat, nat) -> seq<u8>) returns (r: UnpackResult)
    requires |indexBuf| - 1 <= blockCount <= |indexBuf|
    requires forall e: nat, e2: nat :: restore(e, e2) == BlockData(file, zlib, blockSize, align, e, e2)
    ensures blockCount < |indexBuf| ==> r == Restored(Unpacked(restore, indexBuf))
    ensures blockCount == |indexBuf| > 0 ==>
      r == if And(indexBuf[blockCount - 1], TOP_BIT) == 0 then IndexOutOfRange
           else Restored(Unpacked(restore, indexBuf)
                         + SeekAndRead(file, Shl(indexBuf[blockCount - 1] % TOP_BIT, align), blockSize))
  {
    ghost var all := Unpacked(restore, indexBuf);
    var block, fout := 0, [];
    while block < blockCount  // block < total_bytes / block_size
      invariant block <= blockCount
      invariant block < |indexBuf| ==> fout + Unpacked(restore, indexBuf[block..]) == all
      invariant 0 < block == |indexBuf| ==>
        And(indexBuf[block - 1], TOP_BIT) != 0
        && fout == all + SeekAndRead(file, Shl(indexBuf[block - 1] % TOP_BIT, align), blockSize)
    {
      var ok;
      fout, ok := RestoreNext(file, zlib, blockSize, align, indexBuf, block, fout, restore, all);
      if !ok { return IndexOutOfRange; }
      block := block + 1;
    }
    return Restored(fout);
  }

  method RestoreNext(file: seq<u8>, zlib: Unpacker, blockSize: nat, align: nat, indexBuf: seq<nat>, block: nat,
                     fout: seq<u8>, ghost restore: (nat, nat) -> seq<u8>, ghost all: seq<u8>)
    returns (fout': seq<u8>, ok: bool)
    requires block < |indexBuf| && fout + Unpacked(restore, indexBuf[block..]) == all
    requires forall e: nat, e2: nat :: restore(e, e2) == BlockData(file, zlib, blockSize, align, e, e2)
    ensures block + 1 < |indexBuf| ==> ok && fout' + Unpacked(restore, indexBuf[block + 1..]) == all
    ensures block + 1 == |indexBuf| ==> (ok <==> And(indexBuf[block], TOP_BIT) != 0)
    ensures block + 1 == |indexBuf| && ok ==>
      fout' == all + SeekAndRead(file, Shl(indexBuf[block] % TOP_BIT, align), blockSize)
  {
    var data;
    data, ok := RestoreBlock(file, zlib, blockSize, align, indexBuf, block);
    if block + 1 < |indexBuf| { UnpackStep(restore, indexBuf, block, fout); }
    fout' := fout + data;
  }

  lemma UnpackStep(restore: (nat, nat) -> seq<u8>, index: seq<nat>, b: nat, fout: seq<u8>)
    requires b + 1 < |index|
    ensures fout + Unpacked(restore, index[b..])
         == (fout + restore(index[b], index[b + 1])) + Unpacked(restore, index[b + 1..])
  {
    assert index[b..][1..] == index[b + 1..];
  }

  // The next entry is consulted only for a compressed block.
  method RestoreBlock(file: seq<u8>, zlib: Unpacker, blockSize: nat, align: nat, indexBuf: seq<nat>, block: nat)
    returns (data: seq<u8>, ok: bool)
    requires block < |indexBuf|
    ensures And(indexBuf[block], TOP_BIT) != 0 ==>
      data == SeekAndRead(file, Shl(indexBuf[block] % TOP_BIT, align), blockSize)
    ensures ok <==> And(indexBuf[block], TOP_BIT) != 0 || block + 1 < |indexBuf|
    ensures block + 1 < |indexBuf| ==>
      data == BlockData(file, zlib, blockSize, align, indexBuf[block], indexBuf[block + 1])
  {
    var index := indexBuf[block] % TOP_BIT;
    data, ok := [], true;
    if And(indexBuf[block], TOP_BIT) != 0 {
      data := SeekAndRead(file, Shl(index, align), blockSize);
    } else if block + 1 >= |indexBuf| {
      ok := false;
    } else {
      var readSize := ReadSize(index, indexBuf[block + 1] % TOP_BIT, align);
      data := zlib(SeekAndRead(file, Shl(index, align), readSize));
    }
  }
}
