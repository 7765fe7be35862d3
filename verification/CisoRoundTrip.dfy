/** What the CISO writer stores is what its unpacker and the reader library get
    back. */
module CisoRoundTrip {
  import opened Bits
  import opened CisoReader
  import opened CisoTool

  // zlib undoes deflate and ignores bytes behind the stream.
  ghost predicate Undoes(zlib: Unpacker, deflate: seq<u8> -> seq<u8>)
  {
    forall plain: seq<u8>, src: seq<u8> :: deflate(plain) <= src ==> zlib(src) == plain
  }

  function Flatten(blocks: seq<seq<u8>>): seq<u8>
  {
    if blocks == [] then [] else blocks[0] + Flatten(blocks[1..])
  }

  lemma {:induction false} CutFlattens(image: seq<u8>, bs: nat)
    requires bs > 0
    ensures Flatten(Cut(image, bs)) == image
  {
    if |image| > bs {
      CutFlattens(image[bs..], bs);
      assert Cut(image, bs)[1..] == Cut(image[bs..], bs);
    } else if image != [] {
      assert Cut(image, bs)[1..] == [];
    }
  }

  lemma {:induction false} WholeBlocks(image: seq<u8>, bs: nat)
    requires bs > 0 && Rem(|image|, bs) == 0
    ensures forall b :: 0 <= b < |Cut(image, bs)| ==> |Cut(image, bs)[b]| == bs
  {
    if |image| > bs {
      WholeBlocks(image[bs..], bs);
    }
  }

  // A block starts at a whole number of alignment units.
  lemma AlignedUnits(t: Settings, pos: nat)
    ensures Shl(Quot(t.Aligned(pos), Pow2(t.align)), t.align) == t.Aligned(pos)
  {
    ShlOfQuot(t.Aligned(pos), t.align);
    if Rem(pos, Pow2(t.align)) != 0 { RemFilled(pos, Pow2(t.align)); }
  }

  // The entry behind a chunk, read with one unit more, covers the chunk; with
  // no alignment it is exactly the position.
  lemma NextPosition(t: Settings, blocks: seq<seq<u8>>, pos: nat)
    requires t.Fits(blocks, pos)
    ensures var q := t.Entries(blocks, pos)[0] % TOP_BIT;
      && Shl(q + 1, t.align) > pos
      && (t.align == 0 ==> q == pos)
  {
    var p := if blocks == [] then pos else t.Aligned(pos);
    QuotMonotone(p, pos + |t.Body(blocks, pos)|, Pow2(t.align));
    if blocks != [] { SmallEntry(t, blocks[0], pos); }
    UnitAbove(p, t.align);
    if t.align == 0 { UnitQuot(pos); }
  }

  lemma UnitAbove(p: nat, align: nat)
    ensures Shl(Quot(p, Pow2(align)) + 1, align) > p
  {
    ShlOfQuot(p, align);
    ShlAdd(Quot(p, Pow2(align)), 1, align);
    ShlIsTimes(1, align);
  }

  lemma {:induction false} UnitQuot(n: nat)
    ensures Quot(n, 1) == n && Rem(n, 1) == 0
  {
    if n > 0 { UnitQuot(n - 1); }
  }

  lemma FitsTail(t: Settings, blocks: seq<seq<u8>>, pos: nat)
    requires t.Fits(blocks, pos) && blocks != []
    ensures var next := pos + |t.Chunk(blocks[0], pos)|;
      t.Fits(blocks[1..], next) && Quot(t.Aligned(pos), Pow2(t.align)) < TOP_BIT
  {
    QuotMonotone(t.Aligned(pos), pos + |t.Body(blocks, pos)|, Pow2(t.align));
  }

  // Reading from start to one unit past the next entry, q2 + 1 - q1 units of
  // 1 << align bytes, reaches that entry.
  lemma UnitsCover(q1: nat, q2: nat, align: nat, start: nat, next: nat)
    requires Shl(q1, align) == start <= next < Shl(q2 + 1, align)
    requires align == 0 ==> q2 == next
    ensures start + ReadSize(q1, q2, align) >= next
  {
    if q2 + 1 < q1 {
      ShlAdd(q2 + 1, q1 - (q2 + 1), align);
    } else {
      ShlAdd(q1, q2 + 1 - q1, align);
    }
  }

  // How far the unpacker reads for a compressed block.
  lemma ReadCovers(t: Settings, block: seq<u8>, rest: seq<seq<u8>>, pos: nat)
    requires t.Fits([block] + rest, pos)
    ensures var start, next := t.Aligned(pos), pos + |t.Chunk(block, pos)|;
      var e, e2 := t.Entry(block, pos) % TOP_BIT, t.Entries(rest, next)[0] % TOP_BIT;
      && Shl(e, t.align) == start
      && start + ReadSize(e, e2, t.align) >= next
      && (t.Entry(block, pos) >= TOP_BIT <==> t.IsPlain(block)) && t.Entry(block, pos) < WORD
  {
    var blocks := [block] + rest;
    assert blocks[0] == block && blocks[1..] == rest;
    var next := pos + |t.Chunk(block, pos)|;
    FitsTail(t, blocks, pos);
    SmallEntry(t, block, pos);
    AlignedUnits(t, pos);
    NextPosition(t, rest, next);
    UnitsCover(t.Entry(block, pos) % TOP_BIT, t.Entries(rest, next)[0] % TOP_BIT, t.align, t.Aligned(pos), next);
  }

  lemma ChunkRestored(t: Settings, zlib: Unpacker, file: seq<u8>, block: seq<u8>, rest: seq<seq<u8>>, pos: nat,
                      e: nat, e2: nat)
    requires Undoes(zlib, t.deflate) && |block| == t.blockSize && t.Fits([block] + rest, pos)
    requires pos <= |file| && t.Chunk(block, pos) <= file[pos..]
    requires e == t.Entry(block, pos) && e2 == t.Entries(rest, pos + |t.Chunk(block, pos)|)[0]
    ensures BlockData(file, zlib, t.blockSize, t.align, e, e2) == block
  {
    ReadCovers(t, block, rest, pos);
    AndTopBit(e);
    StoredInFile(t, file, block, pos);
    if !t.IsPlain(block) {
      var src := SeekAndRead(file, t.Aligned(pos), ReadSize(e % TOP_BIT, e2 % TOP_BIT, t.align));
      assert t.Stored(block) <= src;
    }
  }

  lemma StoredInFile(t: Settings, file: seq<u8>, block: seq<u8>, pos: nat)
    requires pos <= |file| && t.Chunk(block, pos) <= file[pos..]
    ensures var start, next := t.Aligned(pos), pos + |t.Chunk(block, pos)|;
      start <= next <= |file| && file[start..next] == t.Stored(block)
  {
    var start, chunk := t.Aligned(pos), t.Chunk(block, pos);
    assert chunk[start - pos..] == t.Stored(block);
    assert file[pos..][..|chunk|] == chunk;
    assert file[start..pos + |chunk|] == file[pos..][..|chunk|][start - pos..];
  }

  // Block b of a body stands at p, with this entry and this one behind it.
  ghost predicate Placed(t: Settings, blocks: seq<seq<u8>>, pos: nat, b: nat, p: nat)
    requires b < |blocks|
  {
    var chunk, body, es := t.Chunk(blocks[b], p), t.Body(blocks, pos), t.Entries(blocks, pos);
    && p >= pos && p + |chunk| <= pos + |body|
    && body[p - pos..p - pos + |chunk|] == chunk
    && es[b] == t.Entry(blocks[b], p)
    && es[b + 1] == t.Entries(blocks[b + 1..], p + |chunk|)[0]
    && t.Fits([blocks[b]] + blocks[b + 1..], p)
    && p + |chunk| + |t.Body(blocks[b + 1..], p + |chunk|)| == pos + |body|
  }

  lemma PlacedFirst(t: Settings, blocks: seq<seq<u8>>, pos: nat)
    requires t.Fits(blocks, pos) && blocks != []
    ensures Placed(t, blocks, pos, 0, pos)
  {
    assert blocks == [blocks[0]] + blocks[1..];
  }

  lemma {:induction false} BlockPlace(t: Settings, blocks: seq<seq<u8>>, pos: nat, b: nat) returns (p: nat)
    requires t.Fits(blocks, pos) && b < |blocks|
    ensures Placed(t, blocks, pos, b, p)
  {
    if b == 0 {
      p := pos;
      PlacedFirst(t, blocks, pos);
    } else {
      FitsTail(t, blocks, pos);
      p := BlockPlace(t, blocks[1..], pos + |t.Chunk(blocks[0], pos)|, b - 1);
      PlacedBehind(t, blocks, pos, b, p);
    }
  }

  lemma PlacedBehind(t: Settings, blocks: seq<seq<u8>>, pos: nat, b: nat, p: nat)
    requires 0 < b < |blocks| && Placed(t, blocks[1..], pos + |t.Chunk(blocks[0], pos)|, b - 1, p)
    ensures Placed(t, blocks, pos, b, p)
  {
    var chunk, rest := t.Chunk(blocks[0], pos), blocks[1..];
    var next := pos + |chunk|;
    assert rest[b - 1] == blocks[b] && rest[b..] == blocks[b + 1..];
    SliceBehind(chunk, t.Body(rest, next), p - next, |t.Chunk(blocks[b], p)|);
    var e, es := t.Entry(blocks[0], pos), t.Entries(rest, next);
    assert ([e] + es)[b] == es[b - 1] && ([e] + es)[b + 1] == es[b];
  }

  lemma SliceBehind(front: seq<u8>, rest: seq<u8>, i: nat, n: nat)
    requires i + n <= |rest|
    ensures (front + rest)[|front| + i..|front| + i + n] == rest[i..i + n]
  {
  }

  lemma {:induction false} UnpackedIsFlatten(restore: (nat, nat) -> seq<u8>, index: seq<nat>, blocks: seq<seq<u8>>)
    requires |index| == |blocks| + 1
    requires forall b :: 0 <= b < |blocks| ==> restore(index[b], index[b + 1]) == blocks[b]
    ensures Unpacked(restore, index) == Flatten(blocks)
    decreases |blocks|
  {
    if blocks != [] {
      var index', blocks' := index[1..], blocks[1..];
      forall b | 0 <= b < |blocks'|
        ensures restore(index'[b], index'[b + 1]) == blocks'[b]
      {
        assert index'[b] == index[b + 1] && index'[b + 1] == index[b + 2] && blocks'[b] == blocks[b + 1];
      }
      UnpackedIsFlatten(restore, index', blocks');
    }
  }

  lemma ChunkInFile(file: seq<u8>, pos: nat, p: nat, n: nat, chunk: seq<u8>)
    requires pos <= p && p + n <= |file| && file[pos..][p - pos..p - pos + n] == chunk
    ensures file[p..p + n] == chunk && chunk <= file[p..]
  {
    assert file[pos..][p - pos..p - pos + n] == file[p..p + n];
    assert file[p..][..n] == file[p..p + n];
  }

  lemma PlacedInFile(t: Settings, file: seq<u8>, blocks: seq<seq<u8>>, pos: nat, b: nat, p: nat)
    requires b < |blocks| && Placed(t, blocks, pos, b, p) && pos <= |file| && file[pos..] == t.Body(blocks, pos)
    ensures p <= |file| && t.Chunk(blocks[b], p) <= file[p..]
  {
    ChunkInFile(file, pos, p, |t.Chunk(blocks[b], p)|, t.Chunk(blocks[b], p));
  }

  // Every block comes back from its entry and the next.
  lemma BlockRestored(t: Settings, zlib: Unpacker, file: seq<u8>, blocks: seq<seq<u8>>, pos: nat, b: nat, e: nat,
                      e2: nat)
    requires Undoes(zlib, t.deflate) && t.Fits(blocks, pos) && b < |blocks| && |blocks[b]| == t.blockSize
    requires pos <= |file| && file[pos..] == t.Body(blocks, pos)
    requires e == t.Entries(blocks, pos)[b] && e2 == t.Entries(blocks, pos)[b + 1]
    ensures BlockData(file, zlib, t.blockSize, t.align, e, e2) == blocks[b]
  {
    var p := BlockPlace(t, blocks, pos, b);
    PlacedInFile(t, file, blocks, pos, b, p);
    ChunkRestored(t, zlib, file, blocks[b], blocks[b + 1..], p, e, e2);
  }

  // Word k of a concatenation of words.
  lemma HeaderFields(t: Settings, total: nat)
    requires t.Sane() && total < WORD * WORD
    ensures var h := t.Header(total);
      && Le32(h, 0) == CSO_MAGIC && Le32(h, 8) + WORD * Le32(h, 12) == total
      && Le32(h, 8) == total % WORD && Le32(h, 16) == t.blockSize && h[20] == 1 && h[21] == t.align
  {
    var w0, w1, w2, w3, w4 := Word(CSO_MAGIC), Word(HEADER_SIZE), Word(total % WORD), Word(total / WORD % WORD),
        Word(t.blockSize);
    var h := t.Header(total);
    WordRoundTrip(CSO_MAGIC);
    WordRoundTrip(total % WORD);
    WordRoundTrip(total / WORD % WORD);
    WordRoundTrip(t.blockSize);
    WordAt(h, 0, w0);
    WordAt(h, 8, w2);
    WordAt(h, 12, w3);
    WordAt(h, 16, w4);
    assert total / WORD % WORD == total / WORD;
  }

  lemma WordAt(s: seq<u8>, i: nat, w: seq<u8>)
    requires i + 4 <= |s| && s[i..i + 4] == w
    ensures Le32(s, i) == Le32(w, 0)
  {
    Le32Slice(s, i);
  }

  lemma FrontWord(front: seq<u8>, rest: seq<u8>, i: nat)
    requires i + 4 <= |front|
    ensures Le32(front + rest, i) == Le32(front, i)
  {
  }

  // Header, index and body of a file that stores the blocks of an image.
  ghost predicate Fields(f: seq<u8>, image: seq<u8>, t: Settings)
    requires t.blockSize > 0
  {
    var blocks := Cut(image, t.blockSize);
    var base := t.Base(|blocks|);
    && |f| >= base && f[base..] == t.Body(blocks, base)
    && Le32(f, 0) == CSO_MAGIC && TotalBytes(f) == |image| && Le32(f, 8) == |image| % WORD
    && Le32(f, 16) == t.blockSize && f[20] == 1 && f[21] == t.align
    && IndexOf(f, |blocks| + 1) == t.Entries(blocks, base)
  }

  lemma PackedFields(image: seq<u8>, t: Settings)
    requires t.Sane() && |image| < WORD * WORD
    requires t.Fits(Cut(image, t.blockSize), t.Base(|Cut(image, t.blockSize)|))
    ensures Fields(t.Packed(image), image, t)
  {
    var f, blocks := t.Packed(image), Cut(image, t.blockSize);
    var base := t.Base(|blocks|);
    var h, es, y := t.Header(|image|), t.Entries(blocks, base), t.Body(blocks, base);
    assert f == h + (IndexBytes(es) + y);
    HeaderFields(t, |image|);
    FrontWord(h, IndexBytes(es) + y, 0);
    FrontWord(h, IndexBytes(es) + y, 8);
    FrontWord(h, IndexBytes(es) + y, 12);
    FrontWord(h, IndexBytes(es) + y, 16);
    FitsAll(t, blocks, base);
    IndexInFile(h, es, y);
    assert f[base..] == y;
  }

  lemma IndexInFile(h: seq<u8>, es: seq<nat>, y: seq<u8>)
    requires |h| == HEADER_SIZE && forall b :: 0 <= b < |es| ==> es[b] < WORD
    ensures IndexOf(h + (IndexBytes(es) + y), |es|) == es
  {
    var x := IndexBytes(es);
    forall b | 0 <= b < |es|
      ensures Le32(h + (x + y), HEADER_SIZE + 4 * b) == es[b]
    {
      IndexBytesEntry(es, b);
      FrontWord(x, y, 4 * b);
      Le32Behind(h, x + y, 4 * b);
    }
  }

  /** decompress_cso undoes compress_cso, for every alignment. */
  lemma UnpackUndoesPack(image: seq<u8>, t: Settings, zlib: Unpacker)
    requires t.Sane() && Undoes(zlib, t.deflate)
    requires 0 < |image| < WORD * WORD && Rem(|image|, t.blockSize) == 0
    requires t.Fits(Cut(image, t.blockSize), t.Base(Quot(|image|, t.blockSize)))
    ensures Readable(t.Packed(image)) && Contents(t.Packed(image), zlib) == image
  {
    var f, blocks := t.Packed(image), Cut(image, t.blockSize);
    CutCount(image, t.blockSize);
    PackedFields(image, t);
    WholeBlocks(image, t.blockSize);
    CutFlattens(image, t.blockSize);
    var base, es := t.Base(|blocks|), t.Entries(blocks, t.Base(|blocks|));
    var restore := Restorer(f, zlib, t.blockSize, t.align);
    forall b | 0 <= b < |blocks|
      ensures restore(es[b], es[b + 1]) == blocks[b]
    {
      BlockRestored(t, zlib, f, blocks, base, b, es[b], es[b + 1]);
    }
    UnpackedIsFlatten(restore, es, blocks);
  }

  // The span between two index values holds the block.
  ghost predicate SpanHolds(l: Layout, e: nat, e2: nat, block: seq<u8>)
  {
    var from, to := Shl(e % TOP_BIT, l.align), Shl(e2 % TOP_BIT, l.align);
    && from <= to <= |l.data| && to - from <= l.comSize
    && l.Decodes(l.data[from..to], e >= TOP_BIT, block)
  }

  // A stored block begins the span between its entry and that of the next
  // block; padding takes the rest.
  lemma SpanIsStored(t: Settings, l: Layout, block: seq<u8>, rest: seq<seq<u8>>, p: nat, e: nat, e2: nat)
    requires t.Sane() && t.align == l.align && Undoes(l.zlib, t.deflate) && t.Fits([block] + rest, p)
    requires l.codec == CisoV1 && |block| <= t.blockSize && l.comSize == t.blockSize + Pow2(t.align)
    requires var next := p + |t.Chunk(block, p)|;
      && next + |t.Body(rest, next)| == |l.data| && l.data[p..next] == t.Chunk(block, p)
      && e == t.Entry(block, p) && e2 == t.Entries(rest, next)[0]
    requires rest != []
    ensures SpanHolds(l, e, e2, block)
  {
    var next := p + |t.Chunk(block, p)|;
    EntryIsStart(t, block, rest, p, e);
    FitsRest(t, block, rest, p);
    EntryBehind(t, rest, next);
    SpanBetween(t, l, block, p, next, e, e2);
  }

  lemma FitsRest(t: Settings, block: seq<u8>, rest: seq<seq<u8>>, p: nat)
    requires t.Fits([block] + rest, p)
    ensures t.Fits(rest, p + |t.Chunk(block, p)|)
  {
    assert ([block] + rest)[1..] == rest && ([block] + rest)[0] == block;
    FitsTail(t, [block] + rest, p);
  }

  lemma EntryIsStart(t: Settings, block: seq<u8>, rest: seq<seq<u8>>, p: nat, e: nat)
    requires t.Fits([block] + rest, p) && e == t.Entry(block, p)
    ensures Shl(e % TOP_BIT, t.align) == t.Aligned(p) && (e >= TOP_BIT <==> t.IsPlain(block))
  {
    FitsTail(t, [block] + rest, p);
    SmallEntry(t, block, p);
    AlignedUnits(t, p);
  }

  // The entry behind a block leads to the next block, or to the end of the file
  // rounded down.
  lemma EntryBehind(t: Settings, rest: seq<seq<u8>>, next: nat)
    requires t.Fits(rest, next)
    ensures var to := Shl(t.Entries(rest, next)[0] % TOP_BIT, t.align);
      if rest == [] then to == next - Rem(next, Pow2(t.align))
      else to == t.Aligned(next) <= next + |t.Body(rest, next)|
  {
    if rest == [] {
      ShlOfQuot(next, t.align);
    } else {
      assert rest == [rest[0]] + rest[1..];
      EntryIsStart(t, rest[0], rest[1..], next, t.Entry(rest[0], next));
    }
  }

  lemma SpanBetween(t: Settings, l: Layout, block: seq<u8>, p: nat, next: nat, e: nat, e2: nat)
    requires Shl(e % TOP_BIT, l.align) == t.Aligned(p) && (e >= TOP_BIT <==> t.IsPlain(block))
    requires next <= Shl(e2 % TOP_BIT, l.align) <= |l.data| && Shl(e2 % TOP_BIT, l.align) == t.Aligned(next)
    requires p + |t.Chunk(block, p)| == next && l.data[p..next] == t.Chunk(block, p)
    requires l.codec == CisoV1 && |block| <= t.blockSize && l.comSize == t.blockSize + Pow2(t.align)
    requires t.threshold <= 100 && Undoes(l.zlib, t.deflate)
    ensures SpanHolds(l, e, e2, block)
  {
    var from, to := t.Aligned(p), t.Aligned(next);
    StoredIsShort(t, block);
    StoredAtStart(t, l.data, block, p, next, to);
    StoredDecodes(t, l, block, l.data[from..to]);
  }

  lemma StoredAtStart(t: Settings, data: seq<u8>, block: seq<u8>, p: nat, next: nat, to: nat)
    requires p + |t.Chunk(block, p)| == next <= to <= |data| && data[p..next] == t.Chunk(block, p)
    ensures t.Aligned(p) <= next && t.Stored(block) <= data[t.Aligned(p)..to]
  {
    var from := t.Aligned(p);
    assert data[from..next] == data[p..next][from - p..] == t.Stored(block);
    assert data[from..to][..next - from] == data[from..next];
  }

  lemma StoredDecodes(t: Settings, l: Layout, block: seq<u8>, span: seq<u8>)
    requires l.codec == CisoV1 && Undoes(l.zlib, t.deflate) && t.Stored(block) <= span
    ensures l.Decodes(span, t.IsPlain(block), block)
  {
  }

  // A block is stored compressed only when that makes it shorter.
  lemma StoredIsShort(t: Settings, block: seq<u8>)
    requires t.threshold <= 100
    ensures |t.Stored(block)| <= |block|
  {
    MulMonotone(t.threshold, 100, |block|);
  }

  // A layout over blocks the writer placed behind a file of base bytes.
  ghost predicate Holds(l: Layout, t: Settings, blocks: seq<seq<u8>>, base: nat)
  {
    && l.Geometry(|blocks|) && l.align == t.align && l.codec == CisoV1
    && l.blockSize == t.blockSize && l.comSize == t.blockSize + Pow2(t.align)
    && base <= |l.data| && l.data[base..] == t.Body(blocks, base)
    && forall b: nat | b <= |blocks| :: l.Entry(b) == t.Entries(blocks, base)[b]
  }

  lemma StoredFromEntries(l: Layout, blocks: seq<seq<u8>>, b: nat, e: nat, e2: nat)
    requires l.Geometry(|blocks|) && b < |blocks| && l.Entry(b) == e && l.Entry(b + 1) == e2
    ensures l.StoredBlock(blocks, b) <==> SpanHolds(l, e, e2, blocks[b])
  {
  }

  // Every block in front of the last is stored.
  lemma BlockStored(l: Layout, t: Settings, blocks: seq<seq<u8>>, base: nat, b: nat)
    requires t.Sane() && Undoes(l.zlib, t.deflate) && t.Fits(blocks, base)
    requires Holds(l, t, blocks, base) && b < |blocks| && |blocks[b]| <= t.blockSize
    requires b + 1 < |blocks|
    ensures l.StoredBlock(blocks, b)
  {
    var p := BlockPlace(t, blocks, base, b);
    var chunk := t.Chunk(blocks[b], p);
    ChunkInFile(l.data, base, p, |chunk|, chunk);
    SpanIsStored(t, l, blocks[b], blocks[b + 1..], p, l.Entry(b), l.Entry(b + 1));
    StoredFromEntries(l, blocks, b, l.Entry(b), l.Entry(b + 1));
  }

  // The last block may miss the bytes behind the last whole unit: a plain one
  // none, a compressed one those its decompressor does without.
  ghost predicate Survives(t: Settings, zlib: Unpacker, block: seq<u8>, cut: nat)
  {
    var s := t.Stored(block);
    cut <= |s| && if t.IsPlain(block) then cut == 0 else Unpacks(zlib, s[..|s| - cut], block)
  }

  lemma LastBlockStored(l: Layout, t: Settings, blocks: seq<seq<u8>>, base: nat)
    requires t.Sane() && t.Fits(blocks, base) && Holds(l, t, blocks, base) && blocks != []
    requires |blocks[|blocks| - 1]| <= t.blockSize
    ensures l.StoredBlock(blocks, |blocks| - 1)
      <==> Survives(t, l.zlib, blocks[|blocks| - 1], Rem(|l.data|, Pow2(t.align)))
  {
    var b, es, cut := |blocks| - 1, t.Entries(blocks, base), Rem(|l.data|, Pow2(t.align));
    var p := BlockPlace(t, blocks, base, b);
    var block, chunk := blocks[b], t.Chunk(blocks[b], p);
    assert blocks[b + 1..] == [];
    ChunkInFile(l.data, base, p, |chunk|, chunk);
    StoredFromEntries(l, blocks, b, es[b], es[b + 1]);
    LastSpan(l, t, block, p, es[b], es[b + 1], cut);
  }

  lemma LastSpan(l: Layout, t: Settings, block: seq<u8>, p: nat, e: nat, e2: nat, cut: nat)
    requires t.Sane() && t.Fits([block], p) && t.align == l.align && cut == Rem(|l.data|, Pow2(t.align))
    requires l.codec == CisoV1 && |block| <= t.blockSize < l.comSize
    requires p + |t.Chunk(block, p)| == |l.data| && l.data[p..] == t.Chunk(block, p)
    requires e == t.Entry(block, p) && e2 == t.Entries([], |l.data|)[0]
    ensures SpanHolds(l, e, e2, block) <==> Survives(t, l.zlib, block, cut)
  {
    assert [block] + [] == [block];
    EntryIsStart(t, block, [], p, e);
    FitsRest(t, block, [], p);
    EntryBehind(t, [], |l.data|);
    StoredAtEnd(t, l.data, block, p, cut);
    StoredIsShort(t, block);
    SpanSurvives(l, t, block, e, e2, t.Aligned(p), cut);
  }

  lemma StoredAtEnd(t: Settings, data: seq<u8>, block: seq<u8>, p: nat, cut: nat)
    requires p + |t.Chunk(block, p)| == |data| && data[p..] == t.Chunk(block, p)
    ensures var from, s := t.Aligned(p), t.Stored(block);
      from + |s| == |data| && (cut <= |s| ==> data[from..|data| - cut] == s[..|s| - cut])
  {
    var from, s := t.Aligned(p), t.Stored(block);
    assert data[from..] == data[p..][from - p..] == s;
    if cut <= |s| { assert data[from..|data| - cut] == data[from..][..|s| - cut]; }
  }

  lemma SpanSurvives(l: Layout, t: Settings, block: seq<u8>, e: nat, e2: nat, from: nat, cut: nat)
    requires var s := t.Stored(block);
      && from + |s| == |l.data| && |s| <= l.comSize && cut <= |l.data|
      && (cut <= |s| ==> l.data[from..|l.data| - cut] == s[..|s| - cut])
    requires l.codec == CisoV1 && (e >= TOP_BIT <==> t.IsPlain(block))
    requires Shl(e % TOP_BIT, l.align) == from && Shl(e2 % TOP_BIT, l.align) == |l.data| - cut
    ensures SpanHolds(l, e, e2, block) <==> Survives(t, l.zlib, block, cut)
  {
    var s := t.Stored(block);
    if cut <= |s| && t.IsPlain(block) {
      assert block <= s[..|s| - cut] <==> cut == 0;
    }
  }

  lemma PackedEncodes(image: seq<u8>, t: Settings, l: Layout)
    requires t.Sane() && Undoes(l.zlib, t.deflate) && 0 < |image| < WORD && t.blockSize == l.blockSize
    requires var blocks := Cut(image, t.blockSize);
      t.Fits(blocks, t.Base(|blocks|)) && Holds(l, t, blocks, t.Base(|blocks|))
    ensures l.Encodes(image) <==> Survives(t, l.zlib, Last(image, t.blockSize), Rem(|l.data|, Pow2(t.align)))
  {
    var blocks := Cut(image, t.blockSize);
    LastBlockStored(l, t, blocks, t.Base(|blocks|));
    forall b: nat | b < |blocks| - 1
      ensures l.StoredBlock(blocks, b)
    {
      BlockStored(l, t, blocks, t.Base(|blocks|), b);
    }
    LastDecides(l, blocks);
  }

  lemma LastDecides(l: Layout, blocks: seq<seq<u8>>)
    requires l.Geometry(|blocks|) && blocks != [] && forall b: nat | b < |blocks| - 1 :: l.StoredBlock(blocks, b)
    ensures l.Stores(blocks) <==> l.StoredBlock(blocks, |blocks| - 1)
  {
  }

  function Last(image: seq<u8>, bs: nat): seq<u8>
    requires bs > 0 && image != []
  {
    Cut(image, bs)[|Cut(image, bs)| - 1]
  }

  /** What the writer produces is a well-formed image for the reader, for every
      alignment, if and only if its last block does without the bytes behind the
      last whole unit, since the entry behind it is rounded down. */
  lemma PackedIsCompressedImage(image: seq<u8>, t: Settings, zlib: Unpacker, lz4: Unpacker)
    requires t.Sane() && Undoes(zlib, t.deflate) && IsPow2(t.blockSize) && t.blockSize + Pow2(t.align) < TOP_BIT
    requires 0 < |image| < WORD && Rem(|image|, t.blockSize) == 0
    requires t.Fits(Cut(image, t.blockSize), t.Base(Quot(|image|, t.blockSize)))
    requires HEADER_UNION_SIZE <= |t.Packed(image)| < WORD
    ensures IsCompressedImage(t.Packed(image), zlib, lz4, image)
      <==> Survives(t, zlib, Last(image, t.blockSize), Rem(|t.Packed(image)|, Pow2(t.align)))
  {
    CutCount(image, t.blockSize);
    PackedFields(image, t);
    FieldsDescribeImage(t.Packed(image), image, t, zlib, lz4);
  }

  // Nothing is lost when the file is a whole number of units, as it always is
  // without alignment.
  lemma WholeSurvives(t: Settings, zlib: Unpacker, block: seq<u8>)
    requires Undoes(zlib, t.deflate)
    ensures Survives(t, zlib, block, 0)
  {
    assert t.Stored(block)[..|t.Stored(block)|] == t.Stored(block);
  }

  lemma FieldsDescribeImage(f: seq<u8>, image: seq<u8>, t: Settings, zlib: Unpacker, lz4: Unpacker)
    requires t.Sane() && Undoes(zlib, t.deflate) && HEADER_UNION_SIZE <= |f| < WORD
    requires IsPow2(t.blockSize) && t.blockSize + Pow2(t.align) < TOP_BIT
    requires 0 < |image| < WORD && t.Fits(Cut(image, t.blockSize), t.Base(|Cut(image, t.blockSize)|))
    requires Fields(f, image, t)
    ensures IsCompressedImage(f, zlib, lz4, image)
      <==> Survives(t, zlib, Last(image, t.blockSize), Rem(|f|, Pow2(t.align)))
  {
    HeaderOf(f, zlib, lz4, t.blockSize, t.align);
    FieldsHold(f, image, t, HeaderLayout(f, zlib, lz4));
    PackedEncodes(image, t, HeaderLayout(f, zlib, lz4));
    EncodedIsImage(f, image, zlib, lz4);
  }

  lemma FieldsHold(f: seq<u8>, image: seq<u8>, t: Settings, l: Layout)
    requires IsPow2(t.blockSize) && t.blockSize + Pow2(t.align) < TOP_BIT && |f| < WORD && Fields(f, image, t)
    requires l == Layout(f, HEADER_SIZE, t.blockSize, t.align, t.blockSize + Pow2(t.align), CisoV1, l.zlib, l.lz4)
    ensures Holds(l, t, Cut(image, t.blockSize), t.Base(|Cut(image, t.blockSize)|))
  {
    LayoutHolds(l, t, Cut(image, t.blockSize), t.Base(|Cut(image, t.blockSize)|));
  }

  lemma EncodedIsImage(f: seq<u8>, image: seq<u8>, zlib: Unpacker, lz4: Unpacker)
    requires |f| >= HEADER_UNION_SIZE && Le32(f, 0) == CSO_MAGIC && |image| < WORD && Le32(f, 8) == |image| % WORD
    ensures IsCompressedImage(f, zlib, lz4, image) <==> HeaderLayout(f, zlib, lz4).Encodes(image)
  {
  }

  lemma HeaderOf(f: seq<u8>, zlib: Unpacker, lz4: Unpacker, blockSize: nat, align: nat)
    requires |f| >= HEADER_UNION_SIZE && Le32(f, 0) == CSO_MAGIC && Le32(f, 16) == blockSize
    requires f[20] == 1 && f[21] == align
    ensures HeaderLayout(f, zlib, lz4)
         == Layout(f, HEADER_SIZE, blockSize, align, blockSize + Pow2(align), CisoV1, zlib, lz4)
  {
    ShlIsTimes(1, align);
  }

  lemma LayoutHolds(l: Layout, t: Settings, blocks: seq<seq<u8>>, base: nat)
    requires IsPow2(t.blockSize) && t.blockSize + Pow2(t.align) < TOP_BIT && base == t.Base(|blocks|) <= |l.data| < WORD
    requires l.headerSize == HEADER_SIZE && l.align == t.align && l.codec == CisoV1
    requires l.blockSize == t.blockSize && l.comSize == t.blockSize + Pow2(t.align)
    requires l.data[base..] == t.Body(blocks, base) && IndexOf(l.data, |blocks| + 1) == t.Entries(blocks, base)
    ensures Holds(l, t, blocks, base)
  {
    forall b: nat | b <= |blocks|
      ensures l.Entry(b) == t.Entries(blocks, base)[b]
    {
      assert IndexOf(l.data, |blocks| + 1)[b] == l.Entry(b);
    }
  }
}
