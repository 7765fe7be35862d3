/** The packed file, byte by byte, and when packing it is refused. */
module CisoPacked {
  import opened Bits
  import opened CisoReader
  import opened CisoTool
  import opened CisoRoundTrip
  import opened CisoFormats

  // A block is stored as it is when deflating leaves at least the percentage of
  // it that is the threshold.
  ghost predicate KeptPlain(t: Settings, block: seq<u8>)
  {
    100 * |t.deflate(block)| >= t.threshold * |block|
  }

  ghost function StoredAs(t: Settings, block: seq<u8>): seq<u8>
  {
    if KeptPlain(t, block) then block else t.deflate(block)
  }

  // ----- where a block stands -----

  // Where what is stored of block b ends, or the index where b is none yet.
  ghost function EndBefore(f: seq<u8>, t: Settings, blocks: seq<seq<u8>>, b: nat): nat
    requires b <= |blocks| && 28 + 4 * |blocks| <= |f|
  {
    if b == 0 then 28 + 4 * |blocks| else Place(f, b - 1) + |StoredAs(t, blocks[b - 1])|
  }

  // Block b starts at the next whole unit, behind padding, plain under the top
  // bit of its entry or deflated.
  ghost predicate StandsPacked(f: seq<u8>, t: Settings, blocks: seq<seq<u8>>, b: nat)
    requires b < |blocks| && 28 + 4 * |blocks| <= |f|
  {
    var start, end, stored := Place(f, b), EndBefore(f, t, blocks, b), StoredAs(t, blocks[b]);
    && (Entry(f, b) >= 0x8000_0000 <==> KeptPlain(t, blocks[b]))
    && end <= start < end + Pow2(t.align) && start + |stored| <= |f| && f[start..start + |stored|] == stored
    && (forall k :: end <= k < start ==> f[k] == t.padding)
  }

  lemma ChunkParts(f: seq<u8>, p: nat, z: seq<u8>, stored: seq<u8>, more: seq<u8>, padding: u8)
    requires p <= |f| && f[p..] == (z + stored) + more && forall i :: 0 <= i < |z| ==> z[i] == padding
    ensures var start := p + |z|;
      && start + |stored| <= |f| && f[start..start + |stored|] == stored
      && forall k :: p <= k < start ==> f[k] == padding
  {
    var start := p + |z|;
    assert f[start..start + |stored|] == f[p..][|z|..|z| + |stored|];
    forall k | p <= k < start ensures f[k] == padding { assert f[k] == f[p..][k - p] == z[k - p]; }
  }

  lemma ChunkStands(f: seq<u8>, t: Settings, block: seq<u8>, more: seq<u8>, p: nat)
    requires p <= |f| && f[p..] == t.Chunk(block, p) + more
    ensures var start, stored := t.Aligned(p), StoredAs(t, block);
      && start < p + Pow2(t.align) && start + |stored| <= |f| && f[start..start + |stored|] == stored
      && (forall k :: p <= k < start ==> f[k] == t.padding)
  {
    ChunkParts(f, p, seq(t.Aligned(p) - p, _ => t.padding), StoredAs(t, block), more, t.padding);
  }

  lemma BodyHead(t: Settings, rest: seq<seq<u8>>, p: nat)
    requires rest != []
    ensures t.Body(rest, p) == t.Chunk(rest[0], p) + t.Body(rest[1..], p + |t.Chunk(rest[0], p)|)
  {
  }

  lemma FirstEntry(t: Settings, rest: seq<seq<u8>>, p: nat, e: nat)
    requires rest != [] && e == t.Entries(rest, p)[0] && t.Fits(rest, p)
    ensures Shl(e % TOP_BIT, t.align) == t.Aligned(p) && (e >= 0x8000_0000 <==> KeptPlain(t, rest[0]))
  {
    assert rest == [rest[0]] + rest[1..];
    EntryIsStart(t, rest[0], rest[1..], p, e);
  }

  // The same in terms of the writer, with p where the blocks before end.
  lemma BlockAt(f: seq<u8>, t: Settings, rest: seq<seq<u8>>, p: nat, e: nat)
    requires rest != [] && p <= |f| && f[p..] == t.Body(rest, p) && e == t.Entries(rest, p)[0] && t.Fits(rest, p)
    ensures var start, stored := Shl(e % TOP_BIT, t.align), StoredAs(t, rest[0]);
      && (e >= 0x8000_0000 <==> KeptPlain(t, rest[0])) && p <= start == t.Aligned(p) < p + Pow2(t.align)
      && start + |stored| <= |f| && f[start..start + |stored|] == stored
      && (forall k :: p <= k < start ==> f[k] == t.padding)
  {
    FirstEntry(t, rest, p, e);
    BodyHead(t, rest, p);
    ChunkStands(f, t, rest[0], t.Body(rest[1..], p + |t.Chunk(rest[0], p)|), p);
  }

  // ----- the whole file -----

  // The header: the signature, its own size, that of the image in eight bytes,
  // that of a block, version 1, the alignment and two zeros.
  ghost predicate HeaderPacked(f: seq<u8>, t: Settings, size: nat, n: nat)
  {
    && 28 + 4 * n <= |f| && f[0] == 0x43 && f[1] == 0x49 && f[2] == 0x53 && f[3] == 0x4F
    && Number(f, 4) == 24 && Number(f, 8) + 0x1_0000_0000 * Number(f, 12) == size && Number(f, 16) == t.blockSize
    && f[20] == 1 && f[21] == t.align && f[22] == 0 && f[23] == 0
  }

  // From block b on, the body and the index go on behind p bytes.
  ghost predicate GoesOn(f: seq<u8>, t: Settings, blocks: seq<seq<u8>>, es: seq<nat>, b: nat, p: nat)
    requires b <= |blocks| && |es| == |blocks| + 1
  {
    p <= |f| && f[p..] == t.Body(blocks[b..], p) && es[b..] == t.Entries(blocks[b..], p) && t.Fits(blocks[b..], p)
  }

  lemma PlaceOfEntry(f: seq<u8>, t: Settings, b: nat)
    requires 28 + 4 * b <= |f| && f[21] == t.align
    ensures Place(f, b) == Shl(Entry(f, b) % TOP_BIT, t.align)
  {
    ShlIsTimes(Entry(f, b) % TOP_BIT, t.align);
  }

  lemma TailBehind(f: seq<u8>, q: nat, chunk: seq<u8>, more: seq<u8>)
    requires q <= |f| && f[q..] == chunk + more
    ensures q + |chunk| <= |f| && f[q + |chunk|..] == more
  {
    assert f[q + |chunk|..] == f[q..][|chunk|..];
  }

  lemma BodyBehind(f: seq<u8>, t: Settings, rest: seq<seq<u8>>, q: nat, p: nat)
    requires rest != [] && q <= |f| && f[q..] == t.Body(rest, q) && p == q + |t.Chunk(rest[0], q)|
    ensures p <= |f| && f[p..] == t.Body(rest[1..], p)
  {
    BodyHead(t, rest, q);
    TailBehind(f, q, t.Chunk(rest[0], q), t.Body(rest[1..], p));
  }

  lemma ChunkLength(t: Settings, block: seq<u8>, q: nat)
    ensures q + |t.Chunk(block, q)| == t.Aligned(q) + |StoredAs(t, block)|
  {
  }

  lemma NextPlace(f: seq<u8>, t: Settings, rest: seq<seq<u8>>, q: nat, p: nat, e: nat)
    requires rest != [] && q <= |f| && f[q..] == t.Body(rest, q) && e == t.Entries(rest, q)[0] && t.Fits(rest, q)
    requires p == q + |t.Chunk(rest[0], q)|
    ensures p <= |f| && f[p..] == t.Body(rest[1..], p) && p == Shl(e % TOP_BIT, t.align) + |StoredAs(t, rest[0])|
  {
    FirstEntry(t, rest, q, e);
    BodyBehind(f, t, rest, q, p);
    ChunkLength(t, rest[0], q);
  }

  lemma TailOf(e: nat, more: seq<nat>, es: seq<nat>, b: nat)
    requires b < |es| && es[b..] == [e] + more
    ensures es[b + 1..] == more
  {
    assert es[b + 1..] == es[b..][1..];
  }

  lemma GoesOnBehind(f: seq<u8>, t: Settings, blocks: seq<seq<u8>>, es: seq<nat>, b: nat, q: nat) returns (p: nat)
    requires b < |blocks| && |es| == |blocks| + 1 && GoesOn(f, t, blocks, es, b, q)
    ensures GoesOn(f, t, blocks, es, b + 1, p) && p == Shl(es[b] % TOP_BIT, t.align) + |StoredAs(t, blocks[b])|
  {
    var rest := blocks[b..];
    assert rest[0] == blocks[b] && rest[1..] == blocks[b + 1..] && es[b..][0] == es[b];
    p := q + |t.Chunk(rest[0], q)|;
    NextPlace(f, t, rest, q, p, es[b]);
    FitsTail(t, rest, q);
    TailOf(es[b], t.Entries(rest[1..], p), es, b);
  }

  lemma {:induction false} EndIsPlace(f: seq<u8>, t: Settings, blocks: seq<seq<u8>>, es: seq<nat>, b: nat)
    returns (p: nat)
    requires b <= |blocks| && |es| == |blocks| + 1 && 28 + 4 * |blocks| <= |f|
    requires GoesOn(f, t, blocks, es, 0, 28 + 4 * |blocks|) && f[21] == t.align
    requires forall i :: 0 <= i <= |blocks| ==> Entry(f, i) == es[i]
    ensures p == EndBefore(f, t, blocks, b) && GoesOn(f, t, blocks, es, b, p)
    decreases b
  {
    if b == 0 {
      p := 28 + 4 * |blocks|;
    } else {
      var q := EndIsPlace(f, t, blocks, es, b - 1);
      p := GoesOnBehind(f, t, blocks, es, b - 1, q);
      PlaceOfEntry(f, t, b - 1);
    }
  }

  lemma BlockStands(f: seq<u8>, t: Settings, blocks: seq<seq<u8>>, es: seq<nat>, b: nat)
    requires b < |blocks| && |es| == |blocks| + 1 && 28 + 4 * |blocks| <= |f|
    requires GoesOn(f, t, blocks, es, 0, 28 + 4 * |blocks|) && f[21] == t.align
    requires forall i :: 0 <= i <= |blocks| ==> Entry(f, i) == es[i]
    ensures StandsPacked(f, t, blocks, b)
  {
    var p := EndIsPlace(f, t, blocks, es, b);
    assert blocks[b..][0] == blocks[b] && es[b..][0] == es[b];
    PlaceOfEntry(f, t, b);
    BlockAt(f, t, blocks[b..], p, es[b]);
  }

  // The last entry is where the file ends, in whole units.
  lemma LastStands(f: seq<u8>, t: Settings, blocks: seq<seq<u8>>, es: seq<nat>)
    requires |es| == |blocks| + 1 && 28 + 4 * |blocks| <= |f|
    requires GoesOn(f, t, blocks, es, 0, 28 + 4 * |blocks|) && f[21] == t.align
    requires forall i :: 0 <= i <= |blocks| ==> Entry(f, i) == es[i]
    ensures EndBefore(f, t, blocks, |blocks|) == |f| && Entry(f, |blocks|) == |f| / Pow2(t.align) < TOP_BIT
  {
    var n := |blocks|;
    var p := EndIsPlace(f, t, blocks, es, n);
    assert blocks[n..] == [] && es[n..][0] == es[n];
    assert |f[p..]| == 0;
    QuotIsDiv(p, Pow2(t.align));
  }

  lemma EntriesAreWords(f: seq<u8>, es: seq<nat>)
    requires es != [] && |f| >= 24 + 4 * |es| && IndexOf(f, |es|) == es
    ensures forall i :: 0 <= i < |es| ==> Entry(f, i) == es[i]
  {
    forall i | 0 <= i < |es| ensures Entry(f, i) == es[i] {
      assert IndexOf(f, |es|)[i] == Le32(f, 24 + 4 * i);
    }
  }

  lemma OwnSize(f: seq<u8>, t: Settings, size: nat)
    requires t.Sane() && size < WORD * WORD && t.Header(size) <= f
    ensures Le32(f, 4) == 24 && f[22] == 0 && f[23] == 0
  {
    var h := t.Header(size);
    assert h[4..8] == Word(24) && f[4..8] == f[..24][4..8];
    WordRoundTrip(24);
    WordAt(f, 4, Word(24));
  }

  lemma HeaderFromWords(f: seq<u8>, t: Settings, size: nat, n: nat)
    requires |f| >= 28 + 4 * n && Le32(f, 0) == CSO_MAGIC && Le32(f, 4) == 24 && TotalBytes(f) == size
    requires Le32(f, 16) == t.blockSize && f[20] == 1 && f[21] == t.align && f[22] == 0 && f[23] == 0
    ensures HeaderPacked(f, t, size, n)
  {
    SignatureBytes(f);
    assert f[0] == f[..4][0] && f[1] == f[..4][1] && f[2] == f[..4][2] && f[3] == f[..4][3];
  }

  lemma WholeGoesOn(f: seq<u8>, t: Settings, blocks: seq<seq<u8>>, es: seq<nat>, base: nat)
    requires base <= |f| && f[base..] == t.Body(blocks, base) && es == t.Entries(blocks, base) && t.Fits(blocks, base)
    ensures GoesOn(f, t, blocks, es, 0, base)
  {
    assert blocks[0..] == blocks && es[0..] == es;
  }

  lemma AllStand(f: seq<u8>, t: Settings, blocks: seq<seq<u8>>, es: seq<nat>, base: nat)
    requires base == 28 + 4 * |blocks| <= |f| && f[base..] == t.Body(blocks, base) && f[21] == t.align
    requires es == t.Entries(blocks, base) && t.Fits(blocks, base) && IndexOf(f, |es|) == es
    ensures forall b :: 0 <= b < |blocks| ==> StandsPacked(f, t, blocks, b)
    ensures EndBefore(f, t, blocks, |blocks|) == |f| && Entry(f, |blocks|) == |f| / Pow2(t.align) < 0x8000_0000
  {
    WholeGoesOn(f, t, blocks, es, base);
    EntriesAreWords(f, es);
    forall b | 0 <= b < |blocks| ensures StandsPacked(f, t, blocks, b) { BlockStands(f, t, blocks, es, b); }
    LastStands(f, t, blocks, es);
  }

  /** What compress_cso writes: the header, and the blocks one behind the other,
      each at the next whole unit, plain or deflated as the threshold says. */
  lemma PackedAsWritten(image: seq<u8>, t: Settings)
    requires t.Sane() && |image| < WORD * WORD
    requires t.Fits(Cut(image, t.blockSize), t.Base(|Cut(image, t.blockSize)|))
    ensures var f, blocks := t.Packed(image), Cut(image, t.blockSize);
      && HeaderPacked(f, t, |image|, |blocks|)
      && (forall b :: 0 <= b < |blocks| ==> StandsPacked(f, t, blocks, b))
      && EndBefore(f, t, blocks, |blocks|) == |f| && Entry(f, |blocks|) == |f| / Pow2(t.align) < 0x8000_0000
  {
    var f, blocks := t.Packed(image), Cut(image, t.blockSize);
    PackedFields(image, t);
    OwnSize(f, t, |image|);
    HeaderFromWords(f, t, |image|, |blocks|);
    AllStand(f, t, blocks, t.Entries(blocks, t.Base(|blocks|)), t.Base(|blocks|));
  }

  // ----- when a block may not be deflated -----

  // A deflated block whose place, in units, has bit 31 set.
  ghost predicate TooFar(t: Settings, blocks: seq<seq<u8>>, pos: nat, b: nat)
    requires b < |blocks|
  {
    !KeptPlain(t, blocks[b]) && t.Aligned(pos + |t.Body(blocks[..b], pos)|) / Pow2(t.align) / 0x8000_0000 % 2 == 1
  }

  lemma TooFarFirst(t: Settings, blocks: seq<seq<u8>>, pos: nat)
    requires blocks != []
    ensures TooFar(t, blocks, pos, 0) <==> !t.Markable(blocks[0], pos)
  {
    assert blocks[..0] == [];
    QuotIsDiv(t.Aligned(pos), Pow2(t.align));
    Pow2Words();
    AndBit(Quot(t.Aligned(pos), Pow2(t.align)), 31);
  }

  lemma TooFarBehind(t: Settings, blocks: seq<seq<u8>>, pos: nat, b: nat)
    requires 0 < b < |blocks|
    ensures TooFar(t, blocks, pos, b) <==> TooFar(t, blocks[1..], pos + |t.Chunk(blocks[0], pos)|, b - 1)
  {
    assert blocks[..b][0] == blocks[0] && blocks[..b][1..] == blocks[1..][..b - 1];
  }

  /** compress_cso's alignment error: exactly when a deflated block would start
      where its entry has the top bit of its own. */
  lemma {:induction false} AlignErrorMeans(t: Settings, blocks: seq<seq<u8>>, pos: nat)
    ensures t.AllMarkable(blocks, pos) <==> forall b :: 0 <= b < |blocks| ==> !TooFar(t, blocks, pos, b)
  {
    if blocks != [] {
      var rest, next := blocks[1..], pos + |t.Chunk(blocks[0], pos)|;
      TooFarFirst(t, blocks, pos);
      AlignErrorMeans(t, rest, next);
      forall b | 0 < b < |blocks| ensures TooFar(t, blocks, pos, b) <==> TooFar(t, rest, next, b - 1) {
        TooFarBehind(t, blocks, pos, b);
      }
      if t.AllMarkable(blocks, pos) {
      } else if t.Markable(blocks[0], pos) {
        var b :| 0 <= b < |rest| && TooFar(t, rest, next, b);
        assert TooFar(t, blocks, pos, b + 1);
      }
    }
  }

  // ----- what a block is restored from -----

  // As many bytes from a place on as there are, up to n.
  ghost function Stretch(file: seq<u8>, at: nat, n: nat): seq<u8>
  {
    if at >= |file| then [] else if at + n >= |file| then file[at..] else file[at..at + n]
  }

  lemma SeekIsStretch(file: seq<u8>, pos: nat, size: int)
    ensures SeekAndRead(file, pos, size) == Stretch(file, pos, if size < 0 then |file| else size)
  {
    if pos < |file| { assert file[pos..|file|] == file[pos..]; }
  }

  // How many bytes that are, negative ones meaning all.
  lemma SizeInUnits(index: nat, index2: nat, align: nat)
    ensures var units := index2 - index + (if align > 0 then 1 else 0);
      if units < 0 then ReadSize(index, index2, align) < 0
      else ReadSize(index, index2, align) == units * Pow2(align) >= 0
  {
    var units := index2 - index + (if align > 0 then 1 else 0);
    if units < 0 {
      ShlIsTimes(-units, align);
      MulAtLeast(-units, Pow2(align));
    } else {
      ShlIsTimes(units, align);
    }
  }

  /** decompress_cso on any index: a block is read from its place, a plain one at
      full length, any other up to the next place and, with an alignment, one unit
      on; where that is in front of its own, up to the end of the file. */
  lemma RestoredFrom(file: seq<u8>, zlib: Unpacker, blockSize: nat, align: nat, e: u32, e2: u32)
    ensures var at := e % 0x8000_0000 * Pow2(align);
      var units := e2 % 0x8000_0000 - e % 0x8000_0000 + (if align > 0 then 1 else 0);
      BlockData(file, zlib, blockSize, align, e, e2)
      == if e >= 0x8000_0000 then Stretch(file, at, blockSize)
         else if units < 0 then zlib(Stretch(file, at, |file|))
         else zlib(Stretch(file, at, units * Pow2(align)))
  {
    var at, size := e % 0x8000_0000 * Pow2(align), ReadSize(e % 0x8000_0000, e2 % 0x8000_0000, align);
    AndTopBit(e);
    ShlIsTimes(e % 0x8000_0000, align);
    SizeInUnits(e % 0x8000_0000, e2 % 0x8000_0000, align);
    SeekIsStretch(file, at, blockSize);
    SeekIsStretch(file, at, size);
  }
}
