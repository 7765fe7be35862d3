/** pspbtcnf.c: the configuration edited inside the caller's buffer. */
module BtcnfEdit {
  import opened Bits
  import opened ByteArrays
  import opened Btcnf
  import opened BtcnfList

  // The file format, handed around as a value: a configuration as bytes, and
  // its four parts, with these gaps, as bytes.
  datatype Format = Format(whole: Config -> Bytes, gaps: Gaps,
                           parts: (seq<u32>, seq<Mode>, seq<Entry>, Bytes) -> Bytes)
  {
    ghost function ModeStart(): nat { 64 + |gaps.behindHeader| }
  }

  ghost predicate Encodes(f: Format)
  {
    && (forall c: Config {:trigger c.Encode()} :: c.Fits() ==> f.whole(c) == c.Encode())
    && (forall ws: seq<u32>, modes: seq<Mode>, modules: seq<Entry>, names: Bytes
          {:trigger FileBytes(f.gaps, ws, modes, modules, names)} ::
          f.parts(ws, modes, modules, names) == FileBytes(f.gaps, ws, modes, modules, names))
  }

  // The buffer starts with this file.
  ghost predicate Holds(f: Format, buf: Bytes, c: Config)
  {
    WellFormed(c) && c.gaps == f.gaps && f.whole(c) <= buf
  }

  // Either the signature is wrong or the buffer holds the file.
  ghost predicate Loaded(f: Format, buf: Bytes, c: Config)
  {
    |buf| >= 64 && (Le32(buf, 0) == MAGIC ==> Holds(f, buf, c))
  }

  function Signed(x: u32): int { if x < 0x8000_0000 then x else x - WORD }

  // A name read from the buffer is the name in the table.
  lemma {:induction false} NameInBuffer(buf: Bytes, start: nat, end: nat, names: Bytes, path: nat)
    requires start <= end <= |buf| && path < |names| && names[|names| - 1] == 0
    requires buf[start..end] == names
    ensures CString(buf, start + path) == CString(names, path)
    decreases |names| - path
  {
    assert buf[start + path] == buf[start..end][path] == names[path];
    if names[path] != 0 { NameInBuffer(buf, start, end, names, path + 1); }
  }

  // What the functions read of the header and of a table entry.
  lemma HeaderFields(f: Format, c: Config, buf: Bytes)
    requires Encodes(f) && Holds(f, buf, c)
    ensures |buf| >= 64 && Signed(Le32(buf, 0x14)) == |c.modes| && Signed(Le32(buf, 0x24)) == |c.modules|
    ensures Le32(buf, 0x20) == c.ModuleStart() && Le32(buf, 0x30) == c.NameStart() && Le32(buf, 0x34) == c.NameEnd()
    ensures Le32(buf, 0x10) == c.ModeStart() && Le32(buf, 0) == MAGIC
  {
    assert c.Encode() <= buf;
    HeaderRead(c, buf, 0);
    HeaderRead(c, buf, 4);
    HeaderRead(c, buf, 5);
    HeaderRead(c, buf, 8);
    HeaderRead(c, buf, 9);
    HeaderRead(c, buf, 12);
    HeaderRead(c, buf, 13);
  }

  lemma EntryWords(f: Format, c: Config, buf: Bytes, k: nat)
    requires Encodes(f) && Holds(f, buf, c) && k < |c.modules|
    ensures var i := c.ModuleStart() + 32 * k;
      i + 32 <= |buf| && Le32(buf, i) == c.modules[k].path && Le32(buf, i + 8) == c.modules[k].flags
  {
    assert c.Encode() <= buf;
    EntryRead(c, buf, k);
  }

  lemma NamesPart(f: Format, c: Config, buf: Bytes)
    requires Encodes(f) && Holds(f, buf, c)
    ensures c.NameEnd() <= |buf| && buf[c.NameStart()..c.NameEnd()] == c.names
    ensures c.names != [] ==> c.names[|c.names| - 1] == 0
  {
    assert c.Encode() <= buf;
    Parts(c, buf);
  }

  lemma ModuleNamed(c: Config, k: nat)
    requires WellFormed(c) && k < |c.modules|
    ensures Modules(c)[k].name == CString(c.names, c.modules[k].path)
  {
    assert Modules(c)[k] == ModuleOf(c.names, c.modules[k]);
  }

  lemma EntryName(f: Format, c: Config, buf: Bytes, k: nat)
    requires Encodes(f) && Holds(f, buf, c) && k < |c.modules|
    ensures c.NameStart() + c.modules[k].path <= |buf|
    ensures CString(buf, c.NameStart() + c.modules[k].path) == Modules(c)[k].name
  {
    NamesPart(f, c, buf);
    ModuleNamed(c, k);
    NameAtPath(buf, c.NameStart(), c.NameEnd(), c.names, c.modules[k].path, Modules(c)[k].name);
  }

  lemma NameAtPath(buf: Bytes, start: nat, end: nat, names: Bytes, path: nat, name: Bytes)
    requires start <= end <= |buf| && path < |names| && names[|names| - 1] == 0
    requires buf[start..end] == names && name == CString(names, path)
    ensures start + path <= |buf| && CString(buf, start + path) == name
  {
    NameInBuffer(buf, start, end, names, path);
  }

  // The loop over the module table.
  method FindModule(buf: array<u8>, modname: Bytes, nmodules: int, table: nat, names: nat, ghost f: Format,
                    ghost c: Config)
    returns (modnum: nat)
    requires Encodes(f) && Holds(f, buf[..], c)
    requires nmodules == |c.modules| && table == c.ModuleStart() && names == c.NameStart()
    ensures modnum == IndexOfName(Modules(c), modname)
  {
    ghost var l := Modules(c);
    modnum := 0;
    while modnum < nmodules
      invariant modnum <= nmodules && forall i :: 0 <= i < modnum ==> l[i].name != modname
    {
      EntryWords(f, c, buf[..], modnum);
      EntryName(f, c, buf[..], modnum);
      var path := Le32(buf[..], table + 32 * modnum);
      if CString(buf[..], names + path) == modname { break; }
      modnum := modnum + 1;
    }
    IndexUnique(l, modname, modnum);
  }

  method SearchPrxWith(buf: array<u8>, modname: Bytes, ghost f: Format, ghost c: Config) returns (r: int)
    requires Encodes(f) && Loaded(f, buf[..], c)
    ensures r == if Le32(buf[..], 0) != MAGIC then -1 else Search(c, modname)
  {
    if Le32(buf[..], 0) != MAGIC { return -1; }
    HeaderFields(f, c, buf[..]);
    var nmodules := Signed(Le32(buf[..], 0x24));
    if nmodules <= 0 { return -2; }
    if Signed(Le32(buf[..], 0x14)) <= 0 { return -3; }
    r := FindModule(buf, modname, nmodules, Le32(buf[..], 0x20), Le32(buf[..], 0x30), f, c);
    if r >= nmodules { return -4; }
  }

  // ----- writing -----

  // memmove by one record, away from p.
  method MoveUp(buf: array<u8>, p: nat, end: nat)
    requires p <= end && end + 32 <= buf.Length
    modifies buf
    ensures buf[..p] == old(buf[..p]) && buf[p + 32..end + 32] == old(buf[p..end])
  {
    forall k | p <= k < end { buf[k + 32] := buf[k]; }
  }

  method InsertRecord(buf: array<u8>, p: nat, end: nat, record: Bytes)
    requires p <= end && end + 32 <= buf.Length && |record| == 32
    modifies buf
    ensures Patched(old(buf[..]), buf[..], p, 0, record, end)
  {
    MoveUp(buf, p, end);
    PutBytes(buf, p, record);
  }

  lemma WordOfParts(f: Format, ws: seq<u32>, modes: seq<Mode>, modules: seq<Entry>, names: Bytes, buf: Bytes, k: nat)
    requires Encodes(f) && f.parts(ws, modes, modules, names) <= buf && k < |ws|
    ensures 4 * k + 4 <= |buf| && Le32(buf, 4 * k) == ws[k]
  {
    assert FileBytes(f.gaps, ws, modes, modules, names) <= buf;
    AroundWords(f.gaps, ws, modes, modules, names);
    SecondPart(buf, [], WordsBytes(ws),
               f.gaps.behindHeader + (Table(ModeBytes, modes) + f.gaps.behindModes)
               + (Table(EntryBytes, modules) + f.gaps.behindModules) + names, 0, 4 * |ws|);
    WordsAt(ws, k);
    SliceOfSlice(buf, 0, 4 * |ws|, 4 * k, 4 * k + 4);
    WordRead(buf, 4 * k, ws[k]);
  }

  // One word of the header changed in place.
  method PutWord(buf: array<u8>, k: nat, x: u32, ghost f: Format, ghost ws: seq<u32>, ghost modes: seq<Mode>,
                 ghost modules: seq<Entry>, ghost names: Bytes)
    requires Encodes(f) && f.parts(ws, modes, modules, names) <= buf[..] && k < |ws| && 4 * k + 4 <= buf.Length
    modifies buf
    ensures f.parts(ws[k := x], modes, modules, names) <= buf[..]
  {
    ghost var before := buf[..];
    assert FileBytes(f.gaps, ws, modes, modules, names) <= before;
    PutBytes(buf, 4 * k, Word(x));
    PatchedPut(before, buf[..], 4 * k, Word(x), |FileBytes(f.gaps, ws, modes, modules, names)|);
    PatchWord(f.gaps, ws, modes, modules, names, before, buf[..], k, x);
    assert f.parts(ws[k := x], modes, modules, names) == FileBytes(f.gaps, ws[k := x], modes, modules, names);
  }

  // The three fields of the header that grow.
  method GrowHeader(buf: array<u8>, ghost f: Format, ghost ws: seq<u32>, ghost modes: seq<Mode>,
                    ghost modules: seq<Entry>, ghost names: Bytes)
    requires Encodes(f) && f.parts(ws, modes, modules, names) <= buf[..] && |ws| == 16 && buf.Length >= 64
    requires ws[9] + 1 < WORD && ws[12] + 32 < WORD && ws[13] + 32 < WORD
    modifies buf
    ensures f.parts(ws[9 := ws[9] + 1][12 := ws[12] + 32][13 := ws[13] + 32], modes, modules, names) <= buf[..]
  {
    WordOfParts(f, ws, modes, modules, names, buf[..], 9);
    PutWord(buf, 9, Le32(buf[..], 0x24) + 1, f, ws, modes, modules, names);
    ghost var ws1 := ws[9 := ws[9] + 1];
    WordOfParts(f, ws1, modes, modules, names, buf[..], 12);
    PutWord(buf, 12, Le32(buf[..], 0x30) + 32, f, ws1, modes, modules, names);
    ghost var ws2 := ws1[12 := ws[12] + 32];
    WordOfParts(f, ws2, modes, modules, names, buf[..], 13);
    PutWord(buf, 13, Le32(buf[..], 0x34) + 32, f, ws2, modes, modules, names);
  }

  lemma ModesPart(f: Format, ws: seq<u32>, modes: seq<Mode>, modules: seq<Entry>, names: Bytes, buf: Bytes, i: nat,
                  j: nat)
    requires Encodes(f) && f.parts(ws, modes, modules, names) <= buf && |ws| == 16
    requires i == f.ModeStart() && j == i + 32 * |modes|
    ensures j <= |buf| && buf[i..j] == Table(ModeBytes, modes)
  {
    assert f.parts(ws, modes, modules, names) == FileBytes(f.gaps, ws, modes, modules, names);
    ModeTable(f.gaps, ws, modes, modules, names, buf, i, j);
  }

  lemma CountOfParts(f: Format, ws: seq<u32>, modes: seq<Mode>, modules: seq<Entry>, names: Bytes, buf: Bytes, k: nat)
    requires Encodes(f) && f.parts(ws, modes, modules, names) <= buf && k < |modes| && |ws| == 16
    ensures var i := f.ModeStart() + 32 * k; i + 32 <= |buf| && Le16(buf, i) == modes[k].count
  {
    var start := f.ModeStart();
    ModesPart(f, ws, modes, modules, names, buf, start, start + 32 * |modes|);
    TableAt(ModeBytes, modes, k);
    CountInTable(buf, start, start + 32 * |modes|, Table(ModeBytes, modes), k, modes[k]);
  }

  lemma CountInTable(buf: Bytes, i: nat, j: nat, t: Bytes, k: nat, m: Mode)
    requires i <= j <= |buf| && buf[i..j] == t && 32 * k + 32 <= |t| && t[32 * k..32 * k + 32] == ModeBytes(m)
    ensures i + 32 * k + 32 <= |buf| && Le16(buf, i + 32 * k) == m.count
  {
    SliceOfSlice(buf, i, j, 32 * k, 32 * k + 32);
    CountAt(buf, i + 32 * k, m);
  }

  lemma CountAt(buf: Bytes, i: nat, m: Mode)
    requires i + 32 <= |buf| && buf[i..i + 32] == ModeBytes(m)
    ensures Le16(buf, i) == m.count
  {
    SliceOfSlice(buf, i, i + 32, 0, 2);
    assert ModeBytes(m)[0..2] == Half(m.count);
    HalfRead(buf, i, m.count);
  }

  method PutCount(buf: array<u8>, modestart: nat, k: nat, count: u16, ghost f: Format, ghost ws: seq<u32>,
                  ghost modes: seq<Mode>, ghost modules: seq<Entry>, ghost names: Bytes)
    requires Encodes(f) && f.parts(ws, modes, modules, names) <= buf[..] && k < |modes| && |ws| == 16
    requires modestart == f.ModeStart() && modestart + 32 * k + 32 <= buf.Length
    modifies buf
    ensures f.parts(ws, modes[k := modes[k].(count := count)], modules, names) <= buf[..]
  {
    ghost var before := buf[..];
    PutBytes(buf, modestart + 32 * k, Half(count));
    CountIn(f, ws, modes, modules, names, before, buf[..], modestart + 32 * k, k, count);
  }

  lemma CountIn(f: Format, ws: seq<u32>, modes: seq<Mode>, modules: seq<Entry>, names: Bytes, buf: Bytes, buf': Bytes,
                i: nat, k: nat, count: u16)
    requires Encodes(f) && f.parts(ws, modes, modules, names) <= buf && k < |modes| && |ws| == 16
    requires i == f.ModeStart() + 32 * k && i + 2 <= |buf| && buf' == buf[..i] + Half(count) + buf[i + 2..]
    ensures f.parts(ws, modes[k := modes[k].(count := count)], modules, names) <= buf'
  {
    assert f.parts(ws, modes, modules, names) == FileBytes(f.gaps, ws, modes, modules, names);
    PatchedPut(buf, buf', i, Half(count), |FileBytes(f.gaps, ws, modes, modules, names)|);
    PatchMode(f.gaps, ws, modes, modules, names, buf, buf', k, count);
    var modes' := modes[k := modes[k].(count := count)];
    assert f.parts(ws, modes', modules, names) == FileBytes(f.gaps, ws, modes', modules, names);
  }

  // Every mode includes one more module.
  method GrowModes(buf: array<u8>, modestart: nat, nmodes: int, ghost f: Format, ghost ws: seq<u32>,
                   ghost modes: seq<Mode>, ghost modules: seq<Entry>, ghost names: Bytes)
    requires Encodes(f) && f.parts(ws, modes, modules, names) <= buf[..] && |ws| == 16
    requires modestart == f.ModeStart() && nmodes == |modes|
    modifies buf
    ensures f.parts(ws, Bumped(modes), modules, names) <= buf[..]
  {
    ghost var done := modes;
    for modenum := 0 to nmodes
      invariant |done| == |modes| && f.parts(ws, done, modules, names) <= buf[..]
      invariant forall k :: 0 <= k < modenum ==> done[k] == Bumped(modes)[k]
      invariant forall k :: modenum <= k < nmodes ==> done[k] == modes[k]
    {
      var i := modestart + modenum * 32;
      CountOfParts(f, ws, done, modules, names, buf[..], modenum);
      var count := (Le16(buf[..], i) + 1) % 0x1_0000;
      PutCount(buf, modestart, modenum, count, f, ws, done, modules, names);
      done := done[modenum := done[modenum].(count := count)];
    }
    assert done == Bumped(modes);
  }

  // ----- the editing functions -----

  lemma HeaderGrows(c: Config, k: nat, path: u32, flags: u32)
    requires c.Fits() && k <= |c.modules| && Room(c, 0)
    ensures var d, ws := AddEntry(c, k, path, flags), c.Header();
      d.Fits() && d.Header() == ws[9 := ws[9] + 1][12 := ws[12] + 32][13 := ws[13] + 32]
  {
  }

  lemma OpenFile(f: Format, c: Config, buf: Bytes)
    requires Encodes(f) && Holds(f, buf, c)
    ensures f.parts(c.Header(), c.modes, c.modules, c.names) <= buf && c.NameEnd() <= |buf|
  {
    assert c.Encode() == FileBytes(c.gaps, c.Header(), c.modes, c.modules, c.names);
  }

  lemma CloseFile(f: Format, c: Config, buf: Bytes)
    requires Encodes(f) && WellFormed(c) && c.gaps == f.gaps && f.parts(c.Header(), c.modes, c.modules, c.names) <= buf
    ensures Holds(f, buf, c)
  {
    assert c.Encode() == FileBytes(c.gaps, c.Header(), c.modes, c.modules, c.names);
  }

  lemma RecordIn(f: Format, c: Config, ws: seq<u32>, buf: Bytes, buf': Bytes, k: nat, e: Entry)
    requires Encodes(f) && c.gaps == f.gaps && f.parts(ws, c.modes, c.modules, c.names) <= buf && |ws| == 16
    requires k <= |c.modules|
    requires Patched(buf, buf', c.ModuleStart() + 32 * k, 0, EntryBytes(e), c.NameEnd())
    ensures f.parts(ws, c.modes, Inserted(c.modules, k, e), c.names) <= buf'
  {
    assert FileBytes(f.gaps, ws, c.modes, c.modules, c.names) <= buf;
    PatchEntries(f.gaps, ws, c.modes, c.modules, c.names, buf, buf', k, e);
    assert f.parts(ws, c.modes, Inserted(c.modules, k, e), c.names)
      == FileBytes(f.gaps, ws, c.modes, Inserted(c.modules, k, e), c.names);
  }

  // AddPRXNoCopyName after the search.
  method AddRecord(buf: array<u8>, modnum: nat, path: u32, flags: u32, ghost f: Format, ghost c: Config)
    requires Encodes(f) && Holds(f, buf[..], c) && modnum <= |c.modules|
    requires Room(c, 0) && c.NameEnd() + 32 <= buf.Length && path < |c.names|
    modifies buf
    ensures Holds(f, buf[..], AddEntry(c, modnum, path, flags))
  {
    ghost var ws := c.Header();
    OpenFile(f, c, buf[..]);
    HeaderFields(f, c, buf[..]);
    HeaderGrows(c, modnum, path, flags);
    EntryFits(c, modnum, path, flags);
    var table, end := Le32(buf[..], 0x20), Le32(buf[..], 0x34);
    var modestart, nmodes := Le32(buf[..], 0x10), Signed(Le32(buf[..], 0x14));
    var entry := Entry(path, 0, StoredFlags(flags), Exactly([], 20));
    ghost var before := buf[..];
    InsertRecord(buf, table + 32 * modnum, end, EntryBytes(entry));
    RecordIn(f, c, ws, before, buf[..], modnum, entry);
    GrowHeader(buf, f, ws, c.modes, Inserted(c.modules, modnum, entry), c.names);
    GrowModes(buf, modestart, nmodes, f, ws[9 := ws[9] + 1][12 := ws[12] + 32][13 := ws[13] + 32], c.modes,
              Inserted(c.modules, modnum, entry), c.names);
    CloseFile(f, AddEntry(c, modnum, path, flags), buf[..]);
  }

  // What an editing function makes of the buffer: -1 for a wrong signature,
  // and otherwise the expected answer and file.
  ghost predicate Outcome(f: Format, before: Bytes, after: Bytes, r: int, expected: (int, Config))
  {
    if Le32Or0(before) != MAGIC then r == -1 && after == before
    else r == expected.0 && Holds(f, after, expected.1)
  }

  ghost function Le32Or0(s: Bytes): u32
  {
    if |s| < 4 then 0 else Le32(s, 0)
  }

  lemma StillLoaded(f: Format, c: Config, buf: Bytes)
    requires Encodes(f) && Holds(f, buf, c)
    ensures Loaded(f, buf, c) && Le32(buf, 0) == MAGIC
  {
    HeaderFields(f, c, buf);
  }

  method AddPRXNoCopyNameWith(buf: array<u8>, insertbefore: Bytes, prxnameOffset: nat, flags: u32, ghost f: Format,
                          ghost c: Config, ghost path: u32) returns (r: int)
    requires Encodes(f) && Loaded(f, buf[..], c)
    requires Le32(buf[..], 0) == MAGIC ==> Room(c, 0) && c.NameEnd() + 32 <= buf.Length
                                           && path < |c.names| && prxnameOffset == c.NameStart() + path
    modifies buf
    ensures Outcome(f, old(buf[..]), buf[..], r, AddAt(c, insertbefore, path, flags))
    ensures r < 0 ==> buf[..] == old(buf[..])
  {
    var modnum := SearchPrxWith(buf, insertbefore, f, c);
    if modnum < 0 { return modnum; }
    HeaderFields(f, c, buf[..]);
    ghost var d := AddEntry(c, modnum, path, flags);
    var offset := prxnameOffset - Le32(buf[..], 0x30);
    assert offset == path;
    AddRecord(buf, modnum, offset, flags, f, c);
    HeaderFields(f, d, buf[..]);
    r := Le32(buf[..], 0x34);
  }

  // my_strcpy behind the names, and the new end of the names.
  method AppendName(buf: array<u8>, prxname: Bytes, ghost f: Format, ghost c: Config)
    requires Encodes(f) && Holds(f, buf[..], c) && Room(c, |prxname| + 1) && c.NameEnd() + |prxname| + 1 <= buf.Length
    requires 0 !in prxname
    modifies buf
    ensures Holds(f, buf[..], WithName(c, prxname))
  {
    OpenFile(f, c, buf[..]);
    HeaderFields(f, c, buf[..]);
    var offset := Le32(buf[..], 0x34);
    ghost var before, ws, names := buf[..], c.Header(), c.names + (prxname + [0]);
    PutBytes(buf, offset, prxname + [0]);
    NamesIn(f, c, ws, before, buf[..], prxname + [0]);
    PutWord(buf, 13, offset + |prxname| + 1, f, ws, c.modes, c.modules, names);
    HeaderNamed(c, prxname);
    CloseFile(f, WithName(c, prxname), buf[..]);
  }

  lemma HeaderNamed(c: Config, name: Bytes)
    requires WellFormed(c) && Room(c, |name| + 1)
    ensures var w := WithName(c, name);
      WellFormed(w) && w.Header() == c.Header()[13 := c.NameEnd() + |name| + 1] && w.names == c.names + (name + [0])
  {
  }

  lemma NamesIn(f: Format, c: Config, ws: seq<u32>, buf: Bytes, buf': Bytes, more: Bytes)
    requires Encodes(f) && c.gaps == f.gaps && f.parts(ws, c.modes, c.modules, c.names) <= buf && |ws| == 16
    requires c.NameEnd() + |more| <= |buf| && buf' == buf[..c.NameEnd()] + more + buf[c.NameEnd() + |more|..]
    ensures f.parts(ws, c.modes, c.modules, c.names + more) <= buf'
  {
    assert FileBytes(f.gaps, ws, c.modes, c.modules, c.names) <= buf;
    PatchNames(f.gaps, ws, c.modes, c.modules, c.names, buf, buf', more);
    assert f.parts(ws, c.modes, c.modules, c.names + more) == FileBytes(f.gaps, ws, c.modes, c.modules, c.names + more);
  }

  // The buffer has room for the name and an entry.
  ghost predicate Spare(buf: Bytes, c: Config, name: Bytes)
  {
    Le32Or0(buf) == MAGIC ==> Room(c, |name| + 1) && c.NameEnd() + 32 + |name| + 1 <= |buf|
  }

  method EntryPlace(buf: array<u8>, modnum: nat, ghost f: Format, ghost c: Config) returns (i: nat)
    requires Encodes(f) && Holds(f, buf[..], c) && modnum < |c.modules|
    ensures i == c.ModuleStart() + 32 * modnum && i + 32 <= buf.Length
      && Le32(buf[..], i + 8) == c.modules[modnum].flags
  {
    HeaderFields(f, c, buf[..]);
    EntryWords(f, c, buf[..], modnum);
    i := Le32(buf[..], 0x20) + 32 * modnum;
  }

  // Where the name of an entry is in the buffer.
  method NamePlace(buf: array<u8>, modnum: nat, ghost f: Format, ghost c: Config) returns (offset: nat)
    requires Encodes(f) && Holds(f, buf[..], c) && modnum < |c.modules|
    ensures offset == c.NameStart() + c.modules[modnum].path
  {
    HeaderFields(f, c, buf[..]);
    EntryWords(f, c, buf[..], modnum);
    var table, names := Le32(buf[..], 0x20), Le32(buf[..], 0x30);
    offset := names + Le32(buf[..], table + 32 * modnum);
  }

  method AddPRXWith(buf: array<u8>, insertbefore: Bytes, prxname: Bytes, flags: u32, ghost f: Format, ghost c: Config)
    returns (r: int)
    requires Encodes(f) && Loaded(f, buf[..], c) && Spare(buf[..], c, prxname) && 0 !in prxname
    requires c.Fits()
    modifies buf
    ensures Outcome(f, old(buf[..]), buf[..], r, Add(c, insertbefore, prxname, flags))
    ensures r < 0 ==> buf[..] == old(buf[..])
  {
    var modnum := SearchPrxWith(buf, prxname, f, c);
    if modnum >= 0 {
      var offset := NamePlace(buf, modnum, f, c);
      r := AddPRXNoCopyNameWith(buf, insertbefore, offset, flags, f, c, c.modules[modnum].path);
      return;
    }
    modnum := SearchPrxWith(buf, insertbefore, f, c);
    if modnum < 0 { return modnum; }
    r := AddNewName(buf, insertbefore, prxname, flags, f, c);
  }

  // The second half of AddPRX: insertbefore is there and the name is new.
  method AddNewName(buf: array<u8>, insertbefore: Bytes, prxname: Bytes, flags: u32, ghost f: Format, ghost c: Config)
    returns (r: int)
    requires Encodes(f) && Loaded(f, buf[..], c) && Le32(buf[..], 0) == MAGIC && Spare(buf[..], c, prxname)
    requires 0 !in prxname && Search(c, insertbefore) >= 0
    modifies buf
    ensures Outcome(f, old(buf[..]), buf[..], r, AddAt(WithName(c, prxname), insertbefore, |c.names|, flags))
    ensures r >= 0
  {
    HeaderFields(f, c, buf[..]);
    var offset := Le32(buf[..], 0x34);
    ghost var w := WithName(c, prxname);
    AppendName(buf, prxname, f, c);
    StillLoaded(f, w, buf[..]);
    NamedFile(c, insertbefore, prxname);
    r := AddPRXNoCopyNameWith(buf, insertbefore, offset, flags, f, w, |c.names|);
  }

  method GetPrxFlagWith(buf: array<u8>, modname: Bytes, ghost f: Format, ghost c: Config) returns (r: int, flags: u32)
    requires Encodes(f) && Loaded(f, buf[..], c)
    ensures if Le32(buf[..], 0) != MAGIC then r == -1
            else if Search(c, modname) < 0 then r == Search(c, modname)
            else r == 0 && flags == c.modules[Search(c, modname)].flags
  {
    flags := 0;
    r := SearchPrxWith(buf, modname, f, c);
    if r < 0 { return; }
    var i := EntryPlace(buf, r, f, c);
    flags := Le32(buf[..], i + 8);
    r := 0;
  }

  lemma FlagsIn(f: Format, c: Config, buf: Bytes, buf': Bytes, k: nat, flags: u32)
    requires Encodes(f) && Holds(f, buf, c) && k < |c.modules|
    requires var i := c.ModuleStart() + 32 * k + 8; i + 4 <= |buf| && buf' == buf[..i] + Word(flags) + buf[i + 4..]
    ensures Holds(f, buf', c.(modules := c.modules[k := c.modules[k].(flags := flags)]))
  {
    var d := c.(modules := c.modules[k := c.modules[k].(flags := flags)]);
    OpenFile(f, c, buf);
    assert FileBytes(c.gaps, c.Header(), c.modes, c.modules, c.names) <= buf;
    PatchedPut(buf, buf', c.ModuleStart() + 32 * k + 8, Word(flags), c.NameEnd());
    PatchFlags(f.gaps, c.Header(), c.modes, c.modules, c.names, buf, buf', k, flags);
    assert f.parts(d.Header(), d.modes, d.modules, d.names)
      == FileBytes(c.gaps, c.Header(), c.modes, d.modules, c.names);
    CloseFile(f, d, buf');
  }

  method PutFlags(buf: array<u8>, modnum: nat, flags: u32, ghost f: Format, ghost c: Config)
    requires Encodes(f) && Holds(f, buf[..], c) && modnum < |c.modules|
    modifies buf
    ensures Holds(f, buf[..], c.(modules := c.modules[modnum := c.modules[modnum].(flags := flags)]))
  {
    var i := EntryPlace(buf, modnum, f, c);
    ghost var before := buf[..];
    PutBytes(buf, i + 8, Word(flags));
    FlagsIn(f, c, before, buf[..], modnum, flags);
  }

  method ModifyPrxFlagWith(buf: array<u8>, modname: Bytes, flags: u32, ghost f: Format, ghost c: Config)
    returns (r: int)
    requires Encodes(f) && Loaded(f, buf[..], c)
    modifies buf
    ensures Outcome(f, old(buf[..]), buf[..], r, SetFlags(c, modname, flags))
    ensures Le32Or0(buf[..]) == Le32Or0(old(buf[..]))
    ensures r < 0 ==> buf[..] == old(buf[..])
  {
    var modnum := SearchPrxWith(buf, modname, f, c);
    if modnum < 0 { return modnum; }
    PutFlags(buf, modnum, flags, f, c);
    StillLoaded(f, SetFlags(c, modname, flags).1, buf[..]);
    return 0;
  }

  method RemovePrxWith(buf: array<u8>, prxname: Bytes, flags: u32, ghost f: Format, ghost c: Config) returns (r: int)
    requires Encodes(f) && Loaded(f, buf[..], c)
    modifies buf
    ensures Outcome(f, old(buf[..]), buf[..], r, Remove(c, prxname, flags))
    ensures Le32Or0(buf[..]) == Le32Or0(old(buf[..]))
    ensures r < 0 ==> buf[..] == old(buf[..])
  {
    var oldFlags;
    r, oldFlags := GetPrxFlagWith(buf, prxname, f, c);
    if r < 0 { return; }
    var rest := StripFlags(oldFlags % 0x1_0000, flags % 0x1_0000);
    r := ModifyPrxFlagWith(buf, prxname, 0x8001_0000 + rest, f, c);
  }

  // Clear the runlevels in flags, if there are any to clear.
  method StripFlags(oldFlags: u16, flags: u16) returns (rest: u32)
    ensures rest == AndNot(oldFlags, flags) < 0x1_0000
  {
    rest := oldFlags;
    if And(rest, flags) != 0 {
      rest := AndNot(rest, flags);
    } else {
      NothingToClear(rest, flags);
    }
  }

  method MovePrxWith(buf: array<u8>, insertbefore: Bytes, prxname: Bytes, flags: u32, ghost f: Format, ghost c: Config)
    returns (r: int)
    requires Encodes(f) && Loaded(f, buf[..], c) && Spare(buf[..], c, prxname) && 0 !in prxname && c.Fits()
    modifies buf
    ensures Outcome(f, old(buf[..]), buf[..], r, Move(c, insertbefore, prxname, flags))
  {
    ghost var before := buf[..];
    var ignored := RemovePrxWith(buf, prxname, flags, f, c);
    ghost var d := if Le32(buf[..], 0) == MAGIC then Remove(c, prxname, flags).1 else c;
    RemovedSize(c, prxname, flags);
    r := AddPRXWith(buf, insertbefore, prxname, flags, f, d);
  }

  lemma RemovedSize(c: Config, name: Bytes, flags: u32)
    ensures var d := Remove(c, name, flags).1; d.NameEnd() == c.NameEnd() && (c.Fits() ==> d.Fits())
  {
  }

  // ----- the same for a file as it is -----

  function WholeFile(c: Config): Bytes
  {
    if c.Fits() then c.Encode() else []
  }

  function FormatOf(g: Gaps): Format
  {
    Format(WholeFile, g, (ws: seq<u32>, modes: seq<Mode>, modules: seq<Entry>, names: Bytes) =>
             FileBytes(g, ws, modes, modules, names))
  }

  lemma FormatEncodes(g: Gaps)
    ensures Encodes(FormatOf(g))
  {
  }

  // The buffer has another signature, or begins with this file.
  ghost predicate Begins(buf: Bytes, c: Config)
  {
    |buf| >= 64 && (Le32(buf, 0) == MAGIC ==> WellFormed(c) && c.Encode() <= buf)
  }

  lemma BeginsLoaded(buf: Bytes, c: Config)
    requires Begins(buf, c)
    ensures Encodes(FormatOf(c.gaps)) && Loaded(FormatOf(c.gaps), buf, c)
  {
    FormatEncodes(c.gaps);
  }

  // -1 and nothing changed for another signature, and otherwise the expected
  // answer and file.
  ghost predicate Edited(before: Bytes, after: Bytes, r: int, expected: (int, Config))
  {
    if Le32Or0(before) != MAGIC then r == -1 && after == before
    else r == expected.0 && WellFormed(expected.1) && expected.1.Encode() <= after
  }

  lemma OutcomeEdited(f: Format, before: Bytes, after: Bytes, r: int, expected: (int, Config))
    requires Encodes(f) && Outcome(f, before, after, r, expected)
    ensures Edited(before, after, r, expected)
  {
  }

  method SearchPrx(buf: array<u8>, modname: Bytes, ghost c: Config) returns (r: int)
    requires Begins(buf[..], c)
    ensures r == if Le32(buf[..], 0) != MAGIC then -1 else Search(c, modname)
  {
    BeginsLoaded(buf[..], c);
    r := SearchPrxWith(buf, modname, FormatOf(c.gaps), c);
  }

  method AddPRXNoCopyName(buf: array<u8>, insertbefore: Bytes, prxnameOffset: nat, flags: u32, ghost c: Config,
                          ghost path: u32) returns (r: int)
    requires Begins(buf[..], c)
    requires Le32(buf[..], 0) == MAGIC ==> Room(c, 0) && c.NameEnd() + 32 <= buf.Length
                                           && path < |c.names| && prxnameOffset == c.NameStart() + path
    modifies buf
    ensures Edited(old(buf[..]), buf[..], r, AddAt(c, insertbefore, path, flags))
    ensures r < 0 ==> buf[..] == old(buf[..])
  {
    BeginsLoaded(buf[..], c);
    r := AddPRXNoCopyNameWith(buf, insertbefore, prxnameOffset, flags, FormatOf(c.gaps), c, path);
    OutcomeEdited(FormatOf(c.gaps), old(buf[..]), buf[..], r, AddAt(c, insertbefore, path, flags));
  }

  method AddPRX(buf: array<u8>, insertbefore: Bytes, prxname: Bytes, flags: u32, ghost c: Config) returns (r: int)
    requires Begins(buf[..], c) && Spare(buf[..], c, prxname) && 0 !in prxname && c.Fits()
    modifies buf
    ensures Edited(old(buf[..]), buf[..], r, Add(c, insertbefore, prxname, flags))
    ensures r < 0 ==> buf[..] == old(buf[..])
  {
    BeginsLoaded(buf[..], c);
    r := AddPRXWith(buf, insertbefore, prxname, flags, FormatOf(c.gaps), c);
    OutcomeEdited(FormatOf(c.gaps), old(buf[..]), buf[..], r, Add(c, insertbefore, prxname, flags));
  }

  method GetPrxFlag(buf: array<u8>, modname: Bytes, ghost c: Config) returns (r: int, flags: u32)
    requires Begins(buf[..], c)
    ensures if Le32(buf[..], 0) != MAGIC then r == -1
            else if Search(c, modname) < 0 then r == Search(c, modname)
            else r == 0 && flags == c.modules[Search(c, modname)].flags
  {
    BeginsLoaded(buf[..], c);
    r, flags := GetPrxFlagWith(buf, modname, FormatOf(c.gaps), c);
  }

  method ModifyPrxFlag(buf: array<u8>, modname: Bytes, flags: u32, ghost c: Config) returns (r: int)
    requires Begins(buf[..], c)
    modifies buf
    ensures Edited(old(buf[..]), buf[..], r, SetFlags(c, modname, flags))
    ensures r < 0 ==> buf[..] == old(buf[..])
  {
    BeginsLoaded(buf[..], c);
    r := ModifyPrxFlagWith(buf, modname, flags, FormatOf(c.gaps), c);
    OutcomeEdited(FormatOf(c.gaps), old(buf[..]), buf[..], r, SetFlags(c, modname, flags));
  }

  method RemovePrx(buf: array<u8>, prxname: Bytes, flags: u32, ghost c: Config) returns (r: int)
    requires Begins(buf[..], c)
    modifies buf
    ensures Edited(old(buf[..]), buf[..], r, Remove(c, prxname, flags))
    ensures r < 0 ==> buf[..] == old(buf[..])
  {
    BeginsLoaded(buf[..], c);
    r := RemovePrxWith(buf, prxname, flags, FormatOf(c.gaps), c);
    OutcomeEdited(FormatOf(c.gaps), old(buf[..]), buf[..], r, Remove(c, prxname, flags));
  }

  method MovePrx(buf: array<u8>, insertbefore: Bytes, prxname: Bytes, flags: u32, ghost c: Config) returns (r: int)
    requires Begins(buf[..], c) && Spare(buf[..], c, prxname) && 0 !in prxname && c.Fits()
    modifies buf
    ensures Edited(old(buf[..]), buf[..], r, Move(c, insertbefore, prxname, flags))
  {
    BeginsLoaded(buf[..], c);
    r := MovePrxWith(buf, insertbefore, prxname, flags, FormatOf(c.gaps), c);
    OutcomeEdited(FormatOf(c.gaps), old(buf[..]), buf[..], r, Move(c, insertbefore, prxname, flags));
  }
}
