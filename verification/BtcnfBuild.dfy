/** btcnf.py: the file built from a list of modules, and read back. */
module BtcnfBuild {
  import opened Bits
  import opened ByteArrays
  import opened Btcnf
  import opened BtcnfList
  import opened BtcnfEdit

  // The runlevels and what the file says of them.
  const MODES: seq<(u32, u32)> := [(1, 2), (2, 1), (4, 3), (8, 4), (0x10, 5), (0x20, 6), (0x40, 7), (0x80, 8)]

  const UNKNOWN: seq<u32> := [0x6B8B4567, 0x327B23C6, 0x643C9869, 0x66334873, 0x74B0DC51, 0x19495CFF, 0x2AE8944A,
                              0x625558EC]

  datatype PyModule = PyModule(path: Bytes, flags: u32, stroffset: u32)

  predicate Text(s: Bytes)
  {
    forall i :: 0 <= i < |s| ==> 0 < s[i] < 0x80
  }

  // ----- the names, each once -----

  function Trim(src: seq<Bytes>, kept: seq<Bytes>): (r: seq<Bytes>)
    decreases |src|
  {
    if src == [] then kept else Trim(src[1..], if src[0] in kept then kept else kept + [src[0]])
  }

  predicate Distinct(s: seq<Bytes>)
  {
    forall i, j :: 0 <= i < j < |s| ==> s[i] != s[j]
  }

  lemma {:induction false} TrimKeeps(src: seq<Bytes>, kept: seq<Bytes>)
    requires Distinct(kept)
    ensures var r := Trim(src, kept);
      Distinct(r) && kept <= r && (forall p :: p in src || p in kept <==> p in r)
    decreases |src|
  {
    if src != [] {
      var next := if src[0] in kept then kept else kept + [src[0]];
      TrimKeeps(src[1..], next);
      assert forall p :: p in src <==> p == src[0] || p in src[1..];
    }
  }

  method TrimList(srcList: seq<Bytes>) returns (newList: seq<Bytes>)
    ensures newList == Trim(srcList, [])
  {
    newList := [];
    assert srcList[0..] == srcList;
    for i := 0 to |srcList|
      invariant Trim(srcList[i..], newList) == Trim(srcList, [])
    {
      assert srcList[i..][1..] == srcList[i + 1..];
      if srcList[i] !in newList {
        newList := newList + [srcList[i]];
      }
    }
  }

  // All names, each with its NUL.
  function Names(s: seq<Bytes>): Bytes
  {
    if s == [] then [] else s[0] + [0] + Names(s[1..])
  }

  function OffsetOf(s: seq<Bytes>, p: Bytes): nat
  {
    if s == [] || s[0] == p then 0 else |s[0]| + 1 + OffsetOf(s[1..], p)
  }

  lemma {:induction false} NameStands(s: seq<Bytes>, p: Bytes)
    requires p in s && forall q :: q in s ==> 0 !in q
    ensures OffsetOf(s, p) < |Names(s)| && CString(Names(s), OffsetOf(s, p)) == p
  {
    if s[0] == p {
      NameInFront(p, Names(s[1..]));
    } else {
      NameStands(s[1..], p);
      NameBehind(s[0] + [0], Names(s[1..]), OffsetOf(s[1..], p));
    }
  }

  lemma NameInFront(p: Bytes, rest: Bytes)
    requires 0 !in p
    ensures CString(p + [0] + rest, 0) == p
  {
    var s := p + [0] + rest;
    assert s[0..|p|] == p && s[|p|] == 0;
    CStringUnique(s, 0, p);
  }

  lemma {:induction false} NameBehind(front: Bytes, s: Bytes, i: nat)
    requires i <= |s|
    ensures CString(front + s, |front| + i) == CString(s, i)
    decreases |s| - i
  {
    if i < |s| && s[i] != 0 { NameBehind(front, s, i + 1); }
  }

  lemma {:induction false} NamesEnd(s: seq<Bytes>)
    ensures s != [] ==> Names(s) != [] && Names(s)[|Names(s)| - 1] == 0
  {
    if |s| > 1 { NamesEnd(s[1..]); }
  }

  lemma {:induction false} NamesAppend(s: seq<Bytes>, p: Bytes)
    ensures Names(s + [p]) == Names(s) + (p + [0])
    ensures p !in s ==> OffsetOf(s + [p], p) == |Names(s)|
  {
    if s == [] {
      assert s + [p] == [p] && [p][1..] == [];
    } else {
      NamesAppend(s[1..], p);
      assert (s + [p])[1..] == s[1..] + [p];
    }
  }

  lemma {:induction false} OffsetInPrefix(s: seq<Bytes>, n: nat, p: Bytes)
    requires n <= |s| && p in s[..n]
    ensures OffsetOf(s, p) == OffsetOf(s[..n], p)
  {
    if s[0] != p {
      assert s[..n][1..] == s[1..][..n - 1];
      OffsetInPrefix(s[1..], n - 1, p);
    }
  }

  // ----- the file of a list -----

  function Paths(l: seq<PyModule>): (p: seq<Bytes>)
    ensures |p| == |l|
  {
    seq(|l|, i requires 0 <= i < |l| => l[i].path)
  }

  predicate ModeUsed(l: seq<PyModule>, mode: u32)
  {
    exists i :: 0 <= i < |l| && And(mode, l[i].flags) != 0
  }

  function UsedModes(l: seq<PyModule>, modes: seq<(u32, u32)>): seq<(u32, u32)>
  {
    if modes == [] then []
    else (if ModeUsed(l, modes[0].0) then [modes[0]] else []) + UsedModes(l, modes[1..])
  }

  function ModeOf(n: u16, mode: (u32, u32)): Mode
  {
    Mode(n, Half(0) + Word(mode.0) + Word(mode.1) + Exactly([], 20))
  }

  function EntryOf(m: PyModule): Entry
  {
    Entry(m.stroffset, 0, m.flags, Exactly([], 20))
  }

  function Entries(l: seq<PyModule>): (e: seq<Entry>)
    ensures |e| == |l|
  {
    seq(|l|, i requires 0 <= i < |l| => EntryOf(l[i]))
  }

  function ModesOf(n: u16, used: seq<(u32, u32)>): (m: seq<Mode>)
    ensures |m| == |used|
  {
    seq(|used|, i requires 0 <= i < |used| => ModeOf(n, used[i]))
  }

  // 16 bits hold the number of modules, or there is no file with modes.
  function Modes(l: seq<PyModule>): seq<Mode>
  {
    if |l| >= 0x1_0000 then [] else ModesOf(|l|, UsedModes(l, MODES))
  }

  // Every module knows where its name stands.
  ghost predicate Placed(l: seq<PyModule>)
  {
    forall i :: 0 <= i < |l| ==> l[i].stroffset == OffsetOf(Trim(Paths(l), []), l[i].path)
  }

  function Built(l: seq<PyModule>, fwVersion: u32): Config
  {
    Config(fwVersion, UNKNOWN, Modes(l), Entries(l), Names(Trim(Paths(l), [])), NO_GAPS)
  }

  // What the list says, as opposed to where the names stand.
  function Content(l: seq<PyModule>): (r: seq<Module>)
    ensures |r| == |l|
  {
    seq(|l|, i requires 0 <= i < |l| => Module(l[i].path, l[i].flags))
  }

  lemma EntryNamed(l: seq<PyModule>, uniq: seq<Bytes>, i: nat)
    requires uniq == Trim(Paths(l), []) && i < |l| && Placed(l)
    requires forall k :: 0 <= k < |l| ==> Text(l[k].path)
    ensures l[i].stroffset < |Names(uniq)| && CString(Names(uniq), l[i].stroffset) == l[i].path
  {
    TrimKeeps(Paths(l), []);
    assert Paths(l)[i] == l[i].path && l[i].path in Paths(l);
    forall q | q in uniq ensures 0 !in q {
      assert q in Paths(l);
      var k :| 0 <= k < |l| && Paths(l)[k] == q;
      assert Text(l[k].path);
    }
    NameStands(uniq, l[i].path);
  }

  // The built file is well formed, every mode counts all modules, and its
  // modules are those of the list.
  lemma BuiltIsList(l: seq<PyModule>, fwVersion: u32)
    requires Placed(l) && (forall k :: 0 <= k < |l| ==> Text(l[k].path))
    requires Built(l, fwVersion).NameEnd() < 0x8000_0000
    ensures var c := Built(l, fwVersion); WellFormed(c) && Counted(c) && Modules(c) == Content(l)
  {
    var c, uniq := Built(l, fwVersion), Trim(Paths(l), []);
    NamesEnd(uniq);
    EntriesAre(l, uniq);
    ModesCount(l);
    PartsMakeList(c, Names(uniq), l);
  }

  lemma ModesCount(l: seq<PyModule>)
    ensures forall i :: 0 <= i < |Modes(l)| ==> Modes(l)[i].count == |l| % 0x1_0000
  {
  }

  lemma PartsMakeList(c: Config, names: Bytes, l: seq<PyModule>)
    requires c.Fits() && c.names == names && c.modules == Entries(l) && c.modes == Modes(l)
    requires (names != [] ==> names[|names| - 1] == 0) && ListOf(names, Entries(l)) == Content(l)
    requires forall i :: 0 <= i < |l| ==> Entries(l)[i].path < |names|
    requires forall i :: 0 <= i < |Modes(l)| ==> Modes(l)[i].count == |l| % 0x1_0000
    ensures WellFormed(c) && Counted(c) && Modules(c) == Content(l)
  {
  }

  lemma EntriesAre(l: seq<PyModule>, uniq: seq<Bytes>)
    requires uniq == Trim(Paths(l), []) && Placed(l) && forall k :: 0 <= k < |l| ==> Text(l[k].path)
    ensures ListOf(Names(uniq), Entries(l)) == Content(l)
    ensures forall i :: 0 <= i < |l| ==> Entries(l)[i].path < |Names(uniq)|
  {
    forall i | 0 <= i < |l|
      ensures l[i].stroffset < |Names(uniq)| && ModuleOf(Names(uniq), EntryOf(l[i])) == Content(l)[i]
    {
      EntryNamed(l, uniq, i);
    }
  }

  // ----- writing the file -----

  // f.seek(pos); f.write(data)
  function WriteAt(f: Bytes, pos: nat, data: Bytes): Bytes
    requires pos <= |f|
  {
    f[..pos] + data + (if pos + |data| <= |f| then f[pos + |data|..] else [])
  }

  lemma AtEnd(f: Bytes, data: Bytes)
    ensures WriteAt(f, |f|, data) == f + data
  {
  }

  lemma WriteMore(f: Bytes, pos: nat, a: Bytes, b: Bytes)
    requires pos <= |f|
    ensures pos + |a| <= |WriteAt(f, pos, a)|
    ensures WriteAt(WriteAt(f, pos, a), pos + |a|, b) == WriteAt(f, pos, a + b)
  {
  }

  lemma TableAppend<T>(record: T -> Bytes, xs: seq<T>, x: T)
    requires |record(x)| == 32
    ensures Table(record, xs + [x]) == Table(record, xs) + record(x)
  {
    TableInserted(record, xs, |xs|, x);
    assert xs[..|xs|] + [x] + xs[|xs|..] == xs + [x];
  }

  lemma TablePrefix<T>(record: T -> Bytes, xs: seq<T>, i: nat)
    requires i < |xs| && |record(xs[i])| == 32
    ensures Table(record, xs[..i + 1]) == Table(record, xs[..i]) + record(xs[i])
  {
    TableAppend(record, xs[..i], xs[i]);
    assert xs[..i + 1] == xs[..i] + [xs[i]];
  }

  datatype Packed = Packed(file: Bytes) | StructError

  class PspBtCnf {
    var moduleList: seq<PyModule>
    var fwVersion: u32

    constructor ()
      ensures moduleList == [] && fwVersion == 0
    {
      moduleList, fwVersion := [], 0;
    }

    method WriteModuleEntry(f0: Bytes, modulestart: nat) returns (f: Bytes)
      requires modulestart <= |f0|
      ensures f == WriteAt(f0, modulestart, Table(EntryBytes, Entries(moduleList)))
    {
      f := f0;
      var pos := modulestart;
      for i := 0 to |moduleList|
        invariant pos == modulestart + 32 * i
        invariant f == WriteAt(f0, modulestart, Table(EntryBytes, Entries(moduleList[..i])))
      {
        ghost var xs := Entries(moduleList[..i]);
        var e := EntryOf(moduleList[i]);
        WriteMore(f0, modulestart, Table(EntryBytes, xs), EntryBytes(e));
        TableAppend(EntryBytes, xs, e);
        assert Entries(moduleList[..i + 1]) == xs + [e];
        f := WriteAt(f, pos, EntryBytes(e));
        pos := pos + 32;
      }
      assert moduleList[..|moduleList|] == moduleList;
    }

    method IsModeUsed(mode: u32) returns (used: bool)
      ensures used == ModeUsed(moduleList, mode)
    {
      for i := 0 to |moduleList|
        invariant forall k :: 0 <= k < i ==> And(mode, moduleList[k].flags) == 0
      {
        if And(mode, moduleList[i].flags) != 0 { return true; }
      }
      return false;
    }

    method GetUsedMode() returns (usedMode: seq<(u32, u32)>)
      ensures usedMode == UsedModes(moduleList, MODES)
    {
      usedMode := UsedOf(MODES);
    }

    method UsedOf(modes: seq<(u32, u32)>) returns (usedMode: seq<(u32, u32)>)
      ensures usedMode == UsedModes(moduleList, modes)
    {
      usedMode := [];
      assert modes[0..] == modes;
      for i := 0 to |modes|
        invariant usedMode + UsedModes(moduleList, modes[i..]) == UsedModes(moduleList, modes)
      {
        assert modes[i..][1..] == modes[i + 1..];
        var used := IsModeUsed(modes[i].0);
        if used {
          usedMode := usedMode + [modes[i]];
        }
      }
    }

    // ModeEntry packs the number of modules into 16 bits.
    method WriteMode(f0: Bytes, nmodules: nat) returns (r: Packed, nmode: nat, modestart: nat)
      requires nmodules == |moduleList|
      ensures r.StructError? <==> nmodules >= 0x1_0000 && UsedModes(moduleList, MODES) != []
      ensures modestart == |f0| && nmode == |UsedModes(moduleList, MODES)|
      ensures r.Packed? ==> r.file == f0 + Table(ModeBytes, Modes(moduleList)) && nmode == |Modes(moduleList)|
    {
      var modes := GetUsedMode();
      nmode := |modes|;
      modestart := |f0|;
      var f := f0;
      if nmodules >= 0x1_0000 {
        r := if modes == [] then Packed(f) else StructError;
        return;
      }
      f := AppendModes(f0, nmodules, modes);
      r := Packed(f);
    }

    static method AppendModes(f0: Bytes, nmodules: u16, modes: seq<(u32, u32)>) returns (f: Bytes)
      ensures f == f0 + Table(ModeBytes, ModesOf(nmodules, modes))
    {
      ghost var all := ModesOf(nmodules, modes);
      f := f0;
      for i := 0 to |modes|
        invariant f == f0 + Table(ModeBytes, all[..i])
      {
        TablePrefix(ModeBytes, all, i);
        f := f + ModeBytes(ModeOf(nmodules, modes[i]));
      }
      assert all[..|modes|] == all;
    }

    method UpdateModuleStrOffset(path: Bytes, stroffset: u32)
      modifies this`moduleList
      ensures |moduleList| == |old(moduleList)|
      ensures forall i :: 0 <= i < |moduleList| ==>
        moduleList[i] == if old(moduleList[i].path) == path then old(moduleList[i]).(stroffset := stroffset)
            else old(moduleList[i])
    {
      for k := 0 to |moduleList|
        invariant |moduleList| == |old(moduleList)|
        invariant forall i :: k <= i < |moduleList| ==> moduleList[i] == old(moduleList[i])
        invariant forall i :: 0 <= i < k ==>
          moduleList[i] == if old(moduleList[i].path) == path then old(moduleList[i]).(stroffset := stroffset)
              else old(moduleList[i])
      {
        if moduleList[k].path == path {
          moduleList := moduleList[k := moduleList[k].(stroffset := stroffset)];
        }
      }
    }

    method WriteModuleString(f0: Bytes, modnamestart: nat) returns (f: Bytes)
      requires modnamestart == |f0| && |Names(Trim(Paths(moduleList), []))| < WORD
      modifies this`moduleList
      ensures f == f0 + Names(Trim(Paths(old(moduleList)), []))
      ensures Content(moduleList) == Content(old(moduleList)) && Paths(moduleList) == Paths(old(moduleList))
      ensures Placed(moduleList)
    {
      ghost var l := moduleList;
      var modstrings := TrimList(Paths(moduleList));
      TrimKeeps(Paths(l), []);
      f := f0;
      for i := 0 to |modstrings|
        invariant f == f0 + Names(modstrings[..i]) && PlacedUpTo(moduleList, l, modstrings, i)
      {
        NextName(modstrings, i);
        f := WriteName(f, modnamestart, modstrings, i, l);
      }
      assert modstrings[..|modstrings|] == modstrings;
      AllPlaced(moduleList, l, modstrings);
    }

    method WriteName(f: Bytes, modnamestart: nat, modstrings: seq<Bytes>, i: nat, ghost l: seq<PyModule>)
        returns (f': Bytes)
      requires i < |modstrings| && PlacedUpTo(moduleList, l, modstrings, i) && |f| < modnamestart + WORD
      requires |f| == modnamestart + OffsetOf(modstrings, modstrings[i])
      modifies this`moduleList
      ensures f' == f + (modstrings[i] + [0]) && PlacedUpTo(moduleList, l, modstrings, i + 1)
    {
      var modstr := modstrings[i];
      UpdateModuleStrOffset(modstr, |f| - modnamestart);
      f' := f + (modstr + [0]);
      assert modstrings[..i + 1] == modstrings[..i] + [modstr];
    }

    // The header goes in empty, and again with the entries once the places of
    // all parts are known.
    method OutputBin() returns (r: Packed)
      requires Built(moduleList, fwVersion).NameEnd() < 0x8000_0000
      modifies this`moduleList
      ensures r.StructError? <==> |moduleList| >= 0x1_0000 && UsedModes(old(moduleList), MODES) != []
      ensures Content(moduleList) == Content(old(moduleList))
      ensures r.Packed? ==> Placed(moduleList) && Built(moduleList, fwVersion).Fits()
                            && r.file == Built(moduleList, fwVersion).Encode()
    {
      ghost var l := moduleList;
      var nmodules := |moduleList|;
      var f := WordsBytes(HeaderWords(fwVersion, 0, 0, 0, 0, 0, 0));
      ghost var h0 := f;
      var nmode, modestart;
      r, nmode, modestart := WriteMode(f, nmodules);
      if r.StructError? { return; }
      var modulestart := |r.file|;
      var modnamestart, modulesend;
      f, modnamestart, modulesend := WriteTables(r.file, modulestart, h0);
      HeaderOf(l, moduleList, fwVersion, h0, modestart, nmode, modulestart, nmodules, modnamestart, modulesend);
      f := Rewrite(f, HeaderWords(fwVersion, modestart, nmode, modulestart, nmodules, modnamestart, modulesend),
                   modulestart, l, h0);
      r := Packed(f);
    }

    // The entries, not knowing their names yet, and the names.
    method WriteTables(f0: Bytes, modulestart: nat, ghost h0: Bytes)
        returns (f: Bytes, modnamestart: nat, modulesend: nat)
      requires modulestart == |f0| && f0 == h0 + Table(ModeBytes, Modes(moduleList))
      requires |Names(Trim(Paths(moduleList), []))| < WORD
      modifies this`moduleList
      ensures Content(moduleList) == Content(old(moduleList)) && Paths(moduleList) == Paths(old(moduleList))
        && Placed(moduleList)
      ensures var l := old(moduleList);
        && f == h0 + Table(ModeBytes, Modes(l)) + Table(EntryBytes, Entries(l)) + Names(Trim(Paths(l), []))
        && modnamestart == modulestart + 32 * |l| && modulesend == |f|
    {
      f := WriteModuleEntry(f0, modulestart);
      AtEnd(f0, Table(EntryBytes, Entries(moduleList)));
      modnamestart := |f|;
      f := WriteModuleString(f, modnamestart);
      modulesend := |f|;
    }

    // The header and the entries once more, now with all places known.
    method Rewrite(f0: Bytes, ws: seq<u32>, modulestart: u32, ghost l: seq<PyModule>, ghost h0: Bytes)
        returns (f: Bytes)
      requires Content(l) == Content(moduleList) && Paths(l) == Paths(moduleList)
      requires Built(l, fwVersion).NameEnd() < 0x8000_0000 && |h0| == 64
      requires f0 == h0 + Table(ModeBytes, Modes(l)) + Table(EntryBytes, Entries(l)) + Names(Trim(Paths(l), []))
      requires modulestart == 64 + 32 * |Modes(l)| && IsHeader(ws, l, moduleList, fwVersion)
      ensures Built(moduleList, fwVersion).Fits() && f == Built(moduleList, fwVersion).Encode()
    {
      BuiltFile(l, moduleList, fwVersion, h0, f0, modulestart, ws);
      f := WriteAt(f0, 0, WordsBytes(ws));
      f := WriteModuleEntry(f, modulestart);
    }

    // ----- reading the file -----

    method LoadBinWith(data: Bytes, ghost f: Format, ghost c: Config) returns (ok: bool)
      requires Encodes(f) && Loaded(f, data, c)
      modifies this
      ensures ok <==> Le32(data, 0) == MAGIC
      ensures ok ==> fwVersion == c.devkit && Content(moduleList) == Content(old(moduleList)) + Modules(c)
    {
      if Le32(data, 0) != 0x0F803001 { return false; }
      HeaderFields(f, c, data);
      DevkitRead(f, c, data);
      fwVersion := Le32(data, 4);
      LoadModules(data, Le32(data, 0x24), Le32(data, 0x20), Le32(data, 0x30), f, c, Modules(c));
      return true;
    }

    // A file without the signature, or one that begins with this configuration.
    method LoadBin(data: Bytes, ghost c: Config) returns (ok: bool)
      requires Begins(data, c)
      modifies this
      ensures ok <==> Le32(data, 0) == MAGIC
      ensures ok ==> fwVersion == c.devkit && Content(moduleList) == Content(old(moduleList)) + Modules(c)
    {
      BeginsLoaded(data, c);
      ok := LoadBinWith(data, FormatOf(c.gaps), c);
    }

    method LoadModules(data: Bytes, nmodules: nat, modulestart: nat, modnamestart: nat, ghost f: Format,
                       ghost c: Config, ghost l: seq<Module>)
      requires Encodes(f) && Holds(f, data, c) && l == Modules(c)
      requires nmodules == |c.modules| && modulestart == c.ModuleStart() && modnamestart == c.NameStart()
      modifies this`moduleList
      ensures Content(moduleList) == Content(old(moduleList)) + l
    {
      ghost var l0 := Content(moduleList);
      for i := 0 to nmodules
        invariant Content(moduleList) == l0 + l[..i]
      {
        var m := LoadModule(data, modulestart + i * 32, modnamestart, f, c, i);
        ContentAppend(moduleList, m);
        assert l[..i + 1] == l[..i] + [l[i]];
        moduleList := moduleList + [m];
      }
      assert l[..nmodules] == l;
    }
  }

  // The modules whose names are among the first i know where they stand.
  ghost predicate PlacedUpTo(l': seq<PyModule>, l: seq<PyModule>, modstrings: seq<Bytes>, i: nat)
    requires i <= |modstrings|
  {
    && SameContent(l', l)
    && forall k :: 0 <= k < |l| && l[k].path in modstrings[..i] ==> l'[k].stroffset == OffsetOf(modstrings, l[k].path)
  }

  lemma AllPlaced(l': seq<PyModule>, l: seq<PyModule>, modstrings: seq<Bytes>)
    requires modstrings == Trim(Paths(l), []) && PlacedUpTo(l', l, modstrings, |modstrings|)
    ensures Content(l') == Content(l) && Paths(l') == Paths(l) && Placed(l')
  {
    ContentIsSame(l', l);
    TrimKeeps(Paths(l), []);
    assert modstrings[..|modstrings|] == modstrings;
    forall k | 0 <= k < |l| ensures l[k].path in modstrings { assert Paths(l)[k] in Paths(l); }
  }

  // One entry with its name.
  method LoadModule(data: Bytes, pos: nat, modnamestart: nat, ghost f: Format, ghost c: Config, ghost i: nat)
    returns (m: PyModule)
    requires Encodes(f) && Holds(f, data, c) && i < |c.modules|
    requires pos == c.ModuleStart() + 32 * i && modnamestart == c.NameStart()
    ensures Module(m.path, m.flags) == Modules(c)[i]
  {
    EntryWords(f, c, data, i);
    EntryName(f, c, data, i);
    ModuleFlags(c, i);
    var offset := Le32(data, pos);
    m := PyModule(CString(data, modnamestart + offset), Le32(data, pos + 8), 0);
  }

  lemma ModuleFlags(c: Config, k: nat)
    requires k < |c.modules|
    ensures Modules(c)[k].flags == c.modules[k].flags
  {
  }

  lemma ContentAppend(l: seq<PyModule>, m: PyModule)
    ensures Content(l + [m]) == Content(l) + [Module(m.path, m.flags)]
  {
  }

  lemma DevkitRead(f: Format, c: Config, buf: Bytes)
    requires Encodes(f) && Holds(f, buf, c)
    ensures |buf| >= 64 && Le32(buf, 4) == c.devkit
  {
    assert c.Encode() <= buf;
    HeaderRead(c, buf, 1);
  }

  // ----- built, edited and read back -----

  method Copy(s: Bytes, n: nat) returns (buf: array<u8>)
    requires |s| <= n
    ensures fresh(buf) && buf.Length == n && buf[..|s|] == s
  {
    buf := new u8[n](_ => 0);
    PutBytes(buf, 0, s);
  }

  // The file of a list, with a module added by AddPRX, is read back as the
  // list with the module put in front of the first insertbefore.
  method AddToBuilt(cnf: PspBtCnf, insertbefore: Bytes, prxname: Bytes, flags: u32) returns (loaded: PspBtCnf)
    requires |cnf.moduleList| < 0x1_0000 && UsedModes(cnf.moduleList, MODES) != []
    requires forall k :: 0 <= k < |cnf.moduleList| ==> Text(Content(cnf.moduleList)[k].name)
    requires Text(prxname) && Room(Built(cnf.moduleList, cnf.fwVersion), |prxname| + 1)
    requires IndexOfName(Content(cnf.moduleList), insertbefore) < |cnf.moduleList|
    modifies cnf
    ensures fresh(loaded) && loaded.fwVersion == old(cnf.fwVersion)
    ensures var l := Content(old(cnf.moduleList));
      Content(loaded.moduleList) == Inserted(l, IndexOfName(l, insertbefore), Module(prxname, StoredFlags(flags)))
  {
    ghost var f, l := FormatOf(NO_GAPS), Content(cnf.moduleList);
    FormatEncodes(NO_GAPS);
    var r := cnf.OutputBin();
    ghost var c := Built(cnf.moduleList, cnf.fwVersion);
    CarriesOver(old(cnf.moduleList), cnf.moduleList, cnf.fwVersion);
    BuiltHolds(cnf.moduleList, l, cnf.fwVersion, f, insertbefore);
    var buf := Copy(r.file, |r.file| + 33 + |prxname|);
    assert Holds(f, buf[..], c);
    StillLoaded(f, c, buf[..]);
    loaded := AddAndLoad(buf, insertbefore, prxname, flags, f, c);
  }

  lemma ContentTells(l: seq<PyModule>, l': seq<PyModule>)
    requires Content(l) == Content(l')
    ensures SameContent(l, l')
  {
    assert |l| == |Content(l)| == |Content(l')| == |l'|;
    forall i | 0 <= i < |l| ensures l[i].path == l'[i].path && l[i].flags == l'[i].flags {
      assert Content(l)[i] == Content(l')[i];
    }
  }

  // Only the places of the names change while the file is written.
  lemma CarriesOver(l: seq<PyModule>, l': seq<PyModule>, fw: u32)
    requires Content(l) == Content(l')
    ensures UsedModes(l', MODES) == UsedModes(l, MODES) && Built(l', fw).NameEnd() == Built(l, fw).NameEnd()
  {
    ContentTells(l, l');
    ContentIsSame(l, l');
    SameModes(l, l', MODES);
  }

  lemma BuiltHolds(l: seq<PyModule>, list: seq<Module>, fw: u32, f: Format, before: Bytes)
    requires Encodes(f) && Placed(l) && Content(l) == list && |l| < 0x1_0000 && UsedModes(l, MODES) != []
    requires Built(l, fw).NameEnd() < 0x8000_0000 && IndexOfName(list, before) < |l|
    requires forall k :: 0 <= k < |l| ==> Text(list[k].name)
    ensures var c := Built(l, fw);
      && WellFormed(c) && f.whole(c) == c.Encode() && Modules(c) == list && c.devkit == fw
      && Search(c, before) == IndexOfName(list, before)
  {
    forall k | 0 <= k < |l| ensures Text(l[k].path) { assert Content(l)[k].name == l[k].path; }
    BuiltIsList(l, fw);
    assert Built(l, fw).Encode() == f.whole(Built(l, fw));
  }

  method AddAndLoad(buf: array<u8>, insertbefore: Bytes, prxname: Bytes, flags: u32, ghost f: Format, ghost c: Config)
    returns (loaded: PspBtCnf)
    requires Encodes(f) && Loaded(f, buf[..], c) && Le32(buf[..], 0) == MAGIC && Spare(buf[..], c, prxname)
    requires 0 !in prxname && Search(c, insertbefore) >= 0
    modifies buf
    ensures fresh(loaded) && loaded.fwVersion == c.devkit
    ensures Content(loaded.moduleList)
         == Inserted(Modules(c), IndexOfName(Modules(c), insertbefore), Module(prxname, StoredFlags(flags)))
  {
    var end := AddPRXWith(buf, insertbefore, prxname, flags, f, c);
    AddIsInsert(c, insertbefore, prxname, flags);
    ghost var d := Add(c, insertbefore, prxname, flags).1;
    loaded := new PspBtCnf();
    StillLoaded(f, d, buf[..]);
    var ok := loaded.LoadBinWith(buf[..], f, d);
    AddKeepsDevkit(c, insertbefore, prxname, flags);
  }

  lemma AddKeepsDevkit(c: Config, before: Bytes, name: Bytes, flags: u32)
    requires c.Fits()
    ensures Add(c, before, name, flags).1.devkit == c.devkit
  {
  }

  ghost predicate IsHeader(ws: seq<u32>, l: seq<PyModule>, l': seq<PyModule>, fw: u32)
  {
    var i, end := 64 + 32 * |Modes(l)|, Built(l, fw).NameEnd();
    end < 0x8000_0000 && ws == HeaderWords(fw, 64, |Modes(l)|, i, |l|, i + 32 * |l|, end)
  }

  // The places found while writing are those of the finished file.
  lemma HeaderOf(l: seq<PyModule>, l': seq<PyModule>, fw: u32, h0: Bytes, modestart: nat, nmode: nat, modulestart: nat,
                 nmodules: nat, modnamestart: nat, modulesend: nat)
    requires |h0| == 64 && Built(l, fw).NameEnd() < 0x8000_0000
    requires modestart == |h0| && nmode == |Modes(l)| && modulestart == |h0 + Table(ModeBytes, Modes(l))|
      && nmodules == |l|
    requires modnamestart == modulestart + 32 * |l| && modulesend == modnamestart + |Names(Trim(Paths(l), []))|
    ensures modulesend < WORD
    ensures IsHeader(HeaderWords(fw, modestart, nmode, modulestart, nmodules, modnamestart, modulesend), l, l', fw)
  {
    assert modulesend == Built(l, fw).NameEnd();
    assert modulestart == 64 + 32 * |Modes(l)|;
  }

  // Writing over the header and the entries replaces just them.
  lemma Assembled(h0: Bytes, m: Bytes, t0: Bytes, n: Bytes, h1: Bytes, t1: Bytes)
    requires |h0| == |h1| && |t0| == |t1|
    ensures WriteAt(h0 + m + t0 + n, 0, h1) == h1 + m + t0 + n
    ensures WriteAt(h1 + m + t0 + n, |h0 + m|, t1) == h1 + m + t1 + n
  {
  }

  // The modes in use depend on the flags alone.
  lemma {:induction false} SameModes(l: seq<PyModule>, l': seq<PyModule>, modes: seq<(u32, u32)>)
    requires SameContent(l, l')
    ensures UsedModes(l, modes) == UsedModes(l', modes)
  {
    if modes != [] {
      SameModes(l, l', modes[1..]);
      var mode := modes[0].0;
      if ModeUsed(l, mode) {
        var i :| 0 <= i < |l| && And(mode, l[i].flags) != 0;
        assert And(mode, l'[i].flags) != 0;
      }
      if ModeUsed(l', mode) {
        var i :| 0 <= i < |l| && And(mode, l'[i].flags) != 0;
        assert And(mode, l[i].flags) != 0;
      }
    }
  }

  lemma BuiltHeader(l: seq<PyModule>, l': seq<PyModule>, fw: u32)
    requires Content(l) == Content(l') && Paths(l) == Paths(l') && Built(l, fw).NameEnd() < 0x8000_0000
    ensures var c, i, j := Built(l', fw), 64 + 32 * |Modes(l)|, 64 + 32 * |Modes(l)| + 32 * |l|;
      && c.modes == Modes(l) && c.Fits() && c.NameEnd() == Built(l, fw).NameEnd() == j + |Names(Trim(Paths(l), []))|
      && c.Header() == HeaderWords(fw, 64, |Modes(l)|, i, |l|, j, c.NameEnd())
  {
    ContentTells(l, l');
    SameModes(l, l', MODES);
  }

  lemma BuiltParts(l: seq<PyModule>, l': seq<PyModule>, fw: u32)
    requires Content(l) == Content(l') && Paths(l) == Paths(l') && Built(l, fw).NameEnd() < 0x8000_0000
    ensures var c, i, j := Built(l', fw), 64 + 32 * |Modes(l)|, 64 + 32 * |Modes(l)| + 32 * |l|;
      && c.Fits() && c.NameEnd() == Built(l, fw).NameEnd() == j + |Names(Trim(Paths(l), []))|
      && c.Header() == HeaderWords(fw, 64, |Modes(l)|, i, |l|, j, c.NameEnd())
      && c.Encode() == WordsBytes(c.Header()) + Table(ModeBytes, Modes(l)) + Table(EntryBytes, Entries(l'))
          + Names(Trim(Paths(l), []))
  {
    BuiltHeader(l, l', fw);
    BuiltWhole(Built(l', fw));
  }

  lemma BuiltWhole(c: Config)
    requires c.Fits() && c.gaps == NO_GAPS
    ensures c.Encode() == WordsBytes(c.Header()) + Table(ModeBytes, c.modes) + Table(EntryBytes, c.modules) + c.names
  {
    WithoutGaps(c.Header(), c.modes, c.modules, c.names);
  }

  lemma WithoutGaps(ws: seq<u32>, modes: seq<Mode>, modules: seq<Entry>, names: Bytes)
    ensures FileBytes(NO_GAPS, ws, modes, modules, names)
         == WordsBytes(ws) + Table(ModeBytes, modes) + Table(EntryBytes, modules) + names
  {
    var w, m, t := WordsBytes(ws), Table(ModeBytes, modes), Table(EntryBytes, modules);
    assert w + [] == w && m + [] == m && t + [] == t;
  }

  lemma BuiltFile(l: seq<PyModule>, l': seq<PyModule>, fw: u32, h0: Bytes, f: Bytes, i: nat, ws: seq<u32>)
    requires IsHeader(ws, l, l', fw)
    requires Content(l) == Content(l') && Paths(l) == Paths(l') && Built(l, fw).NameEnd() < 0x8000_0000
    requires |h0| == 64 && i == 64 + 32 * |Modes(l)|
    requires f == h0 + Table(ModeBytes, Modes(l)) + Table(EntryBytes, Entries(l)) + Names(Trim(Paths(l), []))
    ensures |WordsBytes(ws)| == 64 <= |f| && i <= |WriteAt(f, 0, WordsBytes(ws))| && Built(l', fw).Fits()
    ensures WriteAt(WriteAt(f, 0, WordsBytes(ws)), i, Table(EntryBytes, Entries(l'))) == Built(l', fw).Encode()
  {
    BuiltParts(l, l', fw);
    WrittenTwice(f, h0, Table(ModeBytes, Modes(l)), Table(EntryBytes, Entries(l)), Names(Trim(Paths(l), [])),
                 WordsBytes(ws), Table(EntryBytes, Entries(l')), i);
  }

  lemma WrittenTwice(f: Bytes, h0: Bytes, m: Bytes, t0: Bytes, n: Bytes, h1: Bytes, t1: Bytes, i: nat)
    requires f == h0 + m + t0 + n && |h0| == |h1| && |t0| == |t1| && i == |h0| + |m|
    ensures |h1| <= |f| && i <= |WriteAt(f, 0, h1)| && WriteAt(WriteAt(f, 0, h1), i, t1) == h1 + m + t1 + n
  {
    Assembled(h0, m, t0, n, h1, t1);
  }

  function HeaderWords(devkit: u32, modestart: u32, nmodes: u32, modulestart: u32, nmodules: u32, modnamestart: u32,
                       modnameend: u32): (h: seq<u32>)
    ensures |h| == 16
  {
    [0x0F803001, devkit, 0x6B8B4567, 0x327B23C6, modestart, nmodes, 0x643C9869, 0x66334873,
     modulestart, nmodules, 0x74B0DC51, 0x19495CFF, modnamestart, modnameend, 0x2AE8944A, 0x625558EC]
  }

  ghost predicate SameContent(l: seq<PyModule>, l': seq<PyModule>)
  {
    |l| == |l'| && forall i :: 0 <= i < |l| ==> l[i].path == l'[i].path && l[i].flags == l'[i].flags
  }

  lemma ContentIsSame(l: seq<PyModule>, l': seq<PyModule>)
    requires SameContent(l, l')
    ensures Content(l) == Content(l') && Paths(l) == Paths(l')
  {
  }

  lemma NextName(s: seq<Bytes>, i: nat)
    requires Distinct(s) && i < |s|
    ensures s[..i + 1] == s[..i] + [s[i]] && Names(s[..i + 1]) == Names(s[..i]) + (s[i] + [0])
    ensures OffsetOf(s, s[i]) == |Names(s[..i])| <= |Names(s)|
  {
    assert s[..i + 1] == s[..i] + [s[i]];
    NamesAppend(s[..i], s[i]);
    OffsetInPrefix(s, i + 1, s[i]);
    NamesPrefix(s, i);
  }

  lemma {:induction false} NamesPrefix(s: seq<Bytes>, n: nat)
    requires n <= |s|
    ensures |Names(s[..n])| <= |Names(s)|
  {
    if n > 0 {
      assert s[..n][1..] == s[1..][..n - 1];
      NamesPrefix(s[1..], n - 1);
    }
  }
}
