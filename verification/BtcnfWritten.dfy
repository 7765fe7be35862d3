/** The file btcnf.py writes, in bytes and words: the header, a record for every
    runlevel in use, and the modules of the list. */
module BtcnfWritten {
  import opened Bits
  import opened ByteArrays
  import opened Btcnf
  import opened BtcnfList
  import opened BtcnfMove
  import opened BtcnfSeen
  import opened BtcnfBuild

  // Some module of the list boots in that runlevel.
  ghost predicate InUse(l: seq<Module>, j: nat)
  {
    exists i :: 0 <= i < |l| && Bit(l[i].flags, j)
  }

  // How many of the first j runlevels are in use.
  ghost function UsedBelow(l: seq<Module>, j: nat): nat
  {
    if j == 0 then 0 else UsedBelow(l, j - 1) + if InUse(l, j - 1) then 1 else 0
  }

  // The sixteen words of the header.
  ghost predicate HeaderWritten(f: Bytes, fwVersion: u32, nmodes: nat, nmodules: nat)
  {
    && At(f, 0x00) == 0x0F803001 && At(f, 0x04) == fwVersion && At(f, 0x08) == 0x6B8B4567 && At(f, 0x0C) == 0x327B23C6
    && At(f, 0x10) == 64 && At(f, 0x14) == nmodes && At(f, 0x18) == 0x643C9869 && At(f, 0x1C) == 0x66334873
    && At(f, 0x20) == 64 + 32 * nmodes && At(f, 0x24) == nmodules
    && At(f, 0x28) == 0x74B0DC51 && At(f, 0x2C) == 0x19495CFF
    && At(f, 0x30) == 64 + 32 * (nmodes + nmodules) && At(f, 0x34) == |f|
    && At(f, 0x38) == 0x2AE8944A && At(f, 0x3C) == 0x625558EC
  }

  // What stands behind the bit of a runlevel, by the place of the bit.
  const SECOND: seq<u8> := [2, 1, 3, 4, 5, 6, 7, 8]
  const RUNLEVEL: seq<u8> := [1, 2, 4, 8, 0x10, 0x20, 0x40, 0x80]

  // Two bytes for the number of modules, two of zero, the runlevel and the
  // number behind it in four bytes each, and twenty of zero.
  ghost function ModeRecord(n: u16, j: nat): Bytes
    requires j < 8
  {
    [n % 0x100, n / 0x100, 0, 0, RUNLEVEL[j], 0, 0, 0, SECOND[j], 0, 0, 0] + seq(20, _ => 0)
  }

  // The record of runlevel j is the one behind k others.
  ghost predicate ModeWritten(f: Bytes, n: nat, j: nat, k: nat)
    requires j < 8
  {
    n < 0x1_0000 && 96 + 32 * k <= |f| && f[64 + 32 * k..96 + 32 * k] == ModeRecord(n, j)
  }

  // A record for each runlevel in use, behind those of the lower ones.
  ghost predicate ModesWritten(f: Bytes, l: seq<Module>)
  {
    forall j {:trigger InUse(l, j)} :: 0 <= j < 8 && InUse(l, j) ==> ModeWritten(f, |l|, j, UsedBelow(l, j))
  }

  // Behind the place of its name and its flags a record of a module is zero.
  ghost predicate RecordsWritten(f: Bytes, at: nat, n: nat)
  {
    && at + 32 * n <= |f|
    && forall i :: 0 <= i < n ==> EmptyRest(f[at + 32 * i..at + 32 * i + 32])
  }

  ghost predicate EmptyRest(r: Bytes)
  {
    |r| == 32 && r[4..8] == [0, 0, 0, 0] && r[12..32] == seq(20, _ => 0)
  }

  // ----- the runlevels in use -----

  lemma {:induction false} AndPower(k: nat, x: nat)
    ensures And(Pow2(k), x) != 0 <==> Bit(x, k)
  {
    if k == 0 {
      assert And(0, x / 2) == 0;
    } else if x != 0 {
      AndPower(k - 1, x / 2);
    } else {
      NoBit(k);
    }
  }

  lemma {:induction false} NoBit(k: nat)
    ensures !Bit(0, k)
  {
    if k > 0 { NoBit(k - 1); }
  }

  lemma ModesAre(j: nat)
    requires j < 8
    ensures MODES[j].0 == RUNLEVEL[j] == Pow2(j) && MODES[j].1 == SECOND[j]
  {
    assert Pow2(0) == 1 && Pow2(1) == 2 && Pow2(2) == 4 && Pow2(3) == 8;
    assert Pow2(4) == 0x10 && Pow2(5) == 0x20 && Pow2(6) == 0x40 && Pow2(7) == 0x80;
  }

  lemma UsedIsInUse(l: seq<PyModule>, j: nat)
    requires j < 8
    ensures ModeUsed(l, MODES[j].0) <==> InUse(Content(l), j)
  {
    ModesAre(j);
    forall i | 0 <= i < |l| ensures And(MODES[j].0, l[i].flags) != 0 <==> Bit(Content(l)[i].flags, j) {
      AndPower(j, l[i].flags);
    }
  }

  // Behind the first ones come those of the remaining runlevels.
  lemma {:induction false} UsedFrom(l: seq<PyModule>, j: nat)
    requires j <= 8
    ensures var used, k := UsedModes(l, MODES), UsedBelow(Content(l), j);
      k <= |used| && used[k..] == UsedModes(l, MODES[j..])
  {
    if j == 0 {
      assert MODES[0..] == MODES;
    } else {
      UsedFrom(l, j - 1);
      UsedIsInUse(l, j - 1);
      assert MODES[j - 1..][0] == MODES[j - 1] && MODES[j - 1..][1..] == MODES[j..];
      var used, k := UsedModes(l, MODES), UsedBelow(Content(l), j - 1);
      if InUse(Content(l), j - 1) { assert used[k + 1..] == used[k..][1..]; }
    }
  }

  lemma UsedAt(l: seq<PyModule>, j: nat)
    requires j < 8 && InUse(Content(l), j)
    ensures var used, k := UsedModes(l, MODES), UsedBelow(Content(l), j); k < |used| && used[k] == MODES[j]
  {
    UsedFrom(l, j);
    UsedIsInUse(l, j);
    assert MODES[j..][0] == MODES[j];
  }

  lemma AllUsed(l: seq<PyModule>)
    ensures |UsedModes(l, MODES)| == UsedBelow(Content(l), 8)
  {
    UsedFrom(l, 8);
    assert MODES[8..] == [];
  }

  // ----- the records -----

  lemma SmallWord(x: u8)
    ensures Word(x) == [x, 0, 0, 0]
  {
  }

  lemma RecordParts(n: u16, a: u8, b: u8)
    requires Word(a) == [a, 0, 0, 0] && Word(b) == [b, 0, 0, 0]
    ensures ModeBytes(ModeOf(n, (a, b))) == [n % 0x100, n / 0x100, 0, 0, a, 0, 0, 0, b, 0, 0, 0] + seq(20, _ => 0)
  {
    assert Half(0) == [0, 0];
  }

  lemma ModeBytesAre(n: u16, j: nat)
    requires j < 8
    ensures ModeBytes(ModeOf(n, MODES[j])) == ModeRecord(n, j)
  {
    ModesAre(j);
    SmallWord(RUNLEVEL[j]);
    SmallWord(SECOND[j]);
    RecordParts(n, RUNLEVEL[j], SECOND[j]);
  }

  lemma SliceIn(f: Bytes, i: nat, j: nat, t: Bytes, a: nat, r: Bytes)
    requires i <= j <= |f| && f[i..j] == t && a + |r| <= |t| && t[a..a + |r|] == r
    ensures i + a + |r| <= |f| && f[i + a..i + a + |r|] == r
  {
    SliceOfSlice(f, i, j, a, a + |r|);
  }

  lemma ModeStands(c: Config, f: Bytes, m: nat)
    requires WellFormed(c) && c.Encode() <= f && m < |c.modes|
    ensures var at := c.ModeStart() + 32 * m; at + 32 <= |f| && f[at..at + 32] == ModeBytes(c.modes[m])
  {
    SeenModes(c, f);
    ModeInTable(c.modes, m);
    SliceIn(f, c.ModeStart(), c.ModeStart() + 32 * |c.modes|, Table(ModeBytes, c.modes), 32 * m,
            ModeBytes(c.modes[m]));
  }

  lemma EntryStands(c: Config, f: Bytes, k: nat)
    requires WellFormed(c) && c.Encode() <= f && k < |c.modules|
    ensures var at := c.ModuleStart() + 32 * k; at + 32 <= |f| && f[at..at + 32] == EntryBytes(c.modules[k])
  {
    Parts(c, f);
    TableAt(EntryBytes, c.modules, k);
    SliceIn(f, c.ModuleStart(), c.ModuleStart() + 32 * |c.modules|, Table(EntryBytes, c.modules), 32 * k,
            EntryBytes(c.modules[k]));
  }

  lemma RestOfEntry(m: PyModule)
    ensures EmptyRest(EntryBytes(EntryOf(m)))
  {
  }

  lemma ModeInUse(l: seq<PyModule>, j: nat)
    requires j < 8 && InUse(Content(l), j) && |l| < 0x1_0000
    ensures var k := UsedBelow(Content(l), j); k < |Modes(l)| && Modes(l)[k] == ModeOf(|l|, MODES[j])
  {
    UsedAt(l, j);
  }

  lemma UsedModeStands(c: Config, f: Bytes, n: u16, j: nat, k: nat)
    requires WellFormed(c) && c.Encode() <= f && c.ModeStart() == 64
    requires j < 8 && k < |c.modes| && c.modes[k] == ModeOf(n, MODES[j])
    ensures ModeWritten(f, n, j, k)
  {
    ModeStands(c, f, k);
    ModeBytesAre(n, j);
  }

  lemma ModesStand(l: seq<PyModule>, c: Config, f: Bytes)
    requires WellFormed(c) && c.Encode() <= f && c.modes == Modes(l) && |l| < 0x1_0000 && c.ModeStart() == 64
    ensures ModesWritten(f, Content(l))
  {
    forall j {:trigger InUse(Content(l), j)} | 0 <= j < 8 && InUse(Content(l), j)
      ensures ModeWritten(f, |l|, j, UsedBelow(Content(l), j))
    {
      ModeInUse(l, j);
      UsedModeStands(c, f, |l|, j, UsedBelow(Content(l), j));
    }
  }

  lemma RecordsStand(l: seq<PyModule>, c: Config, f: Bytes)
    requires WellFormed(c) && c.Encode() <= f && c.modules == Entries(l)
    ensures RecordsWritten(f, c.ModuleStart(), |l|)
  {
    Parts(c, f);
    forall i | 0 <= i < |l| ensures EmptyRest(f[c.ModuleStart() + 32 * i..c.ModuleStart() + 32 * i + 32]) {
      EntryStands(c, f, i);
      RestOfEntry(l[i]);
    }
  }

  lemma AtIsLe32(f: Bytes, i: nat)
    requires i + 4 <= |f|
    ensures At(f, i) == Le32(f, i)
  {
  }

  lemma HeaderStands(c: Config, f: Bytes, fwVersion: u32)
    requires c.Fits() && c.Encode() == f && c.gaps == NO_GAPS && c.unknown == UNKNOWN && c.devkit == fwVersion
    ensures HeaderWritten(f, fwVersion, |c.modes|, |c.modules|)
  {
    forall k | 0 <= k < 16 ensures At(f, 4 * k) == c.Header()[k] {
      HeaderRead(c, f, k);
      AtIsLe32(f, 4 * k);
    }
    HeaderWords16(f, c.Header());
  }

  lemma HeaderWords16(f: Bytes, h: seq<u32>)
    requires |h| == 16 && forall k :: 0 <= k < 16 ==> At(f, 4 * k) == h[k]
    ensures At(f, 0x00) == h[0] && At(f, 0x04) == h[1] && At(f, 0x08) == h[2] && At(f, 0x0C) == h[3]
    ensures At(f, 0x10) == h[4] && At(f, 0x14) == h[5] && At(f, 0x18) == h[6] && At(f, 0x1C) == h[7]
    ensures At(f, 0x20) == h[8] && At(f, 0x24) == h[9] && At(f, 0x28) == h[10] && At(f, 0x2C) == h[11]
    ensures At(f, 0x30) == h[12] && At(f, 0x34) == h[13] && At(f, 0x38) == h[14] && At(f, 0x3C) == h[15]
  {
    assert At(f, 4 * 0) == h[0] && At(f, 4 * 1) == h[1] && At(f, 4 * 2) == h[2] && At(f, 4 * 3) == h[3];
    assert At(f, 4 * 4) == h[4] && At(f, 4 * 5) == h[5] && At(f, 4 * 6) == h[6] && At(f, 4 * 7) == h[7];
    assert At(f, 4 * 8) == h[8] && At(f, 4 * 9) == h[9] && At(f, 4 * 10) == h[10] && At(f, 4 * 11) == h[11];
    assert At(f, 4 * 12) == h[12] && At(f, 4 * 13) == h[13] && At(f, 4 * 14) == h[14] && At(f, 4 * 15) == h[15];
  }

  lemma ModesInUse(l: seq<PyModule>, n: nat)
    requires |l| < 0x1_0000 && n == |Modes(l)|
    ensures n == UsedBelow(Content(l), 8)
  {
    AllUsed(l);
  }

  lemma PartsSeen(l: seq<PyModule>, c: Config, fwVersion: u32, f: Bytes, n: nat)
    requires |l| < 0x1_0000 && WellFormed(c) && c.Encode() == f && c.gaps == NO_GAPS && c.unknown == UNKNOWN
    requires c.devkit == fwVersion && c.modes == Modes(l) && c.modules == Entries(l) && Modules(c) == Content(l)
    requires n == |c.modes|
    ensures HeaderWritten(f, fwVersion, n, |l|) && ModesWritten(f, Content(l)) && RecordsWritten(f, 64 + 32 * n, |l|)
    ensures Shows(f, Content(l))
  {
    HeaderStands(c, f, fwVersion);
    ModesStand(l, c, f);
    RecordsStand(l, c, f);
    SeenModules(c, f);
  }

  lemma BuiltSeen(l: seq<PyModule>, fwVersion: u32, f: Bytes)
    requires Placed(l) && (forall k :: 0 <= k < |l| ==> Text(l[k].path)) && |l| < 0x1_0000
    requires Built(l, fwVersion).NameEnd() < 0x8000_0000 && f == Built(l, fwVersion).Encode()
    ensures var m := Content(l);
      && HeaderWritten(f, fwVersion, UsedBelow(m, 8), |m|)
      && ModesWritten(f, m) && RecordsWritten(f, 64 + 32 * UsedBelow(m, 8), |m|) && Shows(f, m)
  {
    BuiltIsList(l, fwVersion);
    ModesInUse(l, |Modes(l)|);
    PartsSeen(l, Built(l, fwVersion), fwVersion, f, |Modes(l)|);
  }

  lemma SameText(l: seq<PyModule>, l': seq<PyModule>)
    requires Content(l) == Content(l') && forall k :: 0 <= k < |l| ==> Text(l[k].path)
    ensures forall k :: 0 <= k < |l'| ==> Text(l'[k].path)
  {
    ContentTells(l, l');
  }

  /** outputBin: header, modes and modules of the written file. */
  method WriteList(cnf: PspBtCnf) returns (f: Bytes)
    requires |cnf.moduleList| < 0x1_0000 && Built(cnf.moduleList, cnf.fwVersion).NameEnd() < 0x8000_0000
    requires forall k :: 0 <= k < |cnf.moduleList| ==> Text(cnf.moduleList[k].path)
    modifies cnf
    ensures var l := Content(old(cnf.moduleList));
      && HeaderWritten(f, old(cnf.fwVersion), UsedBelow(l, 8), |l|)
      && ModesWritten(f, l) && RecordsWritten(f, 64 + 32 * UsedBelow(l, 8), |l|) && Shows(f, l)
  {
    ghost var l := cnf.moduleList;
    var r := cnf.OutputBin();
    f := r.file;
    CarriesOver(l, cnf.moduleList, cnf.fwVersion);
    SameText(l, cnf.moduleList);
    BuiltSeen(cnf.moduleList, cnf.fwVersion, f);
  }
}
