/** The configuration as the loader sees it: what the words at fixed places of
    the buffer lead to, before and after an edit. */
module BtcnfSeen {
  import opened Bits
  import opened ByteArrays
  import opened Btcnf
  import opened BtcnfList
  import opened BtcnfMove
  import opened BtcnfEdit

  // A word of the buffer, its lowest byte first.
  ghost function At(buf: Bytes, i: nat): nat
  {
    if i + 4 > |buf| then 0
    else buf[i] as int + 0x100 * buf[i + 1] as int + 0x1_0000 * buf[i + 2] as int + 0x100_0000 * buf[i + 3] as int
  }

  ghost function TextAt(buf: Bytes, i: nat): Bytes
    decreases |buf| - i
  {
    if i >= |buf| || buf[i] == 0 then [] else [buf[i]] + TextAt(buf, i + 1)
  }

  // Where the record of a module is, and its name and flags.
  ghost function Record(buf: Bytes, i: nat): nat { At(buf, 0x20) + 32 * i }

  ghost function Name(buf: Bytes, i: nat): Bytes { TextAt(buf, At(buf, 0x30) + At(buf, Record(buf, i))) }

  ghost function Flags(buf: Bytes, i: nat): nat { At(buf, Record(buf, i) + 8) }

  // How many modules a mode counts.
  ghost function Count(buf: Bytes, m: nat): nat { CountIn(buf, At(buf, 0x10), m) }

  ghost function CountIn(buf: Bytes, table: nat, m: nat): nat { At(buf, table + 32 * m) % 0x1_0000 }

  // The first module of that name.
  ghost predicate IsFirst(buf: Bytes, name: Bytes, k: nat)
  {
    k < At(buf, 0x24) && Name(buf, k) == name && forall i :: 0 <= i < k ==> Name(buf, i) != name
  }

  ghost predicate Missing(buf: Bytes, name: Bytes)
  {
    forall i :: 0 <= i < At(buf, 0x24) ==> Name(buf, i) != name
  }

  // The answer of the search.
  ghost predicate SearchedFor(buf: Bytes, name: Bytes, r: int)
  {
    if At(buf, 0) != 0x0F803001 then r == -1
    else if At(buf, 0x24) == 0 then r == -2
    else if At(buf, 0x14) == 0 then r == -3
    else if Missing(buf, name) then r == -4
    else r >= 0 && IsFirst(buf, name, r)
  }

  lemma {:induction false} TextIsCString(buf: Bytes, i: nat)
    requires i <= |buf|
    ensures TextAt(buf, i) == CString(buf, i)
    decreases |buf| - i
  {
    if i < |buf| && buf[i] != 0 { TextIsCString(buf, i + 1); }
  }

  // That is the configuration that was written.
  lemma SeenHeader(c: Config, buf: Bytes)
    requires WellFormed(c) && c.Encode() <= buf
    ensures At(buf, 0) == 0x0F803001 && At(buf, 0x10) == c.ModeStart() && At(buf, 0x14) == |c.modes|
    ensures At(buf, 0x20) == c.ModuleStart() && At(buf, 0x24) == |c.modules|
    ensures At(buf, 0x30) == c.NameStart() && At(buf, 0x34) == c.NameEnd() <= |buf|
    ensures forall m: nat {:trigger Count(buf, m)} :: Count(buf, m) == CountIn(buf, c.ModeStart(), m)
  {
    HeaderRead(c, buf, 0);
    HeaderRead(c, buf, 4);
    HeaderRead(c, buf, 5);
    HeaderRead(c, buf, 8);
    HeaderRead(c, buf, 9);
    HeaderRead(c, buf, 12);
    HeaderRead(c, buf, 13);
  }

  lemma SeenModule(c: Config, buf: Bytes, i: nat)
    requires WellFormed(c) && c.Encode() <= buf && i < |c.modules|
    ensures Name(buf, i) == Modules(c)[i].name && Flags(buf, i) == Modules(c)[i].flags == c.modules[i].flags
  {
    SeenHeader(c, buf);
    SeenRecord(c, buf, i);
    SeenName(c, buf, i);
    ModuleNamed(c, i);
  }

  lemma SeenRecord(c: Config, buf: Bytes, i: nat)
    requires WellFormed(c) && c.Encode() <= buf && i < |c.modules|
    ensures var at := c.ModuleStart() + 32 * i;
      At(buf, at) == c.modules[i].path && At(buf, at + 8) == c.modules[i].flags
  {
    EntryRead(c, buf, i);
  }

  lemma SeenName(c: Config, buf: Bytes, i: nat)
    requires WellFormed(c) && c.Encode() <= buf && i < |c.modules|
    ensures TextAt(buf, c.NameStart() + c.modules[i].path) == Modules(c)[i].name
  {
    FormatEncodes(c.gaps);
    EntryName(FormatOf(c.gaps), c, buf, i);
    TextIsCString(buf, c.NameStart() + c.modules[i].path);
  }

  // Name for name and flag word for flag word.
  ghost predicate Shows(buf: Bytes, l: seq<Module>)
  {
    At(buf, 0x24) == |l| && forall i :: 0 <= i < |l| ==> Name(buf, i) == l[i].name && Flags(buf, i) == l[i].flags
  }

  lemma SeenModules(c: Config, buf: Bytes)
    requires WellFormed(c) && c.Encode() <= buf
    ensures Shows(buf, Modules(c))
  {
    SeenHeader(c, buf);
    forall i | 0 <= i < |c.modules|
      ensures Name(buf, i) == Modules(c)[i].name && Flags(buf, i) == Modules(c)[i].flags
    {
      SeenModule(c, buf, i);
    }
  }

  lemma ShownFirst(buf: Bytes, l: seq<Module>, name: Bytes)
    requires Shows(buf, l)
    ensures var k := IndexOfName(l, name); if k < |l| then IsFirst(buf, name, k) else Missing(buf, name)
  {
  }

  lemma SearchIsSeen(c: Config, buf: Bytes, name: Bytes)
    requires WellFormed(c) && c.Encode() <= buf
    ensures SearchedFor(buf, name, Search(c, name))
  {
    SeenHeader(c, buf);
    SeenModules(c, buf);
    ShownFirst(buf, Modules(c), name);
    var k := IndexOfName(Modules(c), name);
    assert k < |c.modules| ==> Name(buf, k) == name;
  }

  lemma SeenMode(c: Config, buf: Bytes, m: nat)
    requires WellFormed(c) && c.Encode() <= buf && m < |c.modes|
    ensures Count(buf, m) == c.modes[m].count
  {
    SeenHeader(c, buf);
    SeenModes(c, buf);
    ModeInTable(c.modes, m);
    CountInRecord(buf, c.ModeStart(), c.ModeStart() + 32 * |c.modes|, Table(ModeBytes, c.modes), m, c.modes[m]);
  }

  lemma SeenModes(c: Config, buf: Bytes)
    requires WellFormed(c) && c.Encode() <= buf
    ensures var i, j := c.ModeStart(), c.ModeStart() + 32 * |c.modes|;
      j <= |buf| && buf[i..j] == Table(ModeBytes, c.modes)
  {
    ModeTable(c.gaps, c.Header(), c.modes, c.modules, c.names, buf, c.ModeStart(), c.ModeStart() + 32 * |c.modes|);
  }

  lemma ModeInTable(modes: seq<Mode>, m: nat)
    requires m < |modes|
    ensures Table(ModeBytes, modes)[32 * m..32 * m + 32] == ModeBytes(modes[m])
  {
    TableAt(ModeBytes, modes, m);
  }

  lemma CountInRecord(buf: Bytes, i: nat, j: nat, table: Bytes, m: nat, mode: Mode)
    requires i <= j <= |buf| && buf[i..j] == table && 32 * m + 32 <= j - i
    requires table[32 * m..32 * m + 32] == ModeBytes(mode)
    ensures CountIn(buf, i, m) == mode.count
  {
    var r := table[32 * m..32 * m + 32];
    assert buf[i + 32 * m] == table[32 * m] == r[0] && buf[i + 32 * m + 1] == table[32 * m + 1] == r[1];
    LowHalfOf(buf[i + 32 * m], buf[i + 32 * m + 1], buf[i + 32 * m + 2], buf[i + 32 * m + 3], mode.count);
  }

  lemma LowHalfOf(a: u8, b: u8, c: u8, d: u8, x: u16)
    requires [a, b] == Half(x)
    ensures (a as int + 0x100 * b as int + 0x1_0000 * c as int + 0x100_0000 * d as int) % 0x1_0000 == x
  {
    var high := c as int + 0x100 * d as int;
    assert a as int + 0x100 * b as int == x;
    assert a as int + 0x100 * b as int + 0x1_0000 * c as int + 0x100_0000 * d as int == x + 0x1_0000 * high;
  }

  // ----- what an edit changes of that -----

  // The same modes, and the same modules but for the flags of module k.
  ghost predicate OneFlag(before: Bytes, after: Bytes, k: int)
  {
    && At(after, 0x24) == At(before, 0x24) && At(after, 0x14) == At(before, 0x14) && At(after, 0x34) == At(before, 0x34)
    && (forall i :: 0 <= i < At(before, 0x24) ==>
          Name(after, i) == Name(before, i) && (i != k ==> Flags(after, i) == Flags(before, i)))
    && (forall m :: 0 <= m < At(before, 0x14) ==> Count(after, m) == Count(before, m))
  }

  // An error says what was searched for in vain, and nothing changes.
  ghost predicate Refused(before: Bytes, after: Bytes, name: Bytes, r: int)
  {
    r < 0 && SearchedFor(before, name, r) && OneFlag(before, after, -1)
  }

  // The first module of the name has these flags instead.
  ghost predicate Modified(before: Bytes, after: Bytes, name: Bytes, flags: u32, r: int)
  {
    Refused(before, after, name, r)
    || (r == 0 && exists k: nat :: IsFirst(before, name, k) && OneFlag(before, after, k) && Flags(after, k) == flags)
  }

  // It keeps the runlevels that are not asked for, under the usual load mode,
  // whatever stood there.
  ghost predicate Removed(before: Bytes, after: Bytes, name: Bytes, flags: u32, r: int)
  {
    Refused(before, after, name, r)
    || (r == 0 && exists k: nat :: IsFirst(before, name, k) && OneFlag(before, after, k)
                                   && Cleared(Flags(before, k), Flags(after, k), flags))
  }

  ghost predicate Cleared(was: nat, left: nat, flags: u32)
  {
    left / 0x1_0000 == 0x8001 && forall b: nat | b < 16 :: Bit(left, b) == (Bit(was, b) && !Bit(flags, b))
  }

  // The module stands in front of the first named insertbefore, every mode
  // counts one more, and the answer is the length of the file.
  ghost predicate Added(before: Bytes, after: Bytes, insertbefore: Bytes, name: Bytes, flags: u32, r: int)
  {
    Refused(before, after, insertbefore, r)
    || (r == At(after, 0x34) == At(before, 0x34) + 32 + (if Missing(before, name) then |name| + 1 else 0)
        && exists k: nat :: IsFirst(before, insertbefore, k) && InsertedAt(before, after, k, name, flags))
  }

  // Modules in front of k stay, and the others stand one behind.
  ghost predicate Shifted(before: Bytes, after: Bytes, k: nat, n: nat)
  {
    && (forall i :: 0 <= i < k ==> Name(after, i) == Name(before, i) && Flags(after, i) == Flags(before, i))
    && (forall i {:trigger Name(before, i)} {:trigger Flags(before, i)} :: k <= i < n ==>
          Name(after, i + 1) == Name(before, i) && Flags(after, i + 1) == Flags(before, i))
  }

  ghost predicate InsertedAt(before: Bytes, after: Bytes, k: nat, name: Bytes, flags: u32)
  {
    && At(after, 0x24) == At(before, 0x24) + 1 && At(after, 0x14) == At(before, 0x14)
    && Shifted(before, after, k, At(before, 0x24))
    && Name(after, k) == name && Flags(after, k) == (if flags >= 0xFFFF then flags else 0x8001_0000 + flags)
    && (forall m :: 0 <= m < At(before, 0x14) ==> Count(after, m) == (Count(before, m) + 1) % 0x1_0000)
  }

  lemma SameModes(c: Config, d: Config, before: Bytes, after: Bytes)
    requires WellFormed(c) && c.Encode() <= before && WellFormed(d) && d.Encode() <= after && d.modes == c.modes
    ensures forall m :: 0 <= m < |c.modes| ==> Count(after, m) == Count(before, m)
  {
    forall m | 0 <= m < |c.modes| ensures Count(after, m) == Count(before, m) {
      SeenMode(c, before, m);
      SeenMode(d, after, m);
    }
  }

  lemma OneFlagSeen(c: Config, d: Config, before: Bytes, after: Bytes, k: int)
    requires WellFormed(c) && c.Encode() <= before && WellFormed(d) && d.Encode() <= after
    requires d.modes == c.modes && d.names == c.names && d.gaps == c.gaps && |d.modules| == |c.modules|
    requires forall i :: 0 <= i < |c.modules| ==> Modules(d)[i].name == Modules(c)[i].name
                                                  && (i != k ==> Modules(d)[i].flags == Modules(c)[i].flags)
    ensures OneFlag(before, after, k)
  {
    SeenHeader(c, before);
    SeenHeader(d, after);
    SeenModules(c, before);
    SeenModules(d, after);
    SameModes(c, d, before, after);
  }

  lemma RefusedSeen(c: Config, before: Bytes, after: Bytes, name: Bytes, r: int)
    requires WellFormed(c) && c.Encode() <= before && c.Encode() <= after && r == Search(c, name) < 0
    ensures Refused(before, after, name, r)
  {
    SearchIsSeen(c, before, name);
    OneFlagSeen(c, c, before, after, -1);
  }

  // The flags that are left.
  lemma FlagsLeft(was: u32, flags: u32)
    ensures Cleared(was, Remaining(was, flags), flags)
  {
    forall b: nat | b < 16 ensures Bit(Remaining(was, flags), b) == (Bit(was, b) && !Bit(flags, b)) {
      BitOfRemaining(was, flags, b);
    }
  }

  lemma SetSeen(c: Config, d: Config, before: Bytes, after: Bytes, name: Bytes, k: nat, flags: u32)
    requires WellFormed(c) && c.Encode() <= before && WellFormed(d) && d.Encode() <= after
    requires k == Search(c, name) && d == c.(modules := c.modules[k := c.modules[k].(flags := flags)])
    ensures IsFirst(before, name, k) && OneFlag(before, after, k) && Flags(after, k) == flags
    ensures Flags(before, k) == c.modules[k].flags
  {
    SearchIsSeen(c, before, name);
    SeenHeader(c, before);
    SeenModule(c, before, k);
    SeenModule(d, after, k);
    OneFlagSeen(c, d, before, after, k);
  }

  lemma ModifiedSeen(c: Config, before: Bytes, after: Bytes, name: Bytes, flags: u32, r: int)
    requires Begins(before, c) && Edited(before, after, r, SetFlags(c, name, flags))
    ensures Modified(before, after, name, flags, r)
  {
    if Le32Or0(before) == MAGIC {
      if r < 0 { RefusedSeen(c, before, after, name, r); }
      else { SetSeen(c, SetFlags(c, name, flags).1, before, after, name, Search(c, name), flags); }
    }
  }

  lemma RemovedSeen(c: Config, before: Bytes, after: Bytes, name: Bytes, flags: u32, r: int)
    requires Begins(before, c) && Edited(before, after, r, Remove(c, name, flags))
    ensures Removed(before, after, name, flags, r)
  {
    if Le32Or0(before) == MAGIC {
      var k := Search(c, name);
      if k < 0 {
        RefusedSeen(c, before, after, name, r);
      } else {
        FlagsLeft(c.modules[k].flags, flags);
        SetSeen(c, Remove(c, name, flags).1, before, after, name, k, Remaining(c.modules[k].flags, flags));
      }
    }
  }

  lemma InsertShown(before: Bytes, after: Bytes, l: seq<Module>, l': seq<Module>, k: nat, x: Module)
    requires Shows(before, l) && Shows(after, l') && k < |l| && l' == Inserted(l, k, x)
    ensures Shifted(before, after, k, |l|) && Name(after, k) == x.name && Flags(after, k) == x.flags
  {
    forall i | 0 <= i < k ensures l'[i] == l[i] {}
    forall i | k <= i < |l| ensures l'[i + 1] == l[i] {}
  }

  lemma InsertSeen(c: Config, d: Config, before: Bytes, after: Bytes, k: nat, name: Bytes, flags: u32)
    requires WellFormed(c) && c.Encode() <= before && WellFormed(d) && d.Encode() <= after
    requires k < |c.modules| && d.modes == Bumped(c.modes)
    requires Modules(d) == Inserted(Modules(c), k, Module(name, StoredFlags(flags)))
    ensures InsertedAt(before, after, k, name, flags)
  {
    SeenHeader(c, before);
    SeenHeader(d, after);
    SeenModules(c, before);
    SeenModules(d, after);
    InsertShown(before, after, Modules(c), Modules(d), k, Module(name, StoredFlags(flags)));
    CountsBumped(c, d, before, after);
  }

  lemma CountsBumped(c: Config, d: Config, before: Bytes, after: Bytes)
    requires WellFormed(c) && c.Encode() <= before && WellFormed(d) && d.Encode() <= after
    requires d.modes == Bumped(c.modes)
    ensures forall m :: 0 <= m < |c.modes| ==> Count(after, m) == (Count(before, m) + 1) % 0x1_0000
  {
    forall m | 0 <= m < |c.modes| ensures Count(after, m) == (Count(before, m) + 1) % 0x1_0000 {
      SeenMode(c, before, m);
      SeenMode(d, after, m);
    }
  }

  lemma GrownBy(c: Config, insertbefore: Bytes, name: Bytes, flags: u32)
    requires WellFormed(c) && Room(c, |name| + 1) && Search(c, insertbefore) >= 0
    ensures var d := Add(c, insertbefore, name, flags).1;
      && d.modes == Bumped(c.modes)
      && d.NameEnd() == c.NameEnd() + 32 + if Search(c, name) < 0 then |name| + 1 else 0
  {
    NamedFile(c, insertbefore, name);
  }

  lemma AddedSeen(c: Config, before: Bytes, after: Bytes, insertbefore: Bytes, name: Bytes, flags: u32, r: int)
    requires Begins(before, c) && c.Fits() && Room(c, |name| + 1) && 0 !in name
    requires Edited(before, after, r, Add(c, insertbefore, name, flags))
    ensures Added(before, after, insertbefore, name, flags, r)
  {
    if Le32Or0(before) == MAGIC {
      var k, d := Search(c, insertbefore), Add(c, insertbefore, name, flags).1;
      AddIsInsert(c, insertbefore, name, flags);
      SearchIsSeen(c, before, insertbefore);
      if k < 0 {
        RefusedSeen(c, before, after, insertbefore, r);
      } else {
        SearchIsSeen(c, before, name);
        GrownBy(c, insertbefore, name, flags);
        SeenHeader(c, before);
        SeenHeader(d, after);
        InsertSeen(c, d, before, after, k, name, flags);
      }
    }
  }

  // Moving is removing, whatever that answers, and adding to what is left.
  lemma MovedSeen(c: Config, before: Bytes, after: Bytes, insertbefore: Bytes, name: Bytes, flags: u32, r: int)
    returns (between: Bytes, r0: int)
    requires Begins(before, c) && c.Fits() && Room(c, |name| + 1) && 0 !in name
    requires Edited(before, after, r, Move(c, insertbefore, name, flags))
    ensures Removed(before, between, name, flags, r0) && Added(between, after, insertbefore, name, flags, r)
  {
    if Le32Or0(before) == MAGIC {
      var d;
      between, r0, d := LeftBetween(c, before, name, flags);
      RemovedSeen(c, before, between, name, flags, r0);
      AddedSeen(d, between, after, insertbefore, name, flags, r);
    } else {
      between, r0 := before, -1;
    }
  }

  lemma LeftBetween(c: Config, before: Bytes, name: Bytes, flags: u32) returns (between: Bytes, r0: int, d: Config)
    requires Begins(before, c) && Le32Or0(before) == MAGIC && c.Fits()
    ensures (r0, d) == Remove(c, name, flags) && Edited(before, between, r0, (r0, d))
    ensures Begins(between, d) && Le32Or0(between) == MAGIC && d.NameEnd() == c.NameEnd()
  {
    r0, d := Remove(c, name, flags).0, Remove(c, name, flags).1;
    between := d.Encode();
    SeenHeader(d, between);
  }

  // Afterwards the flags asked back are under the usual load mode, without the
  // runlevels that were asked for.
  method RemoveAndAsk(buf: array<u8>, prxname: Bytes, flags: u32, ghost c: Config) returns (r: int, left: u32)
    requires Begins(buf[..], c)
    modifies buf
    ensures Removed(old(buf[..]), buf[..], prxname, flags, r)
    ensures r >= 0 ==>
      exists k: nat :: IsFirst(old(buf[..]), prxname, k) && Cleared(Flags(old(buf[..]), k), left, flags)
  {
    r := RemovePrx(buf, prxname, flags, c);
    RemovedSeen(c, old(buf[..]), buf[..], prxname, flags, r);
    left := 0;
    if r >= 0 {
      ghost var k, d := Search(c, prxname), Remove(c, prxname, flags).1;
      SeenHeader(c, old(buf[..]));
      SeenHeader(d, buf[..]);
      SetSeen(c, d, old(buf[..]), buf[..], prxname, k, Remaining(c.modules[k].flags, flags));
      FlagsLeft(c.modules[k].flags, flags);
      var found;
      found, left := GetPrxFlag(buf, prxname, d);
      RemovedSame(c, prxname, flags);
    }
  }

  lemma RemovedSame(c: Config, name: Bytes, flags: u32)
    requires Search(c, name) >= 0
    ensures var k, d := Search(c, name), Remove(c, name, flags).1;
      Search(d, name) == k && d.modules[k].flags == Remaining(c.modules[k].flags, flags)
  {
    var k, d := Search(c, name), Remove(c, name, flags).1;
    assert forall i :: 0 <= i < |c.modules| ==> Modules(d)[i].name == Modules(c)[i].name;
    IndexUnique(Modules(d), name, k);
  }
}
