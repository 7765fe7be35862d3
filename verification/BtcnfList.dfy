/** The configuration as a list of modules, and what the editing functions do to
    it: searching, inserting, changing flags. */
module BtcnfList {
  import opened Bits
  import opened ByteArrays
  import opened Btcnf

  datatype Module = Module(name: Bytes, flags: u32)

  // The C string at an offset.
  function CString(s: Bytes, i: nat): Bytes
    requires i <= |s|
    decreases |s| - i
  {
    if i == |s| || s[i] == 0 then [] else [s[i]] + CString(s, i + 1)
  }

  lemma {:induction false} CStringUnique(s: Bytes, i: nat, r: Bytes)
    requires i + |r| < |s| && 0 !in r && s[i..i + |r|] == r && s[i + |r|] == 0
    ensures CString(s, i) == r
    decreases |r|
  {
    if r != [] {
      assert s[i] == s[i..i + |r|][0] == r[0] && r[0] in r;
      assert s[i + 1..i + 1 + |r[1..]|] == s[i..i + |r|][1..];
      CStringUnique(s, i + 1, r[1..]);
    }
  }

  // Names end with a NUL, so every offset into them is a C string.
  predicate WellFormed(c: Config)
  {
    && c.Fits()
    && (c.names != [] ==> c.names[|c.names| - 1] == 0)
    && (forall i :: 0 <= i < |c.modules| ==> c.modules[i].path < |c.names|)
  }

  // Every mode covers all modules.
  predicate Counted(c: Config)
  {
    forall i :: 0 <= i < |c.modes| ==> c.modes[i].count == |c.modules| % 0x1_0000
  }

  function ModuleOf(names: Bytes, e: Entry): Module
  {
    Module(if e.path <= |names| then CString(names, e.path) else [], e.flags)
  }

  function ListOf(names: Bytes, modules: seq<Entry>): (l: seq<Module>)
    ensures |l| == |modules|
  {
    seq(|modules|, i requires 0 <= i < |modules| => ModuleOf(names, modules[i]))
  }

  function Modules(c: Config): (l: seq<Module>)
    ensures |l| == |c.modules|
  {
    ListOf(c.names, c.modules)
  }

  function IndexOfName(l: seq<Module>, name: Bytes): (k: nat)
    ensures k <= |l| && (forall i :: 0 <= i < k ==> l[i].name != name) && (k < |l| ==> l[k].name == name)
  {
    if l == [] || l[0].name == name then 0 else 1 + IndexOfName(l[1..], name)
  }

  lemma IndexUnique(l: seq<Module>, name: Bytes, k: nat)
    requires k <= |l| && (forall i :: 0 <= i < k ==> l[i].name != name) && (k < |l| ==> l[k].name == name)
    ensures k == IndexOfName(l, name)
  {
    var m := IndexOfName(l, name);
  }

  // What SearchPrx answers for a file with the right signature.
  function Search(c: Config, name: Bytes): (r: int)
    ensures r < |c.modules|
  {
    if c.modules == [] then -2
    else if c.modes == [] then -3
    else var k := IndexOfName(Modules(c), name); if k == |c.modules| then -4 else k
  }

  function StoredFlags(flags: u32): u32
  {
    if flags >= 0xFFFF then flags else 0x8001_0000 + flags
  }

  // The runlevels asked for end up under the usual load mode for flags below
  // 0xFFFF, and otherwise only if the caller put the load mode in.
  lemma StoredFlagsAreRunlevels(flags: u32)
    ensures StoredFlags(flags) == 0x8001_0000 + flags % 0x1_0000 <==> flags < 0xFFFF || flags / 0x1_0000 == 0x8001
  {
  }

  function Bumped(modes: seq<Mode>): (b: seq<Mode>)
    ensures |b| == |modes|
  {
    seq(|modes|, i requires 0 <= i < |modes| => modes[i].(count := (modes[i].count + 1) % 0x1_0000))
  }

  function Inserted<T>(s: seq<T>, k: nat, x: T): (r: seq<T>)
    requires k <= |s|
    ensures |r| == |s| + 1
  {
    s[..k] + [x] + s[k..]
  }

  function AddEntry(c: Config, k: nat, path: u32, flags: u32): Config
    requires k <= |c.modules|
  {
    c.(modes := Bumped(c.modes),
       modules := Inserted(c.modules, k, Entry(path, 0, StoredFlags(flags), Exactly([], 20))))
  }

  // The answer of AddPRX and the file afterwards.
  function AddAt(c: Config, before: Bytes, path: u32, flags: u32): (int, Config)
  {
    var k := Search(c, before);
    if k < 0 then (k, c)
    else var d := AddEntry(c, k, path, flags); (d.NameEnd(), d)
  }

  function WithName(c: Config, name: Bytes): Config
  {
    c.(names := c.names + name + [0])
  }

  function Add(c: Config, before: Bytes, name: Bytes, flags: u32): (int, Config)
    requires c.Fits()
  {
    var k := Search(c, name);
    if k >= 0 then AddAt(c, before, c.modules[k].path, flags)
    else
      var r := Search(c, before);
      if r < 0 then (r, c) else AddAt(WithName(c, name), before, |c.names|, flags)
  }

  function SetFlags(c: Config, name: Bytes, flags: u32): (int, Config)
  {
    var k := Search(c, name);
    if k < 0 then (k, c) else (0, c.(modules := c.modules[k := c.modules[k].(flags := flags)]))
  }

  // x & ~y for 32-bit words.
  function AndNot(x: u32, y: u32): (r: nat)
    ensures r <= x
  {
    AndAtMost(x, 0xFFFF_FFFF - y);
    And(x, 0xFFFF_FFFF - y)
  }

  lemma {:induction false} AndAtMost(x: nat, y: nat)
    ensures And(x, y) <= x
  {
    if x > 0 && y > 0 { AndAtMost(x / 2, y / 2); }
  }

  lemma {:induction false} AndSplits(x: nat, y: nat, n: nat)
    requires x < Pow2(n) && y < Pow2(n)
    ensures And(x, y) + And(x, Pow2(n) - 1 - y) == x
  {
    if n > 0 {
      AndSplits(x / 2, y / 2, n - 1);
      assert (Pow2(n) - 1 - y) / 2 == Pow2(n - 1) - 1 - y / 2 && (Pow2(n) - 1 - y) % 2 == 1 - y % 2;
    }
  }

  lemma NothingToClear(x: u32, y: u32)
    requires And(x, y) == 0
    ensures AndNot(x, y) == x
  {
    Pow2Words();
    AndSplits(x, y, 32);
  }

  function Remaining(was: u32, flags: u32): u32
  {
    0x8001_0000 + AndNot(was % 0x1_0000, flags % 0x1_0000)
  }

  function Remove(c: Config, name: Bytes, flags: u32): (int, Config)
  {
    var k := Search(c, name);
    if k < 0 then (k, c) else SetFlags(c, name, Remaining(c.modules[k].flags, flags))
  }

  // MovePrx ignores the answer of RemovePrx.
  function Move(c: Config, before: Bytes, name: Bytes, flags: u32): (int, Config)
    requires c.Fits()
  {
    Add(Remove(c, name, flags).1, before, name, flags)
  }

  // ----- editing the file is editing the list -----

  lemma {:induction false} CStringGrows(s: Bytes, i: nat, extra: Bytes)
    requires i < |s| && s[|s| - 1] == 0
    ensures CString(s + extra, i) == CString(s, i)
    decreases |s| - i
  {
    if s[i] != 0 { CStringGrows(s, i + 1, extra); }
  }

  lemma NewName(names: Bytes, name: Bytes)
    requires 0 !in name
    ensures CString(names + name + [0], |names|) == name
  {
    var s := names + name + [0];
    assert s[|names|..|names| + |name|] == name;
    CStringUnique(s, |names|, name);
  }

  lemma ModuleKept(names: Bytes, e: Entry, name: Bytes)
    requires e.path < |names| && names[|names| - 1] == 0
    ensures ModuleOf(names + name + [0], e) == ModuleOf(names, e)
  {
    assert names + name + [0] == names + (name + [0]);
    CStringGrows(names, e.path, name + [0]);
  }

  lemma ListKept(names: Bytes, modules: seq<Entry>, name: Bytes)
    requires names != [] ==> names[|names| - 1] == 0
    requires forall i :: 0 <= i < |modules| ==> modules[i].path < |names|
    ensures ListOf(names + name + [0], modules) == ListOf(names, modules)
  {
    forall i | 0 <= i < |modules| ensures ModuleOf(names + name + [0], modules[i]) == ModuleOf(names, modules[i]) {
      ModuleKept(names, modules[i], name);
    }
  }

  lemma ModulesKept(c: Config, name: Bytes)
    requires WellFormed(c)
    ensures Modules(WithName(c, name)) == Modules(c)
  {
    ListKept(c.names, c.modules, name);
  }

  lemma EntryAdded(c: Config, k: nat, path: u32, flags: u32, name: Bytes)
    requires k <= |c.modules| && path <= |c.names| && CString(c.names, path) == name
    ensures Modules(AddEntry(c, k, path, flags)) == Inserted(Modules(c), k, Module(name, StoredFlags(flags)))
  {
  }

  lemma EntryFits(c: Config, k: nat, path: u32, flags: u32)
    requires k <= |c.modules| && WellFormed(c) && Room(c, 0) && path < |c.names|
    ensures WellFormed(AddEntry(c, k, path, flags))
  {
  }

  lemma CountsKept(c: Config, k: nat, path: u32, flags: u32)
    requires k <= |c.modules| && Counted(c)
    ensures Counted(AddEntry(c, k, path, flags))
  {
    OneMore(|c.modules|);
  }

  lemma OneMore(n: nat)
    ensures (n % 0x1_0000 + 1) % 0x1_0000 == (n + 1) % 0x1_0000
  {
  }

  // The file may grow by an entry and this many bytes.
  ghost predicate Room(c: Config, extra: nat)
  {
    c.NameEnd() + 32 + extra < 0x8000_0000
  }

  lemma AddedAt(c: Config, before: Bytes, path: u32, flags: u32, name: Bytes)
    requires WellFormed(c) && Room(c, 0) && Search(c, before) >= 0
    requires path < |c.names| && CString(c.names, path) == name
    ensures var (r, d) := AddAt(c, before, path, flags);
      && r == d.NameEnd() && WellFormed(d)
      && Modules(d) == Inserted(Modules(c), IndexOfName(Modules(c), before), Module(name, StoredFlags(flags)))
      && (Counted(c) ==> Counted(d))
  {
    var k := Search(c, before);
    EntryAdded(c, k, path, flags, name);
    EntryFits(c, k, path, flags);
    if Counted(c) { CountsKept(c, k, path, flags); }
  }

  lemma NamedFile(c: Config, before: Bytes, name: Bytes)
    requires WellFormed(c) && Room(c, |name| + 1)
    ensures var w := WithName(c, name); WellFormed(w) && Room(w, 0) && Search(w, before) == Search(c, before)
  {
    ModulesKept(c, name);
  }

  lemma AddedNew(c: Config, before: Bytes, name: Bytes, flags: u32)
    requires WellFormed(c) && Room(c, |name| + 1) && 0 !in name && Search(c, before) >= 0
    ensures var (r, d) := AddAt(WithName(c, name), before, |c.names|, flags);
      && r == d.NameEnd() && WellFormed(d)
      && Modules(d) == Inserted(Modules(c), IndexOfName(Modules(c), before), Module(name, StoredFlags(flags)))
      && (Counted(c) ==> Counted(d))
  {
    var w := WithName(c, name);
    NamedFile(c, before, name);
    ModulesKept(c, name);
    NewName(c.names, name);
    assert w.names == c.names + name + [0] && w.modes == c.modes && w.modules == c.modules;
    AddedAt(w, before, |c.names|, flags, name);
  }

  lemma AddedKnown(c: Config, before: Bytes, name: Bytes, flags: u32, k: nat)
    requires WellFormed(c) && Room(c, 0) && Search(c, before) >= 0 && k == Search(c, name)
    ensures var (r, d) := AddAt(c, before, c.modules[k].path, flags);
      && r == d.NameEnd() && WellFormed(d)
      && Modules(d) == Inserted(Modules(c), IndexOfName(Modules(c), before), Module(name, StoredFlags(flags)))
      && (Counted(c) ==> Counted(d))
  {
    assert Modules(c)[k] == ModuleOf(c.names, c.modules[k]);
    AddedAt(c, before, c.modules[k].path, flags, name);
  }

  // AddPRX inserts the module before the first one named insertbefore, with
  // the length of the new file as its answer; every mode keeps counting all
  // modules; and it does nothing when there is no such module.
  lemma AddIsInsert(c: Config, before: Bytes, name: Bytes, flags: u32)
    requires WellFormed(c) && Room(c, |name| + 1) && 0 !in name
    ensures var (r, d) := Add(c, before, name, flags);
      if Search(c, before) < 0 then r == Search(c, before) && d == c
      else
        && r == d.NameEnd() && WellFormed(d)
        && Modules(d) == Inserted(Modules(c), IndexOfName(Modules(c), before), Module(name, StoredFlags(flags)))
        && (Counted(c) ==> Counted(d))
  {
    var k := Search(c, name);
    if Search(c, before) >= 0 {
      if k >= 0 {
        AddedKnown(c, before, name, flags, k);
      } else {
        AddedNew(c, before, name, flags);
      }
    }
  }
}
