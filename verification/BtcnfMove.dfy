/** What MovePrx does to the boot list of every runlevel. */
module BtcnfMove {
  import opened Bits
  import opened ByteArrays
  import opened Btcnf
  import opened BtcnfList

  // Bit k of a flag word; a runlevel is a bit below 16.
  function Bit(x: nat, k: nat): bool
  {
    if k == 0 then x % 2 == 1 else Bit(x / 2, k - 1)
  }

  lemma {:induction false} BitOfAnd(x: nat, y: nat, k: nat)
    ensures Bit(And(x, y), k) == (Bit(x, k) && Bit(y, k))
  {
    if x == 0 { NoBits(k); }
    if y == 0 { NoBits(k); }
    if x > 0 && y > 0 && k > 0 { BitOfAnd(x / 2, y / 2, k - 1); }
  }

  lemma {:induction false} NoBits(k: nat)
    ensures !Bit(0, k)
  {
    if k > 0 { NoBits(k - 1); }
  }

  lemma {:induction false} BitOfComplement(y: nat, n: nat, k: nat)
    requires y < Pow2(n) && k < n
    ensures Bit(Pow2(n) - 1 - y, k) == !Bit(y, k)
  {
    if k > 0 {
      BitOfComplement(y / 2, n - 1, k - 1);
      assert (Pow2(n) - 1 - y) / 2 == Pow2(n - 1) - 1 - y / 2;
    }
  }

  // Bits below n do not see what stands above.
  lemma {:induction false} BitBelow(x: nat, high: nat, n: nat, k: nat)
    requires k < n
    ensures Bit(x + Pow2(n) * high, k) == Bit(x, k)
  {
    assert Pow2(n) * high == 2 * (Pow2(n - 1) * high) by { MulDouble(Pow2(n - 1), high); }
    if k > 0 {
      BitBelow(x / 2, high, n - 1, k - 1);
      assert (x + Pow2(n) * high) / 2 == x / 2 + Pow2(n - 1) * high;
    }
  }

  lemma LowHalf(x: nat, k: nat)
    requires k < 16
    ensures Bit(x % 0x1_0000, k) == Bit(x, k) && Bit(0x8001_0000 + x % 0x1_0000, k) == Bit(x, k)
  {
    Pow2Words();
    BitBelow(x % 0x1_0000, x / 0x1_0000, 16, k);
    BitBelow(x % 0x1_0000, 0x8001, 16, k);
  }

  lemma BitOfStored(flags: u32, k: nat)
    requires k < 16
    ensures Bit(StoredFlags(flags), k) == Bit(flags, k)
  {
    LowHalf(flags, k);
  }

  lemma BitOfRemaining(was: u32, flags: u32, k: nat)
    requires k < 16
    ensures Bit(Remaining(was, flags), k) == (Bit(was, k) && !Bit(flags, k))
  {
    var x, y := was % 0x1_0000, flags % 0x1_0000;
    LowHalf(AndNot(x, y), k);
    assert AndNot(x, y) % 0x1_0000 == AndNot(x, y);
    Pow2Words();
    BitOfAnd(x, 0xFFFF_FFFF - y, k);
    BitOfComplement(y, 32, k);
    LowHalf(was, k);
    LowHalf(flags, k);
  }

  // ----- boot lists -----

  // The names enabled for runlevel k, in order.
  function Boot(l: seq<Module>, k: nat): seq<Bytes>
  {
    if l == [] then [] else (if Bit(l[0].flags, k) then [l[0].name] else []) + Boot(l[1..], k)
  }

  function Without(s: seq<Bytes>, name: Bytes): seq<Bytes>
  {
    if s == [] then [] else (if s[0] == name then [] else [s[0]]) + Without(s[1..], name)
  }

  lemma {:induction false} BootSplits(a: seq<Module>, b: seq<Module>, k: nat)
    ensures Boot(a + b, k) == Boot(a, k) + Boot(b, k)
    decreases |a|
  {
    if a == [] {
      assert a + b == b;
    } else {
      BootSplits(a[1..], b, k);
      assert (a + b)[1..] == a[1..] + b;
    }
  }

  // Of the modules of that name, only the first one boots in a runlevel that
  // is asked for.
  predicate FirstOnly(l: seq<Module>, name: Bytes, flags: u32, k: nat)
  {
    Bit(flags, k) ==> forall i :: IndexOfName(l, name) < i < |l| && l[i].name == name ==> !Bit(l[i].flags, k)
  }

  // The named modules lose the runlevels in flags, and nothing else changes
  // for any runlevel.
  ghost predicate Disabled(l: seq<Module>, l': seq<Module>, name: Bytes, flags: u32, k: nat)
  {
    && |l'| == |l|
    && forall i :: 0 <= i < |l| ==>
         && l'[i].name == l[i].name
         && Bit(l'[i].flags, k) == (Bit(l[i].flags, k) && !(l[i].name == name && Bit(flags, k)))
  }

  lemma {:induction false} BootWithout(l: seq<Module>, l': seq<Module>, name: Bytes, flags: u32, k: nat)
    requires Disabled(l, l', name, flags, k)
    ensures Boot(l', k) == if Bit(flags, k) then Without(Boot(l, k), name) else Boot(l, k)
  {
    if l != [] {
      BootWithout(l[1..], l'[1..], name, flags, k);
      if Bit(l[0].flags, k) {
        assert Boot(l, k)[1..] == Boot(l[1..], k) && Boot(l, k)[0] == l[0].name;
      } else {
        assert Boot(l, k) == Boot(l[1..], k);
      }
      assert Boot(l', k) == (if Bit(l'[0].flags, k) then [l'[0].name] else []) + Boot(l'[1..], k);
    }
  }

  lemma RemovedDisables(c: Config, name: Bytes, flags: u32, k: nat)
    requires k < 16 && c.modules != [] && c.modes != []
    ensures Disabled(Modules(c), Modules(Remove(c, name, flags).1), name, flags, k)
      <==> FirstOnly(Modules(c), name, flags, k)
  {
    var l, l1, j := Modules(c), Modules(Remove(c, name, flags).1), Search(c, name);
    if j >= 0 {
      BitOfRemaining(c.modules[j].flags, flags, k);
      assert l[j] == ModuleOf(c.names, c.modules[j]) && IndexOfName(l, name) == j;
      assert forall i :: 0 <= i < |l| && i != j ==> l1[i] == l[i];
    } else {
      assert l1 == l && forall i :: 0 <= i < |l| ==> l[i].name != name;
    }
  }

  // A later module of that name stays as it is.
  lemma RemovedKeepsLater(c: Config, name: Bytes, flags: u32, i: nat)
    requires c.modules != [] && c.modes != [] && IndexOfName(Modules(c), name) < i < |c.modules|
    ensures Modules(Remove(c, name, flags).1)[i] == Modules(c)[i]
  {
  }

  // Removing keeps the names, so insertbefore is found where it was.
  lemma RemovedKeepsNames(c: Config, name: Bytes, flags: u32, before: Bytes)
    requires WellFormed(c)
    ensures var d := Remove(c, name, flags).1;
      && WellFormed(d) && d.NameEnd() == c.NameEnd() && Search(d, before) == Search(c, before)
          && (Counted(c) ==> Counted(d))
  {
    var d := Remove(c, name, flags).1;
    forall i | 0 <= i < |c.modules| ensures Modules(d)[i].name == Modules(c)[i].name { }
    if c.modules != [] && c.modes != [] {
      SameIndex(Modules(c), Modules(d), before);
    }
  }

  lemma {:induction false} SameIndex(l: seq<Module>, l': seq<Module>, name: Bytes)
    requires |l| == |l'| && forall i :: 0 <= i < |l| ==> l'[i].name == l[i].name
    ensures IndexOfName(l', name) == IndexOfName(l, name)
  {
    if l != [] { SameIndex(l[1..], l'[1..], name); }
  }

  // The boot list with the module taken out and put in front of place i, for a
  // runlevel asked for.
  function Moved(l: seq<Module>, i: nat, name: Bytes, flags: u32, k: nat): seq<Bytes>
    requires i <= |l|
  {
    if Bit(flags, k) then Without(Boot(l[..i], k), name) + [name] + Without(Boot(l[i..], k), name) else Boot(l, k)
  }

  // MovePrx: for the runlevels asked for, the module leaves its place and
  // stands directly in front of where the first insertbefore is, every other
  // boot list being as it was; this exactly when no other module of that name
  // than the first boots there.
  lemma MoveMovesBoot(c: Config, before: Bytes, name: Bytes, flags: u32, k: nat)
    requires WellFormed(c) && Room(c, |name| + 1) && 0 !in name && k < 16 && Search(c, before) >= 0
    ensures var (r, d) := Move(c, before, name, flags);
      var l, i := Modules(c), IndexOfName(Modules(c), before);
      && r == d.NameEnd() && WellFormed(d) && (Counted(c) ==> Counted(d))
      && (Boot(Modules(d), k) == Moved(l, i, name, flags, k) <==> FirstOnly(l, name, flags, k))
  {
    var l, l1, i := Modules(c), Modules(Remove(c, name, flags).1), IndexOfName(Modules(c), before);
    MovedModules(c, before, name, flags);
    RemovedDisables(c, name, flags, k);
    BitOfStored(flags, k);
    if FirstOnly(l, name, flags, k) {
      BootInserted(l, l1, i, name, flags, k);
    } else {
      LaterStays(c, before, name, flags, k);
      MovedOnce(l, i, name, flags, k);
    }
  }

  // The list that MovePrx leaves.
  lemma MovedModules(c: Config, before: Bytes, name: Bytes, flags: u32)
    requires WellFormed(c) && Room(c, |name| + 1) && 0 !in name && Search(c, before) >= 0
    ensures var (r, d) := Move(c, before, name, flags);
      var l1, i := Modules(Remove(c, name, flags).1), IndexOfName(Modules(c), before);
      && r == d.NameEnd() && WellFormed(d) && (Counted(c) ==> Counted(d)) && i < |c.modules| == |l1|
      && Modules(d) == Inserted(l1, i, Module(name, StoredFlags(flags)))
  {
    RemovedKeepsNames(c, name, flags, before);
    AddIsInsert(Remove(c, name, flags).1, before, name, flags);
  }

  // Otherwise the module boots twice: where it was put, and where a later
  // entry of its name stands.
  lemma LaterStays(c: Config, before: Bytes, name: Bytes, flags: u32, k: nat)
    requires WellFormed(c) && Room(c, |name| + 1) && 0 !in name && k < 16 && Search(c, before) >= 0
    requires !FirstOnly(Modules(c), name, flags, k)
    ensures multiset(Boot(Modules(Move(c, before, name, flags).1), k))[name] >= 2
  {
    var l, l1, i := Modules(c), Modules(Remove(c, name, flags).1), IndexOfName(Modules(c), before);
    var j :| IndexOfName(l, name) < j < |l| && l[j].name == name && Bit(l[j].flags, k);
    MovedModules(c, before, name, flags);
    RemovedKeepsLater(c, name, flags, j);
    BitOfStored(flags, k);
    BootsTwice(l1, i, Module(name, StoredFlags(flags)), j, k);
  }

  lemma BootsTwice(l: seq<Module>, i: nat, m: Module, j: nat, k: nat)
    requires i <= |l| && j < |l| && l[j].name == m.name && Bit(l[j].flags, k) && Bit(m.flags, k)
    ensures multiset(Boot(Inserted(l, i, m), k))[m.name] >= 2
  {
    BootOfInserted(l, i, m, k);
    if j < i { BootHas(l[..i], j, k); } else { BootHas(l[i..], j - i, k); }
    TwiceIn(Boot(l[..i], k), m.name, Boot(l[i..], k));
  }

  lemma TwiceIn(a: seq<Bytes>, x: Bytes, b: seq<Bytes>)
    requires x in a || x in b
    ensures multiset(a + [x] + b)[x] >= 2
  {
    assert multiset(a + [x] + b) == multiset(a) + multiset{x} + multiset(b);
  }

  lemma {:induction false} BootHas(l: seq<Module>, i: nat, k: nat)
    requires i < |l| && Bit(l[i].flags, k)
    ensures l[i].name in Boot(l, k)
  {
    if i > 0 { BootHas(l[1..], i - 1, k); }
  }

  lemma {:induction false} WithoutHasNot(s: seq<Bytes>, name: Bytes)
    ensures name !in Without(s, name)
  {
    if s != [] { WithoutHasNot(s[1..], name); }
  }

  lemma MovedOnce(l: seq<Module>, i: nat, name: Bytes, flags: u32, k: nat)
    requires i <= |l| && Bit(flags, k)
    ensures multiset(Moved(l, i, name, flags, k))[name] == 1
  {
    WithoutHasNot(Boot(l[..i], k), name);
    WithoutHasNot(Boot(l[i..], k), name);
  }

  // Moving behind where the module stands leaves its old entry in front of the
  // new one: the next move to the same place strips the old entry again, and
  // the module boots twice.
  lemma SecondMoveDoubles(c: Config, before: Bytes, name: Bytes, flags: u32, k: nat)
    requires WellFormed(c) && Room(c, |name| + 1) && 0 !in name && k < 16 && Bit(flags, k)
    requires Room(Move(c, before, name, flags).1, |name| + 1)
    requires 0 <= Search(c, name) < Search(c, before)
    ensures var d := Move(c, before, name, flags).1;
      Search(d, before) >= 0 && multiset(Boot(Modules(Move(d, before, name, flags).1), k))[name] >= 2
  {
    var l1, d, m := Modules(Remove(c, name, flags).1), Move(c, before, name, flags).1, Module(name, StoredFlags(flags));
    MovedModules(c, before, name, flags);
    RemovedKeepsNames(c, name, flags, name);
    RemovedKeepsNames(c, name, flags, before);
    MoveKeepsModes(c, before, name, flags);
    BitOfStored(flags, k);
    OldEntryFirst(l1, Search(c, before), Search(c, name), m, before, flags, k);
    LaterStays(d, before, name, flags, k);
  }

  lemma MoveKeepsModes(c: Config, before: Bytes, name: Bytes, flags: u32)
    requires c.Fits() && Remove(c, name, flags).1.Fits()
    ensures |Move(c, before, name, flags).1.modes| == |c.modes|
  {
  }

  lemma OldEntryFirst(l: seq<Module>, i: nat, j: nat, m: Module, before: Bytes, flags: u32, k: nat)
    requires j < i < |l| && IndexOfName(l, m.name) == j && l[i].name == before && Bit(flags, k) && Bit(m.flags, k)
    ensures var l2 := Inserted(l, i, m); IndexOfName(l2, before) < |l2| && !FirstOnly(l2, m.name, flags, k)
  {
    var l2 := Inserted(l, i, m);
    assert l2[i] == m && l2[j] == l[j] && l2[i + 1] == l[i] && forall n :: 0 <= n < j ==> l2[n] == l[n];
    IndexUnique(l2, m.name, j);
  }

  // Two modules "a" and "b", both for runlevel 1: after "a" was moved twice in
  // front of "b", it boots twice.
  const TWO := Config(0, seq(8, _ => 0), [Mode(2, seq(30, _ => 0))],
                      [Entry(0, 0, 0x8001_0001, seq(20, _ => 0)), Entry(2, 0, 0x8001_0001, seq(20, _ => 0))],
                      [97, 0, 98, 0], NO_GAPS)

  lemma SecondMoveOfTwo()
    ensures WellFormed(TWO) && Counted(TWO)
    ensures var d := Move(TWO, [98], [97], 1).1;
      d.Fits() && multiset(Boot(Modules(Move(d, [98], [97], 1).1), 0))[[97]] >= 2
  {
    var c, l := TWO, Modules(TWO);
    CStringUnique(c.names, 0, [97]);
    CStringUnique(c.names, 2, [98]);
    assert l[0].name == [97] && l[1].name == [98];
    IndexUnique(l, [97], 0);
    IndexUnique(l, [98], 1);
    EditKeeps(c, MoveEdit([98], [97], 1));
    SecondMoveDoubles(c, [98], [97], 1, 0);
  }

  lemma BootInserted(l: seq<Module>, l1: seq<Module>, i: nat, name: Bytes, flags: u32, k: nat)
    requires Disabled(l, l1, name, flags, k) && i <= |l| && Bit(StoredFlags(flags), k) == Bit(flags, k)
    ensures Boot(Inserted(l1, i, Module(name, StoredFlags(flags))), k)
         == if Bit(flags, k) then Without(Boot(l[..i], k), name) + [name] + Without(Boot(l[i..], k), name)
             else Boot(l, k)
  {
    BootOfInserted(l1, i, Module(name, StoredFlags(flags)), k);
    BootHalves(l, l1, i, name, flags, k);
    if !Bit(flags, k) {
      BootWhole(l, i, k);
      NothingBetween(Boot(l[..i], k), Boot(l[i..], k));
    }
  }

  lemma NothingBetween(a: seq<Bytes>, b: seq<Bytes>)
    ensures a + [] + b == a + b
  {
  }

  lemma BootHalves(l: seq<Module>, l1: seq<Module>, i: nat, name: Bytes, flags: u32, k: nat)
    requires Disabled(l, l1, name, flags, k) && i <= |l|
    ensures Boot(l1[..i], k) == if Bit(flags, k) then Without(Boot(l[..i], k), name) else Boot(l[..i], k)
    ensures Boot(l1[i..], k) == if Bit(flags, k) then Without(Boot(l[i..], k), name) else Boot(l[i..], k)
  {
    BootWithout(l[..i], l1[..i], name, flags, k);
    BootWithout(l[i..], l1[i..], name, flags, k);
  }

  lemma BootOfInserted(l: seq<Module>, i: nat, m: Module, k: nat)
    requires i <= |l|
    ensures Boot(Inserted(l, i, m), k) == Boot(l[..i], k) + (if Bit(m.flags, k) then [m.name] else []) + Boot(l[i..], k)
  {
    BootSplits(l[..i] + [m], l[i..], k);
    BootSplits(l[..i], [m], k);
    assert [m][1..] == [];
  }

  lemma BootWhole(l: seq<Module>, i: nat, k: nat)
    requires i <= |l|
    ensures Boot(l[..i], k) + Boot(l[i..], k) == Boot(l, k)
  {
    assert l[..i] + l[i..] == l;
    BootSplits(l[..i], l[i..], k);
  }

  // In a runlevel where insertbefore is enabled, it comes right after the
  // module that was moved.
  lemma BeforeComesNext(l: seq<Module>, before: Bytes, name: Bytes, k: nat)
    requires IndexOfName(l, before) < |l| && before != name && Bit(l[IndexOfName(l, before)].flags, k)
    ensures var rest := Without(Boot(l[IndexOfName(l, before)..], k), name); rest != [] && rest[0] == before
  {
    var tail := l[IndexOfName(l, before)..];
    assert tail[0].name == before && Boot(tail, k) == [before] + Boot(tail[1..], k);
  }

  // ----- any sequence of edits -----

  datatype Edit = AddEdit(before: Bytes, name: Bytes, flags: u32)
                | RemoveEdit(name: Bytes, flags: u32)
                | MoveEdit(before: Bytes, name: Bytes, flags: u32)
                | FlagEdit(name: Bytes, flags: u32)
  {
    // How many bytes the file may grow by.
    function Growth(): nat
    {
      33 + |name|
    }

    function Apply(c: Config): (int, Config)
      requires c.Fits()
    {
      match this
      case AddEdit(before, name, flags) => Add(c, before, name, flags)
      case RemoveEdit(name, flags) => Remove(c, name, flags)
      case MoveEdit(before, name, flags) => Move(c, before, name, flags)
      case FlagEdit(name, flags) => SetFlags(c, name, flags)
    }
  }

  function TotalGrowth(edits: seq<Edit>): nat
  {
    if edits == [] then 0 else edits[0].Growth() + TotalGrowth(edits[1..])
  }

  ghost predicate Sound(c: Config)
  {
    WellFormed(c) && Counted(c)
  }

  lemma EditKeeps(c: Config, e: Edit)
    requires Sound(c) && c.NameEnd() + e.Growth() < 0x8000_0000 && 0 !in e.name
    ensures var d := e.Apply(c).1; Sound(d) && d.NameEnd() <= c.NameEnd() + e.Growth()
  {
    match e
    case AddEdit(before, name, flags) =>
      AddIsInsert(c, before, name, flags);
    case RemoveEdit(name, flags) =>
      RemovedKeepsNames(c, name, flags, []);
    case MoveEdit(before, name, flags) =>
      RemovedKeepsNames(c, name, flags, before);
      AddIsInsert(Remove(c, name, flags).1, before, name, flags);
    case FlagEdit(name, flags) =>
  }

  function Run(c: Config, edits: seq<Edit>): Config
    requires c.Fits()
    decreases |edits|
  {
    if edits == [] then c
    else var d := edits[0].Apply(c).1; if d.Fits() then Run(d, edits[1..]) else d
  }

  // However the editing functions are called, the file stays well formed and
  // every mode counts all modules.
  lemma {:induction false} EditsKeep(c: Config, edits: seq<Edit>)
    requires Sound(c) && c.NameEnd() + TotalGrowth(edits) < 0x8000_0000
    requires forall i :: 0 <= i < |edits| ==> 0 !in edits[i].name
    ensures Sound(Run(c, edits)) && Run(c, edits).NameEnd() <= c.NameEnd() + TotalGrowth(edits)
    decreases |edits|
  {
    if edits != [] {
      EditKeeps(c, edits[0]);
      EditsKeep(edits[0].Apply(c).1, edits[1..]);
    }
  }
}
