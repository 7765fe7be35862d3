/** The boot configuration file: a header, tables of modes and modules, and the
    module names. */
module Btcnf {
  import opened Bits
  import opened ByteArrays

  const MAGIC: u32 := 0x0F803001

  datatype Mode = Mode(count: u16, rest: Bytes)

  datatype Entry = Entry(path: u32, unk4: u32, flags: u32, tail: Bytes)

  // Bytes between the parts of a file, which the header's offsets pass over.
  datatype Gaps = Gaps(behindHeader: Bytes, behindModes: Bytes, behindModules: Bytes)

  const NO_GAPS := Gaps([], [], [])

  // The words of the header nobody uses come as a list of eight.
  datatype Config = Config(devkit: u32, unknown: seq<u32>, modes: seq<Mode>, modules: seq<Entry>, names: Bytes,
                           gaps: Gaps)
  {
    function ModeStart(): nat { 64 + |gaps.behindHeader| }
    function ModuleStart(): nat { ModeStart() + 32 * |modes| + |gaps.behindModes| }
    function NameStart(): nat { ModuleStart() + 32 * |modules| + |gaps.behindModules| }
    function NameEnd(): nat { NameStart() + |names| }

    predicate Fits()
    {
      |unknown| == 8 && NameEnd() < 0x8000_0000
    }

    function Header(): (h: seq<u32>)
      requires Fits()
      ensures |h| == 16
    {
      [MAGIC, devkit, unknown[0], unknown[1], ModeStart(), |modes|, unknown[2], unknown[3],
       ModuleStart(), |modules|, unknown[4], unknown[5], NameStart(), NameEnd(), unknown[6], unknown[7]]
    }

    // The file.
    function Encode(): (s: Bytes)
      requires Fits()
      ensures |s| == NameEnd()
    {
      FileBytes(gaps, Header(), modes, modules, names)
    }
  }

  function FileBytes(g: Gaps, ws: seq<u32>, modes: seq<Mode>, modules: seq<Entry>, names: Bytes): (s: Bytes)
    ensures |s| == 4 * |ws| + |g.behindHeader| + 32 * |modes| + |g.behindModes| + 32 * |modules| + |g.behindModules|
                   + |names|
  {
    (WordsBytes(ws) + g.behindHeader) + (Table(ModeBytes, modes) + g.behindModes)
    + (Table(EntryBytes, modules) + g.behindModules) + names
  }

  function Exactly(s: Bytes, n: nat): (r: Bytes)
    ensures |r| == n && (|s| == n ==> r == s)
  {
    if |s| == n then s else seq(n, _ => 0)
  }

  function ModeBytes(m: Mode): (b: Bytes)
    ensures |b| == 32
  {
    Half(m.count) + Exactly(m.rest, 30)
  }

  function EntryBytes(e: Entry): (b: Bytes)
    ensures |b| == 32
  {
    Word(e.path) + Word(e.unk4) + Word(e.flags) + Exactly(e.tail, 20)
  }

  // A table of 32-byte records.
  function Table<T>(record: T -> Bytes, xs: seq<T>): (b: Bytes)
    ensures |b| == 32 * |xs|
  {
    if xs == [] then [] else Exactly(record(xs[0]), 32) + Table(record, xs[1..])
  }

  lemma {:induction false} TableAt<T>(record: T -> Bytes, xs: seq<T>, k: nat)
    requires k < |xs|
    ensures Table(record, xs)[32 * k..32 * k + 32] == Exactly(record(xs[k]), 32)
  {
    if k > 0 {
      TableAt(record, xs[1..], k - 1);
      assert Table(record, xs)[32 * k..32 * k + 32] == Table(record, xs[1..])[32 * (k - 1)..32 * (k - 1) + 32];
    }
  }

  lemma {:induction false} TableUpdated<T>(record: T -> Bytes, xs: seq<T>, k: nat, x: T)
    requires k < |xs|
    ensures var b := Table(record, xs);
      Table(record, xs[k := x]) == b[..32 * k] + Exactly(record(x), 32) + b[32 * k + 32..]
  {
    if k == 0 {
      assert xs[0 := x][1..] == xs[1..];
    } else {
      TableUpdated(record, xs[1..], k - 1, x);
      assert xs[k := x][1..] == xs[1..][k - 1 := x];
    }
  }

  lemma {:induction false} TableInserted<T>(record: T -> Bytes, xs: seq<T>, k: nat, x: T)
    requires k <= |xs|
    ensures var b := Table(record, xs);
      Table(record, xs[..k] + [x] + xs[k..]) == b[..32 * k] + Exactly(record(x), 32) + b[32 * k..]
  {
    var ys := xs[..k] + [x] + xs[k..];
    InsertedRest(xs, k, x);
    if k > 0 {
      TableInserted(record, xs[1..], k - 1, x);
      BehindHead(Exactly(record(xs[0]), 32), Table(record, xs[1..]), Exactly(record(x), 32), 32 * (k - 1));
    }
  }

  lemma InsertedRest<T>(xs: seq<T>, k: nat, x: T)
    requires k <= |xs|
    ensures var ys := xs[..k] + [x] + xs[k..];
      if k == 0 then ys[0] == x && ys[1..] == xs
      else ys[0] == xs[0] && ys[1..] == xs[1..][..k - 1] + [x] + xs[1..][k - 1..]
  {
  }

  lemma BehindHead(head: Bytes, rest: Bytes, patch: Bytes, i: nat)
    requires i <= |rest|
    ensures var b := head + rest; b[..|head| + i] + patch + b[|head| + i..] == head + (rest[..i] + patch + rest[i..])
  {
  }

  // Where the parts of the file are.
  lemma Parts(c: Config, buf: Bytes)
    requires c.Fits() && c.Encode() <= buf
    ensures buf[0..64] == WordsBytes(c.Header())
    ensures buf[c.ModeStart()..c.ModeStart() + 32 * |c.modes|] == Table(ModeBytes, c.modes)
    ensures buf[c.ModuleStart()..c.ModuleStart() + 32 * |c.modules|] == Table(EntryBytes, c.modules)
      && buf[c.NameStart()..c.NameEnd()] == c.names
  {
    var w, m, t := WordsBytes(c.Header()), Table(ModeBytes, c.modes), Table(EntryBytes, c.modules);
    FourParts(buf, w + c.gaps.behindHeader, m + c.gaps.behindModes, t + c.gaps.behindModules, c.names);
    FrontOf(buf, 0, c.ModeStart(), w, c.gaps.behindHeader);
    FrontOf(buf, c.ModeStart(), c.ModuleStart(), m, c.gaps.behindModes);
    FrontOf(buf, c.ModuleStart(), c.NameStart(), t, c.gaps.behindModules);
  }

  lemma FrontOf(buf: Bytes, i: nat, j: nat, a: Bytes, gap: Bytes)
    requires i <= j <= |buf| && buf[i..j] == a + gap
    ensures i + |a| <= j && buf[i..i + |a|] == a
  {
    SliceOfSlice(buf, i, j, 0, |a|);
    assert (a + gap)[0..|a|] == a;
  }

  lemma ModeTable(g: Gaps, ws: seq<u32>, modes: seq<Mode>, modules: seq<Entry>, names: Bytes, buf: Bytes, i: nat,
                  j: nat)
    requires FileBytes(g, ws, modes, modules, names) <= buf
    requires i == 4 * |ws| + |g.behindHeader| && j == i + 32 * |modes|
    ensures j <= |buf| && buf[i..j] == Table(ModeBytes, modes)
  {
    var a, b := WordsBytes(ws) + g.behindHeader, Table(ModeBytes, modes);
    var c := g.behindModes + (Table(EntryBytes, modules) + g.behindModules) + names;
    AroundModes(g, ws, modes, modules, names);
    assert FileBytes(g, ws, modes, modules, names) == a + b + c;
    SecondPart(buf, a, b, c, i, j);
  }

  lemma SecondPart(buf: Bytes, a: Bytes, b: Bytes, c: Bytes, i: nat, j: nat)
    requires a + b + c <= buf && i == |a| && j == i + |b|
    ensures j <= |buf| && buf[i..j] == b
  {
    assert buf[..|a + b + c|] == a + b + c;
    assert buf[i..j] == (a + b + c)[i..j];
  }

  lemma FourParts(buf: Bytes, a: Bytes, b: Bytes, c: Bytes, d: Bytes)
    requires a + b + c + d <= buf
    ensures var i, j, k := |a|, |a| + |b|, |a| + |b| + |c|;
      buf[0..i] == a && buf[i..j] == b && buf[j..k] == c && buf[k..k + |d|] == d
  {
    assert buf[..|a + b + c + d|] == a + b + c + d;
  }

  // What the header says.
  lemma HeaderRead(c: Config, buf: Bytes, k: nat)
    requires c.Fits() && c.Encode() <= buf && k < 16
    ensures Le32(buf, 4 * k) == c.Header()[k]
  {
    Parts(c, buf);
    WordsAt(c.Header(), k);
    SliceOfSlice(buf, 0, 64, 4 * k, 4 * k + 4);
    WordRead(buf, 4 * k, c.Header()[k]);
  }

  lemma EntryFields(e: Entry)
    ensures EntryBytes(e)[0..4] == Word(e.path) && EntryBytes(e)[8..12] == Word(e.flags)
  {
  }

  lemma EntryRead(c: Config, buf: Bytes, k: nat)
    requires c.Fits() && c.Encode() <= buf && k < |c.modules|
    ensures var i := c.ModuleStart() + 32 * k;
      i + 32 <= |buf| && Le32(buf, i) == c.modules[k].path && Le32(buf, i + 8) == c.modules[k].flags
  {
    Parts(c, buf);
    TableAt(EntryBytes, c.modules, k);
    var i := c.ModuleStart();
    EntryInTable(buf, i, i + 32 * |c.modules|, Table(EntryBytes, c.modules), k, c.modules[k]);
  }

  lemma EntryInTable(buf: Bytes, i: nat, j: nat, t: Bytes, k: nat, e: Entry)
    requires i <= j <= |buf| && buf[i..j] == t && 32 * k + 32 <= |t| && t[32 * k..32 * k + 32] == EntryBytes(e)
    ensures i + 32 * k + 32 <= |buf| && Le32(buf, i + 32 * k) == e.path && Le32(buf, i + 32 * k + 8) == e.flags
  {
    SliceOfSlice(buf, i, j, 32 * k, 32 * k + 32);
    EntryAt(buf, i + 32 * k, e);
  }

  lemma EntryAt(buf: Bytes, i: nat, e: Entry)
    requires i + 32 <= |buf| && buf[i..i + 32] == EntryBytes(e)
    ensures Le32(buf, i) == e.path && Le32(buf, i + 8) == e.flags
  {
    EntryFields(e);
    SliceOfSlice(buf, i, i + 32, 0, 4);
    SliceOfSlice(buf, i, i + 32, 8, 12);
    WordRead(buf, i, e.path);
    WordRead(buf, i + 8, e.flags);
  }

  lemma NameRead(c: Config, buf: Bytes, i: nat)
    requires c.Fits() && c.Encode() <= buf && i < |c.names|
    ensures c.NameStart() + i < |buf| && buf[c.NameStart() + i] == c.names[i]
  {
    assert c.Encode()[c.NameStart() + i] == c.names[i];
  }

  // ----- a change of some bytes is a change of one part -----

  // Up to end, the bytes from a to a + cut have given way to the patch.
  ghost predicate Patched(buf: Bytes, buf': Bytes, a: nat, cut: nat, patch: Bytes, end: nat)
  {
    var b := a + |patch|;
    && a + cut <= end <= |buf| && b + (end - a - cut) <= |buf'|
    && buf'[..a] == buf[..a] && buf'[a..b] == patch && buf'[b..b + (end - a - cut)] == buf[a + cut..end]
  }

  lemma PatchedPut(buf: Bytes, buf': Bytes, a: nat, patch: Bytes, end: nat)
    requires a + |patch| <= end <= |buf| && buf' == buf[..a] + patch + buf[a + |patch|..]
    ensures Patched(buf, buf', a, |patch|, patch, end)
  {
  }

  // A patch inside the middle one of three parts.
  lemma Splice(buf: Bytes, buf': Bytes, pre: Bytes, mid: Bytes, post: Bytes, i: nat, j: nat, patch: Bytes)
    requires pre + mid + post <= buf && i <= j <= |mid|
    requires Patched(buf, buf', |pre| + i, j - i, patch, |pre| + |mid| + |post|)
    ensures pre + (mid[..i] + patch + mid[j..]) + post <= buf'
  {
    var a, b, end := |pre| + i, |pre| + i + |patch|, |pre| + |mid| + |post|;
    var e := b + (end - a - (j - i));
    assert buf'[..e] == buf'[..a] + buf'[a..b] + buf'[b..e];
    Beginning(buf, pre, mid, post, i);
    Ending(buf, pre, mid, post, j);
    assert pre + (mid[..i] + patch + mid[j..]) + post == (pre + mid[..i]) + patch + (mid[j..] + post);
  }

  lemma Beginning(buf: Bytes, pre: Bytes, mid: Bytes, post: Bytes, i: nat)
    requires pre + mid + post <= buf && i <= |mid|
    ensures buf[..|pre| + i] == pre + mid[..i]
  {
    var whole := pre + mid + post;
    assert buf[..|whole|] == whole;
    assert buf[..|pre| + i] == whole[..|pre| + i];
  }

  lemma Ending(buf: Bytes, pre: Bytes, mid: Bytes, post: Bytes, j: nat)
    requires pre + mid + post <= buf && j <= |mid|
    ensures buf[|pre| + j..|pre| + |mid| + |post|] == mid[j..] + post
  {
    var whole := pre + mid + post;
    assert buf[..|whole|] == whole;
    assert buf[|pre| + j..|pre| + |mid| + |post|] == whole[|pre| + j..];
  }

  // A file around its header, its mode table, its modules and its names.
  lemma AroundWords(g: Gaps, ws: seq<u32>, modes: seq<Mode>, modules: seq<Entry>, names: Bytes)
    ensures FileBytes(g, ws, modes, modules, names)
         == [] + WordsBytes(ws)
            + (g.behindHeader + (Table(ModeBytes, modes) + g.behindModes)
               + (Table(EntryBytes, modules) + g.behindModules) + names)
  {
    RegroupFirst(WordsBytes(ws), g.behindHeader, Table(ModeBytes, modes) + g.behindModes,
                 Table(EntryBytes, modules) + g.behindModules, names);
  }

  lemma AroundModes(g: Gaps, ws: seq<u32>, modes: seq<Mode>, modules: seq<Entry>, names: Bytes)
    ensures FileBytes(g, ws, modes, modules, names)
         == (WordsBytes(ws) + g.behindHeader) + Table(ModeBytes, modes)
            + (g.behindModes + (Table(EntryBytes, modules) + g.behindModules) + names)
  {
    RegroupSecond(WordsBytes(ws) + g.behindHeader, Table(ModeBytes, modes), g.behindModes,
                  Table(EntryBytes, modules) + g.behindModules, names);
  }

  lemma AroundEntries(g: Gaps, ws: seq<u32>, modes: seq<Mode>, modules: seq<Entry>, names: Bytes)
    ensures FileBytes(g, ws, modes, modules, names)
         == ((WordsBytes(ws) + g.behindHeader) + (Table(ModeBytes, modes) + g.behindModes)) + Table(EntryBytes, modules)
            + (g.behindModules + names)
  {
    RegroupThird((WordsBytes(ws) + g.behindHeader) + (Table(ModeBytes, modes) + g.behindModes),
                 Table(EntryBytes, modules), g.behindModules, names);
  }

  lemma AroundNames(g: Gaps, ws: seq<u32>, modes: seq<Mode>, modules: seq<Entry>, names: Bytes)
    ensures FileBytes(g, ws, modes, modules, names)
         == ((WordsBytes(ws) + g.behindHeader) + (Table(ModeBytes, modes) + g.behindModes)
             + (Table(EntryBytes, modules) + g.behindModules)) + names + []
  {
  }

  lemma RegroupFirst(w: Bytes, gap: Bytes, m: Bytes, t: Bytes, n: Bytes)
    ensures (w + gap) + m + t + n == [] + w + (gap + m + t + n)
  {
  }

  lemma RegroupSecond(w: Bytes, m: Bytes, gap: Bytes, t: Bytes, n: Bytes)
    ensures w + (m + gap) + t + n == w + m + (gap + t + n)
  {
  }

  lemma RegroupThird(front: Bytes, t: Bytes, gap: Bytes, n: Bytes)
    ensures front + (t + gap) + n == front + t + (gap + n)
  {
  }

  lemma PatchWord(g: Gaps, ws: seq<u32>, modes: seq<Mode>, modules: seq<Entry>, names: Bytes, buf: Bytes, buf': Bytes,
                  k: nat, x: u32)
    requires FileBytes(g, ws, modes, modules, names) <= buf && k < |ws|
    requires Patched(buf, buf', 4 * k, 4, Word(x), |FileBytes(g, ws, modes, modules, names)|)
    ensures FileBytes(g, ws[k := x], modes, modules, names) <= buf'
  {
    AroundWords(g, ws, modes, modules, names);
    AroundWords(g, ws[k := x], modes, modules, names);
    WordsUpdated(ws, k, x);
    PatchMiddle(buf, buf', [], WordsBytes(ws), WordsBytes(ws[k := x]),
                g.behindHeader + (Table(ModeBytes, modes) + g.behindModes)
                + (Table(EntryBytes, modules) + g.behindModules) + names,
                4 * k, Word(x), |FileBytes(g, ws, modes, modules, names)|);
  }

  // Where the entries begin.
  function EntriesAt(g: Gaps, ws: seq<u32>, modes: seq<Mode>): nat
  {
    4 * |ws| + |g.behindHeader| + 32 * |modes| + |g.behindModes|
  }

  lemma PatchEntries(g: Gaps, ws: seq<u32>, modes: seq<Mode>, modules: seq<Entry>, names: Bytes, buf: Bytes,
                     buf': Bytes, k: nat, e: Entry)
    requires FileBytes(g, ws, modes, modules, names) <= buf && k <= |modules|
    requires Patched(buf, buf', EntriesAt(g, ws, modes) + 32 * k, 0,
                     EntryBytes(e), |FileBytes(g, ws, modes, modules, names)|)
    ensures FileBytes(g, ws, modes, modules[..k] + [e] + modules[k..], names) <= buf'
  {
    var pre := (WordsBytes(ws) + g.behindHeader) + (Table(ModeBytes, modes) + g.behindModes);
    var t := Table(EntryBytes, modules);
    AroundEntries(g, ws, modes, modules, names);
    Splice(buf, buf', pre, t, g.behindModules + names, 32 * k, 32 * k, EntryBytes(e));
    TableInserted(EntryBytes, modules, k, e);
    AroundEntries(g, ws, modes, modules[..k] + [e] + modules[k..], names);
  }

  lemma PatchNames(g: Gaps, ws: seq<u32>, modes: seq<Mode>, modules: seq<Entry>, names: Bytes, buf: Bytes,
                   buf': Bytes, more: Bytes)
    requires FileBytes(g, ws, modes, modules, names) <= buf
    requires var end := |FileBytes(g, ws, modes, modules, names)|; Patched(buf, buf', end, 0, more, end)
    ensures FileBytes(g, ws, modes, modules, names + more) <= buf'
  {
    var pre := (WordsBytes(ws) + g.behindHeader) + (Table(ModeBytes, modes) + g.behindModes)
      + (Table(EntryBytes, modules) + g.behindModules);
    AroundNames(g, ws, modes, modules, names);
    Splice(buf, buf', pre, names, [], |names|, |names|, more);
    assert names[..|names|] + more + names[|names|..] == names + more;
    AroundNames(g, ws, modes, modules, names + more);
  }

  lemma CountPatched(m: Mode, count: u16)
    ensures ModeBytes(m.(count := count)) == Half(count) + ModeBytes(m)[2..]
  {
  }

  lemma PatchMode(g: Gaps, ws: seq<u32>, modes: seq<Mode>, modules: seq<Entry>, names: Bytes, buf: Bytes,
                  buf': Bytes, k: nat, count: u16)
    requires FileBytes(g, ws, modes, modules, names) <= buf && k < |modes|
    requires Patched(buf, buf', 4 * |ws| + |g.behindHeader| + 32 * k, 2, Half(count),
                     |FileBytes(g, ws, modes, modules, names)|)
    ensures FileBytes(g, ws, modes[k := modes[k].(count := count)], modules, names) <= buf'
  {
    var modes' := modes[k := modes[k].(count := count)];
    AroundModes(g, ws, modes, modules, names);
    AroundModes(g, ws, modes', modules, names);
    TableCounted(modes, k, count);
    PatchMiddle(buf, buf', WordsBytes(ws) + g.behindHeader, Table(ModeBytes, modes), Table(ModeBytes, modes'),
                g.behindModes + (Table(EntryBytes, modules) + g.behindModules) + names, 32 * k, Half(count),
                |FileBytes(g, ws, modes, modules, names)|);
  }

  lemma TableCounted(modes: seq<Mode>, k: nat, count: u16)
    requires k < |modes|
    ensures var t := Table(ModeBytes, modes);
      Table(ModeBytes, modes[k := modes[k].(count := count)]) == t[..32 * k] + Half(count) + t[32 * k + 2..]
  {
    TableAt(ModeBytes, modes, k);
    TableUpdated(ModeBytes, modes, k, modes[k].(count := count));
    CountPatched(modes[k], count);
    PatchInRecord(Table(ModeBytes, modes), 32 * k, Half(count), 0, 2);
  }

  // A patch inside the record at i, seen as a new record.
  lemma PatchInRecord(t: Bytes, i: nat, patch: Bytes, a: nat, b: nat)
    requires i + 32 <= |t| && a + |patch| == b <= 32
    ensures t[..i + a] + patch + t[i + b..] == t[..i] + (t[i..i + 32][..a] + patch + t[i..i + 32][b..]) + t[i + 32..]
  {
  }

  lemma FlagsPatched(e: Entry, flags: u32)
    ensures EntryBytes(e.(flags := flags)) == EntryBytes(e)[..8] + Word(flags) + EntryBytes(e)[12..]
  {
  }

  lemma PatchFlags(g: Gaps, ws: seq<u32>, modes: seq<Mode>, modules: seq<Entry>, names: Bytes, buf: Bytes,
                   buf': Bytes, k: nat, flags: u32)
    requires FileBytes(g, ws, modes, modules, names) <= buf && k < |modules|
    requires Patched(buf, buf', EntriesAt(g, ws, modes) + 32 * k + 8, 4,
                     Word(flags), |FileBytes(g, ws, modes, modules, names)|)
    ensures FileBytes(g, ws, modes, modules[k := modules[k].(flags := flags)], names) <= buf'
  {
    var modules' := modules[k := modules[k].(flags := flags)];
    AroundEntries(g, ws, modes, modules, names);
    AroundEntries(g, ws, modes, modules', names);
    TableFlagged(modules, k, flags);
    PatchMiddle(buf, buf', (WordsBytes(ws) + g.behindHeader) + (Table(ModeBytes, modes) + g.behindModes),
                Table(EntryBytes, modules), Table(EntryBytes, modules'), g.behindModules + names, 32 * k + 8,
                Word(flags),
                |FileBytes(g, ws, modes, modules, names)|);
  }

  // The same with the parts as plain bytes.
  lemma PatchMiddle(buf: Bytes, buf': Bytes, pre: Bytes, t: Bytes, t': Bytes, post: Bytes, i: nat, patch: Bytes,
                    end: nat)
    requires pre + t + post <= buf && i + |patch| <= |t| && end == |pre| + |t| + |post|
    requires Patched(buf, buf', |pre| + i, |patch|, patch, end) && t' == t[..i] + patch + t[i + |patch|..]
    ensures pre + t' + post <= buf'
  {
    Splice(buf, buf', pre, t, post, i, i + |patch|, patch);
  }

  lemma TableFlagged(modules: seq<Entry>, k: nat, flags: u32)
    requires k < |modules|
    ensures var t := Table(EntryBytes, modules);
      Table(EntryBytes, modules[k := modules[k].(flags := flags)]) == t[..32 * k + 8] + Word(flags) + t[32 * k + 12..]
  {
    TableAt(EntryBytes, modules, k);
    TableUpdated(EntryBytes, modules, k, modules[k].(flags := flags));
    FlagsPatched(modules[k], flags);
    PatchInRecord(Table(EntryBytes, modules), 32 * k, Word(flags), 8, 12);
  }
}
