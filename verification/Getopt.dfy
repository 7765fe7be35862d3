/** Argument parsing with permutation: getopt_internal and getopt_long as one
    state machine over the argument vector. */
module Getopt {
  import opened Rotation
  import opened Wrappers

  datatype ArgKind = NoArgument | RequiredArgument | OptionalArgument

  datatype LongOption = LongOption(name: string, hasArg: ArgKind)

  // What a call reports: -1, '?' for an unknown or ambiguous option, the BADARG
  // character, an option letter or a long option with optarg, or the 1 of a
  // non-option that is reported in its place.
  datatype Report = End | BadOption | BadArgument | Letter(c: char, arg: Option<string>)
                  | Long(index: nat, arg: Option<string>) | Argument(text: string)

  // ----- what one option on the command line means -----

  function IndexOf(s: string, c: char): (i: nat)
    ensures i <= |s| && c !in s[..i] && (i < |s| ==> s[i] == c)
  {
    if s == "" || s[0] == c then 0 else 1 + IndexOf(s[1..], c)
  }

  datatype Match = NoMatch | Ambiguous | Found(index: nat)

  // The search for a long option: an exact name ends it, a second abbreviation
  // seen before that makes it ambiguous.
  function Lookup(key: string, longs: seq<LongOption>, i: nat, match0: Match): (m: Match)
    requires i <= |longs| && (match0.Found? ==> match0.index < |longs|) && !match0.Ambiguous?
    ensures m.Found? ==> m.index < |longs|
    decreases |longs| - i
  {
    if i == |longs| then match0
    else if !(key <= longs[i].name) then Lookup(key, longs, i + 1, match0)
    else if key == longs[i].name then Found(i)
    else if match0 == NoMatch then Lookup(key, longs, i + 1, Found(i))
    else Ambiguous
  }

  function Abbreviated(key: string, longs: seq<LongOption>, i: nat, j: nat): nat
    requires i <= j <= |longs|
    decreases j - i
  {
    if i == j then 0 else (if key <= longs[i].name then 1 else 0) + Abbreviated(key, longs, i + 1, j)
  }

  // An exact name is found only when at most one longer name with this
  // beginning stands before it in the table.
  lemma {:induction false} ExactName(key: string, longs: seq<LongOption>, i: nat, j: nat, match0: Match)
    requires i <= j < |longs| && longs[j].name == key && (forall k :: i <= k < j ==> longs[k].name != key)
    requires !match0.Ambiguous? && (match0.Found? ==> match0.index < |longs|)
    ensures Lookup(key, longs, i, match0)
         == if Abbreviated(key, longs, i, j) + (if match0.Found? then 1 else 0) <= 1 then Found(j) else Ambiguous
    decreases j - i
  {
    if i < j {
      var fits := key <= longs[i].name;
      if !fits || match0.NoMatch? { ExactName(key, longs, i + 1, j, if fits then Found(i) else match0); }
    }
  }

  // Without an exact name, what begins with the key decides: nothing, one name,
  // or more than one.
  lemma {:induction false} OnlyAbbreviations(key: string, longs: seq<LongOption>, i: nat, match0: Match)
    requires i <= |longs| && (forall k :: i <= k < |longs| ==> longs[k].name != key)
    requires !match0.Ambiguous? && (match0.Found? ==> match0.index < |longs|)
    ensures var n, m := Abbreviated(key, longs, i, |longs|), Lookup(key, longs, i, match0);
      && (n == 0 ==> m == match0)
      && (n == 1 && match0 == NoMatch ==> m.Found? && i <= m.index && key <= longs[m.index].name)
      && (n + (if match0.Found? then 1 else 0) > 1 ==> m == Ambiguous)
    decreases |longs| - i
  {
    if i < |longs| {
      var fits := key <= longs[i].name;
      if !fits || match0.NoMatch? { OnlyAbbreviations(key, longs, i + 1, if fits then Found(i) else match0); }
    }
  }

  lemma {:induction false} OneBegins(key: string, longs: seq<LongOption>, i: nat, a: nat, b: nat)
    requires i <= a < |longs| && i <= b < |longs| && key <= longs[a].name && key <= longs[b].name
    requires Abbreviated(key, longs, i, |longs|) <= 1
    ensures a == b
    decreases |longs| - i
  {
    if i < a && i < b {
      OneBegins(key, longs, i + 1, a, b);
    } else if a != b {
      NoneBegins(key, longs, i + 1, if a > b then a else b);
    }
  }

  lemma {:induction false} NoneBegins(key: string, longs: seq<LongOption>, i: nat, a: nat)
    requires i <= a < |longs| && key <= longs[a].name
    ensures Abbreviated(key, longs, i, |longs|) > 0
    decreases a - i
  {
    if i < a { NoneBegins(key, longs, i + 1, a); }
  }

  // What is typed for a name: the name itself, not there twice and after at
  // most one longer name that begins with it; or the beginning of no other.
  predicate Types(key: string, longs: seq<LongOption>, i: nat)
    requires i < |longs|
  {
    if key == longs[i].name then
      (forall k :: 0 <= k < i ==> longs[k].name != key) && Abbreviated(key, longs, 0, i) <= 1
    else
      && key <= longs[i].name && (forall k :: 0 <= k < |longs| ==> longs[k].name != key)
      && Abbreviated(key, longs, 0, |longs|) == 1
  }

  predicate FirstExact(key: string, longs: seq<LongOption>, i: nat)
  {
    i < |longs| && longs[i].name == key && forall k :: 0 <= k < i ==> longs[k].name != key
  }

  // The search finds exactly that.
  lemma NameFound(key: string, longs: seq<LongOption>, i: nat)
    requires i < |longs|
    ensures Lookup(key, longs, 0, NoMatch) == Found(i) <==> Types(key, longs, i)
  {
    if exact: nat :| FirstExact(key, longs, exact) {
      ExactName(key, longs, 0, exact, NoMatch);
      assert Types(key, longs, i) ==> i == exact;
    } else {
      NoExact(key, longs, |longs|);
      OnlyAbbreviations(key, longs, 0, NoMatch);
      var n := Abbreviated(key, longs, 0, |longs|);
      if n == 1 && key <= longs[i].name { OneBegins(key, longs, 0, i, Lookup(key, longs, 0, NoMatch).index); }
    }
  }

  // If there is an exact name there is a first one.
  lemma {:induction false} NoExact(key: string, longs: seq<LongOption>, n: nat)
    requires n <= |longs|
    requires !exists e: nat :: FirstExact(key, longs, e)
    ensures forall k :: 0 <= k < n ==> longs[k].name != key
  {
    if n > 0 {
      NoExact(key, longs, n - 1);
      assert !FirstExact(key, longs, n - 1);
    }
  }

  // A long option after its two dashes: the report and the arguments used; no
  // text at all ends the scan.
  function LongStep(text: string, longs: seq<LongOption>, after: seq<string>): (r: (Report, nat))
    ensures (r.0 == End <==> text == "") && 1 <= r.1 <= 1 + |after|
  {
    var eq := IndexOf(text, '=');
    var attached := if eq < |text| then Some(text[eq + 1..]) else None;
    if text == "" then (End, 1)
    else
      match Lookup(text[..eq], longs, 0, NoMatch)
      case NoMatch => (BadOption, 1)
      case Ambiguous => (BadOption, 1)
      case Found(i) =>
        match longs[i].hasArg
        case NoArgument => if attached.Some? then (BadArgument, 1) else (Long(i, None), 1)
        case OptionalArgument => (Long(i, attached), 1)
        case RequiredArgument =>
          if attached.Some? then (Long(i, attached), 1)
          else if after == [] then (BadArgument, 1)
          else (Long(i, Some(after[0])), 2)
  }

  // One letter of a cluster, with the arguments behind its own: what it reports,
  // the letters left, and how many arguments are used up when the cluster ends
  // here (0 when it goes on). A W that stands for long options goes on with
  // what is behind it as if that were behind two dashes.
  function LetterStep(letters: string, options: string, longs: seq<LongOption>, after: seq<string>)
    : (r: (Report, string, nat))
    requires letters != ""
    ensures |r.1| < |letters| && r.2 <= 1 + |after| && (r.2 == 0 <==> r.1 != "") && (r.0 == End ==> r.1 == "")
  {
    var c, rest := letters[0], letters[1..];
    var i := IndexOf(options, c);
    var end := if rest == "" then 1 else 0;
    if c == ':' || i == |options| then (BadOption, rest, end)
    else if StandsForLong(options, i) then
      if rest != "" then
        var (r, n) := LongStep(rest, longs, after); (r, "", n)
      else if after == [] then (BadArgument, "", 1)
      else
        var (r, n) := LongStep(after[0], longs, after[1..]); (r, "", 1 + n)
    else if i + 1 >= |options| || options[i + 1] != ':' then (Letter(c, None), rest, end)
    else if rest != "" then (Letter(c, Some(rest)), "", 1)
    else if i + 2 < |options| && options[i + 2] == ':' then (Letter(c, None), "", 1)
    else if after == [] then (BadArgument, "", 1)
    else (Letter(c, Some(after[0])), "", 2)
  }

  // "W;" in the option string.
  predicate StandsForLong(options: string, i: nat)
    requires i < |options|
  {
    options[i] == 'W' && i + 1 < |options| && options[i + 1] == ';'
  }

  function ClusterSpan(letters: string, options: string, longs: seq<LongOption>, after: seq<string>): (n: nat)
    requires letters != ""
    ensures 1 <= n <= 1 + |after|
    decreases |letters|
  {
    var (_, rest, used) := LetterStep(letters, options, longs, after);
    if used > 0 then used else ClusterSpan(rest, options, longs, after)
  }

  function ClusterReports(letters: string, options: string, longs: seq<LongOption>, after: seq<string>): seq<Report>
    requires letters != ""
    decreases |letters|
  {
    var (report, rest, used) := LetterStep(letters, options, longs, after);
    Alone(report) + if used > 0 then [] else ClusterReports(rest, options, longs, after)
  }

  // The scan ends in this cluster: only an empty word behind a W does that.
  predicate ClusterEnds(letters: string, options: string, longs: seq<LongOption>, after: seq<string>)
    requires letters != ""
    decreases |letters|
  {
    var (report, rest, used) := LetterStep(letters, options, longs, after);
    if used > 0 then report == End else ClusterEnds(rest, options, longs, after)
  }

  function Alone(r: Report): seq<Report> { if r == End then [] else [r] }

  // Letters behind which the cluster goes on when there are more of them.
  predicate GoesOn(c: char, options: string)
  {
    var i := IndexOf(options, c);
    c == ':' || i == |options| || (!StandsForLong(options, i) && (i + 1 < |options| ==> options[i + 1] != ':'))
  }

  // An empty argument behind a W that stands for long options ends the scan as
  // "--" does, and nothing else in a cluster does.
  lemma {:induction false} EmptyNameEnds(letters: string, options: string, longs: seq<LongOption>, after: seq<string>)
    requires letters != ""
    ensures ClusterEnds(letters, options, longs, after) <==>
      && letters[|letters| - 1] == 'W' && "W;" <= options[IndexOf(options, 'W')..]
      && (forall i :: 0 <= i < |letters| - 1 ==> GoesOn(letters[i], options))
      && after != [] && after[0] == ""
    decreases |letters|
  {
    var w := IndexOf(options, 'W');
    assert w < |options| ==> (StandsForLong(options, w) <==> "W;" <= options[w..]);
    var (r, rest, used) := LetterStep(letters, options, longs, after);
    if used == 0 {
      EmptyNameEnds(rest, options, longs, after);
      assert GoesOn(letters[0], options) && forall i :: 0 < i < |letters| ==> letters[i] == rest[i - 1];
    } else if |letters| > 1 {
      assert !GoesOn(letters[0], options);
    }
  }

  // ----- reading the original vector from left to right -----

  predicate IsNonOption(a: string)
  {
    a == "" || a[0] != '-' || |a| == 1
  }

  datatype Reading = Reading(opts: seq<string>, nons: seq<string>, stop: nat, reports: seq<Report>)
  {
    function After(o: seq<string>, n: seq<string>, r: seq<Report>): Reading
    {
      Reading(o + opts, n + nons, stop, r + reports)
    }
  }

  // What becomes of non-options: they are moved behind the options, end the
  // scan, or are reported in their place.
  datatype Mode = Permuting | Stopping | InOrder

  // How many arguments the option at an index takes, what it reports, and
  // whether it ends the scan.
  datatype Lexer = Lexer(mode: Mode, of: (seq<string>, nat) -> (nat, seq<Report>, bool))

  // Everything from k on: options with their arguments up to and with "--",
  // the non-options among them, where the reading ends, and what it reports.
  function Scan(lex: Lexer, args: seq<string>, k: nat): (r: Reading)
    requires k <= |args|
    ensures k <= r.stop <= |args|
    decreases |args| - k
  {
    if k == |args| || (IsNonOption(args[k]) && lex.mode == Stopping) then Reading([], [], k, [])
    else if IsNonOption(args[k]) then
      if lex.mode == InOrder then Scan(lex, args, k + 1).After([args[k]], [], [Argument(args[k])])
      else Scan(lex, args, k + 1).After([], [args[k]], [])
    else
      var (n, reports, ends) := lex.of(args, k);
      var next := if 1 <= n <= |args| - k then k + n else k + 1;
      (if ends then Reading([], [], next, []) else Scan(lex, args, next)).After(args[k..next], [], reports)
  }

  // Options first, then non-options, then what stands behind "--".
  function Permuted(lex: Lexer, args: seq<string>, k: nat): seq<string>
    requires k <= |args|
  {
    var r := Scan(lex, args, k);
    args[..k] + r.opts + r.nons + args[r.stop..]
  }

  // posix is whether POSIXLY_CORRECT is set.
  datatype Syntax = Syntax(options: string, longs: seq<LongOption>, posix: bool)
  {
    predicate IgnoreFirst() { options != "" && (options[0] == '-' || options[0] == '+') }

    function Mode(): Mode
    {
      if posix then Stopping
      else if !IgnoreFirst() then Permuting
      else if options[0] == '-' then InOrder
      else Stopping
    }

    function Letters(): string { if IgnoreFirst() then options[1..] else options }

    // How many arguments the option at k takes, itself included.
    function Span(args: seq<string>, k: nat): (n: nat)
      requires k < |args| && !IsNonOption(args[k])
      ensures 1 <= n && k + n <= |args|
    {
      if args[k][1] == '-' then LongStep(args[k][2..], longs, args[k + 1..]).1
      else ClusterSpan(args[k][1..], Letters(), longs, args[k + 1..])
    }

    function Reports(args: seq<string>, k: nat): seq<Report>
      requires k < |args| && !IsNonOption(args[k])
    {
      if args[k][1] == '-' then Alone(LongStep(args[k][2..], longs, args[k + 1..]).0)
      else ClusterReports(args[k][1..], Letters(), longs, args[k + 1..])
    }

    predicate Ends(args: seq<string>, k: nat)
      requires k < |args| && !IsNonOption(args[k])
    {
      if args[k][1] == '-' then args[k] == "--"
      else ClusterEnds(args[k][1..], Letters(), longs, args[k + 1..])
    }

    function Option(args: seq<string>, k: nat): (nat, seq<Report>, bool)
    {
      if k < |args| && !IsNonOption(args[k]) then (Span(args, k), Reports(args, k), Ends(args, k)) else (1, [], false)
    }

    // What the scan needs to know about the option at k.
    function Lex(): Lexer
    {
      Lexer(Mode(), (args: seq<string>, k: nat) => Option(args, k))
    }
  }

  ghost predicate Keeps(args: seq<string>, k: nat, r: Reading)
  {
    k <= r.stop <= |args| && multiset(r.opts) + multiset(r.nons) == multiset(args[k..r.stop])
  }

  lemma PieceKeeps(args: seq<string>, k: nat, next: nat, r: Reading, r': Reading, reports: seq<Report>)
    requires k <= next <= |args| && Keeps(args, next, r)
    requires r' == r.After(args[k..next], [], reports) || r' == r.After([], args[k..next], reports)
    ensures Keeps(args, k, r')
  {
    var a := args[k..next];
    assert args[k..r.stop] == a + args[next..r.stop];
    assert [] + r.nons == r.nons && [] + r.opts == r.opts;
    if r'.opts == a + r.opts && r'.nons == r.nons {
      assert multiset(r'.opts) == multiset(a) + multiset(r.opts);
    } else {
      assert multiset(r'.nons) == multiset(a) + multiset(r.nons);
    }
  }

  lemma NothingKeeps(args: seq<string>, k: nat)
    requires k <= |args|
    ensures Keeps(args, k, Reading([], [], k, []))
  {
  }

  // One unfolding of the scan: a piece, and behind it the rest or nothing.
  lemma ScanStep(lex: Lexer, args: seq<string>, k: nat) returns (next: nat, rest: Reading, reports: seq<Report>)
    requires k < |args| && !(IsNonOption(args[k]) && lex.mode == Stopping)
    ensures k < next <= |args| && (rest == Scan(lex, args, next) || rest == Reading([], [], next, []))
    ensures var r := Scan(lex, args, k);
      r == rest.After(args[k..next], [], reports)
      || (r == rest.After([], args[k..next], reports) && IsNonOption(args[k]) && next == k + 1 && lex.mode == Permuting)
  {
    if IsNonOption(args[k]) {
      next, rest, reports := k + 1, Scan(lex, args, k + 1), if lex.mode == InOrder then [Argument(args[k])] else [];
      assert args[k..next] == [args[k]];
    } else {
      var (n, out, ends) := lex.of(args, k);
      next, reports := if 1 <= n <= |args| - k then k + n else k + 1, out;
      rest := if ends then Reading([], [], next, []) else Scan(lex, args, next);
    }
  }

  // Nothing is lost or doubled between the options and the non-options.
  lemma {:induction false} PermutedIsPermutation(lex: Lexer, args: seq<string>, k: nat)
    requires k <= |args|
    ensures Keeps(args, k, Scan(lex, args, k))
    decreases |args| - k
  {
    if k == |args| || (IsNonOption(args[k]) && lex.mode == Stopping) {
      NothingKeeps(args, k);
    } else {
      var next, rest, reports := ScanStep(lex, args, k);
      PermutedIsPermutation(lex, args, next);
      NothingKeeps(args, next);
      PieceKeeps(args, k, next, rest, Scan(lex, args, k), reports);
    }
  }

  // Only when they are moved are there non-options apart from the options.
  lemma {:induction false} NonOptsAreNonOptions(lex: Lexer, args: seq<string>, k: nat)
    requires k <= |args|
    ensures forall i :: 0 <= i < |Scan(lex, args, k).nons| ==> IsNonOption(Scan(lex, args, k).nons[i])
    ensures lex.mode != Permuting ==> Scan(lex, args, k).nons == []
    decreases |args| - k
  {
    if k < |args| && !(IsNonOption(args[k]) && lex.mode == Stopping) {
      var next, rest, reports := ScanStep(lex, args, k);
      NonOptsAreNonOptions(lex, args, next);
      assert args[k..next][0] == args[k];
    }
  }

  predicate Subsequence(a: seq<string>, s: seq<string>)
    decreases |s|
  {
    a == [] || (s != [] && (Subsequence(a, s[1..]) || (a[0] == s[0] && Subsequence(a[1..], s[1..]))))
  }

  lemma {:induction false} SubsequencePiece(piece: seq<string>, a: seq<string>, s: seq<string>)
    requires Subsequence(a, s)
    ensures Subsequence(piece + a, piece + s) && Subsequence(a, piece + s)
    decreases |piece|
  {
    if piece == [] {
      assert piece + a == a && piece + s == s;
    } else {
      SubsequencePiece(piece[1..], a, s);
      assert (piece + a)[1..] == piece[1..] + a && (piece + s)[1..] == piece[1..] + s;
    }
  }

  // The options keep their order, and so do the non-options.
  lemma {:induction false} PermutedIsStable(lex: Lexer, args: seq<string>, k: nat)
    requires k <= |args|
    ensures var r := Scan(lex, args, k); Subsequence(r.opts, args[k..r.stop]) && Subsequence(r.nons, args[k..r.stop])
    decreases |args| - k
  {
    var r := Scan(lex, args, k);
    if k < |args| && !(IsNonOption(args[k]) && lex.mode == Stopping) {
      var next, rest, reports := ScanStep(lex, args, k);
      PermutedIsStable(lex, args, next);
      SubsequencePiece(args[k..next], rest.opts, args[next..r.stop]);
      SubsequencePiece(args[k..next], rest.nons, args[next..r.stop]);
      assert args[k..r.stop] == args[k..next] + args[next..r.stop];
      assert [] + rest.nons == rest.nons && [] + rest.opts == rest.opts;
    }
  }

  // The whole answer: a permutation, with the non-options in one stretch
  // directly behind the options and in front of what "--" cut off.
  lemma PermutedShape(lex: Lexer, args: seq<string>, first: nat)
    requires first <= |args|
    ensures var r, out := Scan(lex, args, first), Permuted(lex, args, first);
      var optind := first + |r.opts|;
      && multiset(out) == multiset(args) && |out| == |args|
      && optind + |r.nons| == r.stop <= |args|
      && out[..first] == args[..first] && out[r.stop..] == args[r.stop..]
      && (forall i :: optind <= i < r.stop ==> IsNonOption(out[i]))
  {
    var r, out := Scan(lex, args, first), Permuted(lex, args, first);
    PermutedIsPermutation(lex, args, first);
    NonOptsAreNonOptions(lex, args, first);
    SameSize(r.opts, r.nons, args[first..r.stop]);
    SamePieces(args, first, r.stop, r.opts + r.nons);
    assert out == args[..first] + (r.opts + r.nons) + args[r.stop..];
    forall i | first + |r.opts| <= i < r.stop ensures IsNonOption(out[i]) {
      assert out[i] == r.nons[i - first - |r.opts|];
    }
  }

  lemma SameSize(a: seq<string>, b: seq<string>, c: seq<string>)
    requires multiset(a) + multiset(b) == multiset(c)
    ensures |a| + |b| == |c| && multiset(a + b) == multiset(c)
  {
    assert |multiset(a) + multiset(b)| == |multiset(c)|;
  }

  lemma SamePieces(s: seq<string>, i: nat, j: nat, mid: seq<string>)
    requires i <= j <= |s| && multiset(mid) == multiset(s[i..j])
    ensures multiset(s[..i] + mid + s[j..]) == multiset(s)
  {
    assert s == s[..i] + s[i..j] + s[j..];
  }

  // ----- the vector while it is being permuted -----

  // The original vector, where the scan began, the stretches behind it (options,
  // skipped non-options, options), and the reports of the options read.
  datatype Progress = Progress(orig: seq<string>, first: nat, opts1: seq<string>, nons: seq<string>, opts2: seq<string>,
                               reported: seq<Report>)
  {
    // The vector when everything before k is read.
    ghost function Vector(k: nat): seq<string>
      requires first <= k <= |orig|
    {
      orig[..first] + opts1 + nons + opts2 + orig[k..]
    }

    // What is read so far, followed by the rest.
    ghost function Whole(rest: Reading): Reading
    {
      rest.After(opts1 + opts2, nons, reported)
    }

    // What nonopt_start and nonopt_end say about the stretches.
    ghost predicate Marked(nonoptStart: int, nonoptEnd: int)
    {
      && (if nonoptStart == -1 then nons == [] && opts2 == [] && nonoptEnd == -1
          else nons != [] && nonoptStart == first + |opts1|)
      && (if nonoptEnd == -1 then opts2 == [] else nonoptEnd == nonoptStart + |nons|)
    }
  }

  ghost predicate Arranged(lex: Lexer, args: seq<string>, k: nat, p: Progress, nonoptStart: int, nonoptEnd: int)
  {
    && p.first <= k <= |p.orig| == |args| && args == p.Vector(k)
    && p.Whole(Scan(lex, p.orig, k)) == Scan(lex, p.orig, p.first)
    && p.Marked(nonoptStart, nonoptEnd)
  }

  // Between two arguments the last stretch of options is not empty once the
  // skipped stretch has been closed.
  ghost predicate Between(lex: Lexer, args: seq<string>, k: nat, p: Progress, nonoptStart: int, nonoptEnd: int)
  {
    Arranged(lex, args, k, p, nonoptStart, nonoptEnd) && (nonoptEnd != -1 ==> p.opts2 != [])
  }

  lemma ScanBegins(lex: Lexer, args: seq<string>, first: nat)
    requires first <= |args|
    ensures Between(lex, args, first, Progress(args, first, [], [], [], []), -1, -1)
  {
  }

  // Arguments not read yet are where they were.
  lemma ArgumentUnread(p: Progress, args: seq<string>, k: nat, i: nat)
    requires p.first <= k <= i < |p.orig| == |args| && args == p.Vector(k)
    ensures args[i] == p.orig[i]
  {
    assert |args| == |p.Vector(k)|;
  }

  lemma ReadNonOption(lex: Lexer, args: seq<string>, k: nat, p: Progress, ns: int)
    requires Between(lex, args, k, p, ns, -1) && k < |args| && IsNonOption(args[k]) && lex.mode == Permuting
    ensures var p' := p.(nons := p.nons + [args[k]]);
      Between(lex, args, k + 1, p', if ns == -1 then k else ns, -1)
  {
    ArgumentUnread(p, args, k, k);
    NonOptionScan(lex, p.orig, k);
    NonOptionRead(p, k, p.orig[k], Scan(lex, p.orig, k + 1));
  }

  lemma NonOptionScan(lex: Lexer, args: seq<string>, k: nat)
    requires k < |args| && IsNonOption(args[k]) && lex.mode == Permuting
    ensures Scan(lex, args, k) == Scan(lex, args, k + 1).After([], [args[k]], [])
  {
  }

  lemma NonOptionRead(p: Progress, k: nat, a: string, rest: Reading)
    requires p.first <= k < |p.orig| && a == p.orig[k] && p.opts2 == []
    ensures var p' := p.(nons := p.nons + [a]);
      p.Vector(k) == p'.Vector(k + 1) && |p.Vector(k)| == |p'.Vector(k + 1)|
      && p.Whole(rest.After([], [a], [])) == p'.Whole(rest)
  {
    assert p.orig[k..] == [a] + p.orig[k + 1..];
    assert p.nons + ([a] + rest.nons) == (p.nons + [a]) + rest.nons;
  }

  lemma ExchangedParts(head: seq<string>, a: seq<string>, b: seq<string>, tail: seq<string>)
    ensures var s := |head|;
      Exchanged(head + a + b + tail, s, s + |a|, s + |a| + |b|) == head + b + a + tail
  {
    var whole, s := head + a + b + tail, |head|;
    var e, o := s + |a|, s + |a| + |b|;
    assert whole[..s] == head && whole[s..e] == a && whole[e..o] == b && whole[o..] == tail;
  }

  // Reading a piece of options lengthens the stretch that is open.
  ghost function WithOption(p: Progress, ns: int, piece: seq<string>, reports: seq<Report>): Progress
  {
    if ns == -1 then p.(opts1 := p.opts1 + piece, reported := p.reported + reports)
    else p.(opts2 := p.opts2 + piece, reported := p.reported + reports)
  }

  lemma OptionRead(p: Progress, ns: int, k: nat, n: nat, reports: seq<Report>, rest: Reading)
    requires p.first <= k && k + n <= |p.orig| && (ns == -1 ==> p.nons == [] && p.opts2 == [])
    ensures var piece := p.orig[k..k + n];
      var p' := WithOption(p, ns, piece, reports);
      && p.Vector(k) == p'.Vector(k + n)
      && p.Whole(rest.After(piece, [], reports)) == p'.Whole(rest)
  {
    assert p.orig[k..] == p.orig[k..k + n] + p.orig[k + n..];
  }

  // The skipped stretch moves behind the options read since.
  lemma VectorExchanges(p: Progress, ns: nat, ne: nat, k: nat)
    requires p.first <= k <= |p.orig| && ns == p.first + |p.opts1| && ne == ns + |p.nons| && k == ne + |p.opts2|
    ensures k <= |p.Vector(k)|
    ensures Exchanged(p.Vector(k), ns, ne, k) == p.orig[..p.first] + (p.opts1 + p.opts2) + p.nons + p.orig[k..]
  {
    ExchangedParts(p.orig[..p.first] + p.opts1, p.nons, p.opts2, p.orig[k..]);
  }

  lemma Exchange(lex: Lexer, args: seq<string>, k: nat, p: Progress, ns: int, ne: int)
    requires Between(lex, args, k, p, ns, ne) && ne != -1
    ensures 0 <= ns < ne < k <= |args|
    ensures var p' := p.(opts1 := p.opts1 + p.opts2, opts2 := []);
      Between(lex, Exchanged(args, ns, ne, k), k, p', k - (ne - ns), -1)
  {
    assert |args| == |p.Vector(k)|;
    VectorExchanges(p, ns, ne, k);
    JoinedStretches(p, Scan(lex, p.orig, k));
  }

  lemma JoinedStretches(p: Progress, rest: Reading)
    ensures p.(opts1 := p.opts1 + p.opts2, opts2 := []).Whole(rest) == p.Whole(rest)
  {
    assert p.opts1 + p.opts2 + [] == p.opts1 + p.opts2;
  }

  lemma ReadOption(lex: Lexer, args: seq<string>, k: nat, p: Progress, ns: int, ne: int, n: nat, reports: seq<Report>)
    requires Arranged(lex, args, k, p, ns, ne) && k < |args| && (ns != -1 ==> ne != -1)
    requires !IsNonOption(p.orig[k]) && lex.of(p.orig, k) == (n, reports, false) && 1 <= n && k + n <= |args|
    ensures Between(lex, args, k + n, WithOption(p, ns, p.orig[k..k + n], reports), ns, ne)
  {
    OptionRead(p, ns, k, n, reports, Scan(lex, p.orig, k + n));
  }

  // A non-option reported in its place is read like an option.
  lemma ReadArgument(lex: Lexer, args: seq<string>, k: nat, p: Progress)
    requires Between(lex, args, k, p, -1, -1) && k < |args| && IsNonOption(args[k]) && lex.mode == InOrder
    ensures Between(lex, args, k + 1, WithOption(p, -1, p.orig[k..k + 1], [Argument(args[k])]), -1, -1)
  {
    ArgumentUnread(p, args, k, k);
    assert p.orig[k..k + 1] == [p.orig[k]];
    OptionRead(p, -1, k, 1, [Argument(args[k])], Scan(lex, p.orig, k + 1));
  }

  // Without permutation nothing is ever skipped.
  lemma NeverSkips(lex: Lexer, args: seq<string>, k: nat, p: Progress, ns: int, ne: int)
    requires Arranged(lex, args, k, p, ns, ne) && lex.mode != Permuting
    ensures p.nons == [] && ns == -1 && ne == -1
  {
    NonOptsAreNonOptions(lex, p.orig, p.first);
    assert p.Whole(Scan(lex, p.orig, k)).nons == p.nons + Scan(lex, p.orig, k).nons;
    assert |p.nons + Scan(lex, p.orig, k).nons| == 0;
  }

  // A non-option that ends the scan.
  lemma ScanStops(lex: Lexer, args: seq<string>, k: nat, p: Progress, ns: int, ne: int)
    requires Between(lex, args, k, p, ns, ne) && k < |args| && IsNonOption(args[k]) && lex.mode == Stopping
    ensures args == Permuted(lex, p.orig, p.first) && k == p.first + |Scan(lex, p.orig, p.first).opts|
    ensures p.reported == Scan(lex, p.orig, p.first).reports
  {
    NeverSkips(lex, args, k, p, ns, ne);
    ArgumentUnread(p, args, k, k);
    NothingAfter(p, k);
    NothingSkipped(p, k);
    assert |args| == |p.Vector(k)|;
  }

  // Nothing left to read: the stretches are the whole answer.
  lemma ScanEnds(lex: Lexer, args: seq<string>, k: nat, p: Progress, ns: int)
    requires Between(lex, args, k, p, ns, -1) && k == |args|
    ensures args == Permuted(lex, p.orig, p.first)
    ensures p.first + |Scan(lex, p.orig, p.first).opts| == if ns == -1 then k else ns
    ensures p.reported == Scan(lex, p.orig, p.first).reports
  {
    assert |args| == |p.Vector(k)|;
  }

  // Everything before e is read, and the vector is permuted once the skipped
  // stretch moves up to there.
  ghost predicate EndsAt(lex: Lexer, args: seq<string>, e: nat, p: Progress, ns: int, ne: int, reported: seq<Report>)
  {
    && p.first <= |p.orig| && e <= |args| && (ne != -1 ==> 0 <= ns < ne < e)
    && (if ne != -1 then Exchanged(args, ns, ne, e) else args) == Permuted(lex, p.orig, p.first)
    && p.first + |Scan(lex, p.orig, p.first).opts| == (if ne != -1 then e - (ne - ns) else e)
    && reported == Scan(lex, p.orig, p.first).reports
  }

  // An option that ends the reading stays with the options.
  lemma LastOptionEnds(lex: Lexer, args: seq<string>, k: nat, p: Progress, ns: int, ne: int, reports: seq<Report>,
                       e: nat, reported: seq<Report>)
    requires Arranged(lex, args, k, p, ns, ne) && k < |args| && !IsNonOption(p.orig[k]) && (ns != -1 ==> ne != -1)
    requires lex.of(p.orig, k) == (e - k, reports, true) && k < e <= |args| && reported == p.reported + reports
    ensures EndsAt(lex, args, e, p, ns, ne, reported)
  {
    LastOptionRead(lex, args, k, p, ns, ne, e - k, reports);
    assert p.Marked(ns, ne);
    ReadingEnds(lex, args, e, p, WithOption(p, ns, p.orig[k..e], reports), ns, ne);
  }

  lemma ReadingEnds(lex: Lexer, args: seq<string>, e: nat, p: Progress, p': Progress, ns: int, ne: int)
    requires p.first <= e <= |args| == |p.orig| && p'.orig == p.orig && p'.first == p.first
    requires args == p'.Vector(e) && |args| == |p'.Vector(e)|
    requires Scan(lex, p.orig, p.first) == Reading(p'.opts1 + p'.opts2, p'.nons, e, p'.reported)
    requires if ne == -1 then p'.nons == [] else ns == p.first + |p'.opts1| && ne == ns + |p'.nons| && p'.nons != []
    requires ne != -1 ==> p'.opts2 != []
    ensures EndsAt(lex, args, e, p, ns, ne, p'.reported)
  {
    if ne != -1 {
      VectorExchanges(p', ns, ne, e);
    } else {
      NothingSkipped(p', e);
    }
  }

  lemma NothingSkipped(p: Progress, k: nat)
    requires p.first <= k <= |p.orig| && p.nons == []
    ensures p.Vector(k) == p.orig[..p.first] + (p.opts1 + p.opts2) + p.nons + p.orig[k..]
  {
  }

  lemma LastOptionRead(lex: Lexer, args: seq<string>, k: nat, p: Progress, ns: int, ne: int, n: nat,
                       reports: seq<Report>)
    requires Arranged(lex, args, k, p, ns, ne) && k < |args| && !IsNonOption(p.orig[k]) && (ns != -1 ==> ne != -1)
    requires lex.of(p.orig, k) == (n, reports, true) && 1 <= n && k + n <= |args|
    ensures var p' := WithOption(p, ns, p.orig[k..k + n], reports);
      && args == p'.Vector(k + n) && |args| == |p'.Vector(k + n)|
      && Scan(lex, p.orig, p.first) == Reading(p'.opts1 + p'.opts2, p.nons, k + n, p'.reported)
  {
    LastOptionScan(lex, p.orig, k, n, reports);
    LastOptionTaken(p, ns, k, n, reports, Scan(lex, p.orig, k));
  }

  lemma LastOptionTaken(p: Progress, ns: int, k: nat, n: nat, reports: seq<Report>, r: Reading)
    requires p.first <= k && k + n <= |p.orig| && (ns == -1 ==> p.nons == [] && p.opts2 == [])
    requires r == Reading([], [], k + n, []).After(p.orig[k..k + n], [], reports)
    ensures var p' := WithOption(p, ns, p.orig[k..k + n], reports);
      p.Vector(k) == p'.Vector(k + n) && p.Whole(r) == Reading(p'.opts1 + p'.opts2, p.nons, k + n, p'.reported)
  {
    OptionRead(p, ns, k, n, reports, Reading([], [], k + n, []));
    NothingAfter(WithOption(p, ns, p.orig[k..k + n], reports), k + n);
  }

  lemma LastOptionScan(lex: Lexer, args: seq<string>, k: nat, n: nat, reports: seq<Report>)
    requires k < |args| && !IsNonOption(args[k]) && lex.of(args, k) == (n, reports, true) && 1 <= n && k + n <= |args|
    ensures Scan(lex, args, k) == Reading([], [], k + n, []).After(args[k..k + n], [], reports)
  {
  }

  lemma NothingAfter(p: Progress, e: nat)
    ensures p.Whole(Reading([], [], e, [])) == Reading(p.opts1 + p.opts2, p.nons, e, p.reported)
  {
  }
}
