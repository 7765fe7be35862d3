/** Command lines as they are written: what is asked for is what is read. */
module GetoptWritten {
  import opened Getopt
  import opened GetoptScanner
  import opened Wrappers

  // What getopt_long is called with: the sign in front of the option letters,
  // '+', '-' or none, the letters behind it, the long options, and whether
  // POSIXLY_CORRECT is set.
  datatype Setting = Setting(sign: string, letters: string, longs: seq<LongOption>, posix: bool)
  {
    // Without a sign the letters do not begin like one.
    predicate Valid()
    {
      sign == "+" || sign == "-" || (sign == "" && (letters == "" || (letters[0] != '+' && letters[0] != '-')))
    }

    function Syntax(): Getopt.Syntax { Getopt.Syntax.Syntax(sign + letters, longs, posix) }

    // The scan stops at the first other word.
    predicate Stops() { posix || sign == "+" }

    // Other words are reported in their place.
    predicate InPlace() { !posix && sign == "-" }

    // Other words are moved behind the options.
    predicate Moves() { !posix && sign == "" }
  }

  lemma SettingRead(w: Setting)
    requires w.Valid()
    ensures w.Syntax().Letters() == w.letters && w.Syntax().longs == w.longs
    ensures w.Syntax().Mode() == if w.Stops() then Stopping else if w.InPlace() then InOrder else Permuting
  {
    assert w.sign != "" ==> (w.sign + w.letters)[0] == w.sign[0] && (w.sign + w.letters)[1..] == w.letters;
    assert w.sign == "" ==> w.sign + w.letters == w.letters;
  }

  // A long option as it is typed, in full, abbreviated or wrong, with its
  // argument, joined by '=' or in the next word.
  datatype Name = Name(index: Option<nat>, typed: string, arg: Option<string>, joined: bool)

  // What may end a group of letters: nothing, a letter with its argument in the
  // same word or in the next or without one, or a W with a long option,
  // likewise.
  datatype Last = Nothing | Joined(c: char, arg: string) | Separate(c: char, arg: string) | Bare(c: char)
                | Spelled(name: Name, sameWord: bool) | Dangling

  datatype Item = Plain(text: string) | Group(flags: string, last: Last) | Named(name: Name)

  // What stands behind a letter in the list of letters.
  function Behind(c: char, letters: string): string
    requires c in letters
  {
    letters[IndexOf(letters, c) + 1..]
  }

  predicate Listed(c: char, letters: string) { c != ':' && c in letters }

  predicate TakesSome(c: char, letters: string) { Listed(c, letters) && ":" <= Behind(c, letters) }

  // The argument may be left out.
  predicate Optional(c: char, letters: string) { Listed(c, letters) && "::" <= Behind(c, letters) }

  // "W;" in the list.
  predicate HasSpelled(letters: string) { 'W' in letters && ";" <= Behind('W', letters) }

  predicate TakesNone(c: char, letters: string)
  {
    Listed(c, letters) && !TakesSome(c, letters) && !(c == 'W' && HasSpelled(letters))
  }

  // What is typed is without '=', and found in the table or not.
  predicate LegalName(n: Name, longs: seq<LongOption>)
  {
    && '=' !in n.typed && (n.typed == "" ==> n.arg.Some?)
    && (n.arg.Some? && !n.joined ==> n.typed != "" && n.index.Some?)
    && match n.index
       case None => forall i :: 0 <= i < |longs| ==> !Types(n.typed, longs, i)
       case Some(i) =>
         && i < |longs| && Types(n.typed, longs, i)
         && (n.arg.Some? && !n.joined ==> longs[i].hasArg.RequiredArgument?)
  }

  // The required argument is missing.
  predicate NameLacks(n: Name, longs: seq<LongOption>)
    requires LegalName(n, longs)
  {
    n.index.Some? && longs[n.index.value].hasArg.RequiredArgument? && n.arg.None?
  }

  function NameReport(n: Name, longs: seq<LongOption>): Report
    requires LegalName(n, longs)
  {
    if n.index.None? then BadOption
    else if NameLacks(n, longs) || (longs[n.index.value].hasArg.NoArgument? && n.arg.Some?) then BadArgument
    else Long(n.index.value, n.arg)
  }

  // The name with a joined argument, and the words behind it.
  function NameText(n: Name): string
  {
    n.typed + if n.arg.Some? && n.joined then "=" + n.arg.value else ""
  }

  function NextWords(n: Name): seq<string> { if n.arg.Some? && !n.joined then [n.arg.value] else [] }

  predicate LegalLast(last: Last, w: Setting)
  {
    match last
    case Nothing => true
    case Joined(c, arg) => TakesSome(c, w.letters) && arg != ""
    case Separate(c, arg) => TakesSome(c, w.letters) && !Optional(c, w.letters)
    case Bare(c) => TakesSome(c, w.letters)
    case Spelled(name, _) => HasSpelled(w.letters) && LegalName(name, w.longs)
    case Dangling => HasSpelled(w.letters)
  }

  // An argument is missing, which only the end of the line makes so.
  predicate LastLacks(last: Last, w: Setting)
    requires LegalLast(last, w)
  {
    match last
    case Bare(c) => !Optional(c, w.letters)
    case Spelled(name, _) => NameLacks(name, w.longs)
    case Dangling => true
    case _ => false
  }

  // The letters of the last option in the first word, and the words behind.
  function LastLetters(last: Last): string
  {
    match last
    case Nothing => ""
    case Joined(c, arg) => [c] + arg
    case Separate(c, _) => [c]
    case Bare(c) => [c]
    case Spelled(name, same) => "W" + if same then NameText(name) else ""
    case Dangling => "W"
  }

  function LastWords(last: Last): seq<string>
  {
    match last
    case Separate(_, arg) => [arg]
    case Spelled(name, same) => (if same then [] else [NameText(name)]) + NextWords(name)
    case _ => []
  }

  function LastReports(last: Last, w: Setting): seq<Report>
    requires LegalLast(last, w)
  {
    match last
    case Nothing => []
    case Joined(c, arg) => [Letter(c, Some(arg))]
    case Separate(c, arg) => [Letter(c, Some(arg))]
    case Bare(c) => [if Optional(c, w.letters) then Letter(c, None) else BadArgument]
    case Spelled(name, _) => [NameReport(name, w.longs)]
    case Dangling => [BadArgument]
  }

  // A letter without an argument, or one that is not in the list.
  predicate Flag(c: char, letters: string) { TakesNone(c, letters) || !Listed(c, letters) }

  function FlagReport(c: char, letters: string): Report
  {
    if Listed(c, letters) then Letter(c, None) else BadOption
  }

  function FlagReports(flags: string, letters: string): seq<Report>
  {
    if flags == "" then [] else [FlagReport(flags[0], letters)] + FlagReports(flags[1..], letters)
  }

  predicate LegalGroup(flags: string, last: Last, w: Setting)
  {
    && (forall i :: 0 <= i < |flags| ==> Flag(flags[i], w.letters)) && LegalLast(last, w)
    && var text := flags + LastLetters(last); text != "" && text[0] != '-'
  }

  // Where the scan stops at other words, there is none among the items.
  predicate Legal(it: Item, w: Setting)
  {
    match it
    case Plain(text) => (text == "" || text[0] != '-' || text == "-") && !w.Stops()
    case Group(flags, last) => LegalGroup(flags, last, w)
    case Named(name) => LegalName(name, w.longs)
  }

  predicate Lacks(it: Item, w: Setting)
    requires Legal(it, w)
  {
    match it
    case Plain(_) => false
    case Group(_, last) => LastLacks(last, w)
    case Named(name) => NameLacks(name, w.longs)
  }

  function Written(it: Item): (words: seq<string>)
    ensures 1 <= |words| <= 3
  {
    match it
    case Plain(text) => [text]
    case Group(flags, last) => ["-" + (flags + LastLetters(last))] + LastWords(last)
    case Named(name) => ["--" + NameText(name)] + NextWords(name)
  }

  function Meaning(it: Item, w: Setting): seq<Report>
    requires Legal(it, w)
  {
    match it
    case Plain(text) => if w.InPlace() then [Argument(text)] else []
    case Group(flags, last) => FlagReports(flags, w.letters) + LastReports(last, w)
    case Named(name) => [NameReport(name, w.longs)]
  }

  // ----- one item -----

  // The same in terms of places in the list.
  lemma LetterKinds(c: char, letters: string)
    ensures var i := IndexOf(letters, c);
      && (Listed(c, letters) <==> c != ':' && i < |letters|)
      && (TakesSome(c, letters) <==> c != ':' && i + 1 < |letters| && letters[i + 1] == ':')
      && (Optional(c, letters) <==> TakesSome(c, letters) && i + 2 < |letters| && letters[i + 2] == ':')
    ensures var i := IndexOf(letters, 'W');
      HasSpelled(letters) <==> i < |letters| && StandsForLong(letters, i)
  {
    IsListed(c, letters);
    IsListed('W', letters);
    var i, w := IndexOf(letters, c), IndexOf(letters, 'W');
    if i < |letters| { Begins(letters, i + 1); }
    if w < |letters| { Begins(letters, w + 1); }
  }

  lemma IsListed(c: char, letters: string)
    ensures c in letters <==> IndexOf(letters, c) < |letters|
  {
    var i := IndexOf(letters, c);
    if i == |letters| { assert letters[..i] == letters; }
  }

  lemma Begins(letters: string, k: nat)
    requires k <= |letters|
    ensures ":" <= letters[k..] <==> k < |letters| && letters[k] == ':'
    ensures ";" <= letters[k..] <==> k < |letters| && letters[k] == ';'
    ensures "::" <= letters[k..] <==> k + 1 < |letters| && letters[k] == ':' && letters[k + 1] == ':'
  {
  }

  lemma {:induction false} FlagsRead(flags: string, tail: string, options: string, longs: seq<LongOption>,
                                     after: seq<string>)
    requires (forall i :: 0 <= i < |flags| ==> Flag(flags[i], options)) && flags + tail != ""
    ensures ClusterReports(flags + tail, options, longs, after)
         == FlagReports(flags, options) + if tail == "" then [] else ClusterReports(tail, options, longs, after)
    decreases |flags|
  {
    if flags == "" {
      assert flags + tail == tail;
    } else {
      FlagInFront(flags, tail);
      FlagFirst(flags + tail, flags[1..] + tail, options, longs, after);
      if flags[1..] + tail != "" { FlagsRead(flags[1..], tail, options, longs, after); }
      Associates([FlagReport(flags[0], options)], FlagReports(flags[1..], options),
                 if tail == "" then [] else ClusterReports(tail, options, longs, after));
    }
  }

  lemma Associates(a: seq<Report>, b: seq<Report>, c: seq<Report>)
    ensures a + (b + c) == (a + b) + c
  {
  }

  lemma {:induction false} FlagsTakeNone(flags: string, tail: string, options: string, longs: seq<LongOption>,
                                         after: seq<string>)
    requires (forall i :: 0 <= i < |flags| ==> Flag(flags[i], options)) && flags + tail != ""
    ensures ClusterSpan(flags + tail, options, longs, after)
         == if tail == "" then 1 else ClusterSpan(tail, options, longs, after)
    ensures ClusterEnds(flags + tail, options, longs, after)
         == (tail != "" && ClusterEnds(tail, options, longs, after))
    decreases |flags|
  {
    if flags == "" {
      assert flags + tail == tail;
    } else {
      FlagInFront(flags, tail);
      FlagFirst(flags + tail, flags[1..] + tail, options, longs, after);
      if flags[1..] + tail != "" { FlagsTakeNone(flags[1..], tail, options, longs, after); }
    }
  }

  lemma FlagInFront(flags: string, tail: string)
    requires flags != ""
    ensures (flags + tail)[0] == flags[0] && (flags + tail)[1..] == flags[1..] + tail
  {
  }

  lemma FlagFirst(letters: string, rest: string, options: string, longs: seq<LongOption>, after: seq<string>)
    requires letters != "" && rest == letters[1..] && Flag(letters[0], options)
    ensures ClusterReports(letters, options, longs, after)
         == [FlagReport(letters[0], options)] + if rest == "" then [] else ClusterReports(rest, options, longs, after)
    ensures ClusterSpan(letters, options, longs, after)
         == if rest == "" then 1 else ClusterSpan(rest, options, longs, after)
    ensures ClusterEnds(letters, options, longs, after) == (rest != "" && ClusterEnds(rest, options, longs, after))
  {
    LetterKinds(letters[0], options);
    ClusterStep(letters, options, longs, after);
  }

  lemma {:induction false} NameEnds(name: string, rest: string)
    requires '=' !in name && (rest == "" || rest[0] == '=')
    ensures IndexOf(name + rest, '=') == |name|
    decreases |name|
  {
    if name != "" {
      assert (name + rest)[1..] == name[1..] + rest;
      NameEnds(name[1..], rest);
    } else {
      assert name + rest == rest;
    }
  }

  // Without its own argument, nothing is behind the name.
  lemma NameRead(n: Name, longs: seq<LongOption>, after: seq<string>)
    requires LegalName(n, longs) && NextWords(n) <= after && (NameLacks(n, longs) ==> after == [])
    ensures NameText(n) != ""
    ensures LongStep(NameText(n), longs, after) == (NameReport(n, longs), 1 + |NextWords(n)|)
  {
    var name := n.typed;
    var text, rest := NameText(n), if n.arg.Some? && n.joined then "=" + n.arg.value else "";
    NameEnds(name, rest);
    assert text[..|name|] == name && text[|name|..] == rest;
    if rest != "" { assert text[|name| + 1..] == n.arg.value; }
    NameSearched(n, longs);
  }

  lemma NameSearched(n: Name, longs: seq<LongOption>)
    requires LegalName(n, longs)
    ensures var m := Lookup(n.typed, longs, 0, NoMatch);
      if n.index.Some? then m == Found(n.index.value) else m == NoMatch || m == Ambiguous
  {
    if n.index.Some? {
      NameFound(n.typed, longs, n.index.value);
    } else {
      var m := Lookup(n.typed, longs, 0, NoMatch);
      if m.Found? { NameFound(n.typed, longs, m.index); }
    }
  }

  // The last letter of a group.
  lemma LastRead(last: Last, w: Setting, after: seq<string>)
    requires LegalLast(last, w) && !last.Nothing? && LastWords(last) <= after
    requires LastLacks(last, w) ==> |after| == |LastWords(last)|
    ensures LastLetters(last) != ""
    ensures LetterStep(LastLetters(last), w.letters, w.longs, after)
         == (LastReports(last, w)[0], "", 1 + |LastWords(last)|)
  {
    match last {
      case Joined(c, arg) =>
        ArgumentRead(c, arg, w, after);
        assert ([c] + arg)[0] == c && ([c] + arg)[1..] == arg;
      case Separate(c, arg) =>
        ArgumentRead(c, "", w, after);
      case Bare(c) =>
        ArgumentRead(c, "", w, after);
      case Spelled(name, same) =>
        SpelledRead(name, same, w, after);
      case Dangling =>
        LetterKinds('W', w.letters);
    }
  }

  // A letter with an argument, and what stands behind it in its word.
  lemma ArgumentRead(c: char, rest: string, w: Setting, after: seq<string>)
    requires TakesSome(c, w.letters)
    ensures LetterStep([c] + rest, w.letters, w.longs, after)
         == if rest != "" then (Letter(c, Some(rest)), "", 1)
            else if Optional(c, w.letters) then (Letter(c, None), "", 1)
            else if after == [] then (BadArgument, "", 1)
            else (Letter(c, Some(after[0])), "", 2)
  {
    LetterKinds(c, w.letters);
    assert ([c] + rest)[0] == c && ([c] + rest)[1..] == rest;
  }

  lemma SpelledRead(name: Name, same: bool, w: Setting, after: seq<string>)
    requires LegalLast(Spelled(name, same), w) && LastWords(Spelled(name, same)) <= after
    requires NameLacks(name, w.longs) ==> |after| == |LastWords(Spelled(name, same))|
    ensures LetterStep(LastLetters(Spelled(name, same)), w.letters, w.longs, after)
         == (NameReport(name, w.longs), "", 1 + |LastWords(Spelled(name, same))|)
  {
    var text := NameText(name);
    LetterKinds('W', w.letters);
    assert ("W" + text)[1..] == text;
    if same {
      NameRead(name, w.longs, after);
    } else {
      assert after[0] == text && NextWords(name) <= after[1..];
      NameRead(name, w.longs, after[1..]);
    }
  }

  lemma GroupRead(flags: string, last: Last, w: Setting, after: seq<string>)
    requires LegalGroup(flags, last, w) && LastWords(last) <= after
    requires LastLacks(last, w) ==> |after| == |LastWords(last)|
    ensures var letters := flags + LastLetters(last);
      && ClusterReports(letters, w.letters, w.longs, after) == FlagReports(flags, w.letters) + LastReports(last, w)
      && ClusterSpan(letters, w.letters, w.longs, after) == 1 + |LastWords(last)|
      && !ClusterEnds(letters, w.letters, w.longs, after)
  {
    FlagsRead(flags, LastLetters(last), w.letters, w.longs, after);
    FlagsTakeNone(flags, LastLetters(last), w.letters, w.longs, after);
    if !last.Nothing? { LastCluster(last, w, after); }
  }

  lemma LastCluster(last: Last, w: Setting, after: seq<string>)
    requires LegalLast(last, w) && !last.Nothing? && LastWords(last) <= after
    requires LastLacks(last, w) ==> |after| == |LastWords(last)|
    ensures var letters := LastLetters(last);
      && letters != "" && ClusterReports(letters, w.letters, w.longs, after) == LastReports(last, w)
      && ClusterSpan(letters, w.letters, w.longs, after) == 1 + |LastWords(last)|
      && !ClusterEnds(letters, w.letters, w.longs, after)
  {
    LastRead(last, w, after);
    ClusterStep(LastLetters(last), w.letters, w.longs, after);
    assert LastReports(last, w) == [LastReports(last, w)[0]];
  }

  // Where an option is written, it is read: as many words, and its reports.
  lemma OptionRead(w: Setting, it: Item, args: seq<string>, k: nat)
    requires w.Valid() && !it.Plain? && Legal(it, w) && k + |Written(it)| <= |args|
    requires args[k..k + |Written(it)|] == Written(it) && (Lacks(it, w) ==> k + |Written(it)| == |args|)
    ensures var s := w.Syntax();
      && !IsNonOption(args[k]) && !s.Ends(args, k)
      && s.Span(args, k) == |Written(it)| && s.Reports(args, k) == Meaning(it, w)
  {
    var words, after := Written(it), args[k + 1..];
    SettingRead(w);
    assert args[k] == words[0] && words[1..] <= after;
    match it {
      case Group(flags, last) =>
        var letters := flags + LastLetters(last);
        assert words[0][1..] == letters && words[0][1] == letters[0] && words[1..] == LastWords(last);
        GroupRead(flags, last, w, after);
      case Named(name) =>
        var text := NameText(name);
        assert words[0][2..] == text && words[0][1] == '-' && words[1..] == NextWords(name);
        NameRead(name, w.longs, after);
    }
  }

  // ----- a whole line -----

  // An item as its words, what they report, whether they are moved, and whether
  // they have to end the line.
  datatype Piece = Piece(words: seq<string>, reports: seq<Report>, moves: bool, last: bool)

  function PieceOf(it: Item, w: Setting): Piece
    requires Legal(it, w)
  {
    Piece(Written(it), Meaning(it, w), it.Plain? && w.Moves(), Lacks(it, w))
  }

  function Pieces(items: seq<Item>, w: Setting): (ps: seq<Piece>)
    requires AllLegal(items, w)
    ensures |ps| == |items|
  {
    seq(|items|, i requires 0 <= i < |items| => PieceOf(items[i], w))
  }

  predicate AllLegal(items: seq<Item>, w: Setting) { forall i :: 0 <= i < |items| ==> Legal(items[i], w) }

  function Line(ps: seq<Piece>): seq<string>
  {
    if ps == [] then [] else ps[0].words + Line(ps[1..])
  }

  // The words that stay with the options, and those that are moved.
  function Options(ps: seq<Piece>): seq<string>
  {
    if ps == [] then [] else (if ps[0].moves then [] else ps[0].words) + Options(ps[1..])
  }

  function Moved(ps: seq<Piece>): seq<string>
  {
    if ps == [] then [] else (if ps[0].moves then ps[0].words else []) + Moved(ps[1..])
  }

  function Meanings(ps: seq<Piece>): seq<Report>
  {
    if ps == [] then [] else ps[0].reports + Meanings(ps[1..])
  }

  // Only the last of all has to end the line.
  predicate EndsRight(ps: seq<Piece>, tail: seq<string>)
  {
    forall i :: 0 <= i < |ps| && ps[i].last ==> i == |ps| - 1 && tail == []
  }

  // Whatever is behind "--" is not read, nor what is behind another word where
  // the scan stops at those.
  predicate Ends(tail: seq<string>, w: Setting)
  {
    tail == [] || tail[0] == "--"
    || (w.Stops() && (tail[0] == "" || tail[0][0] != '-' || tail[0] == "-"))
  }

  // How many words of the tail are read.
  function Read(tail: seq<string>): nat { if tail != [] && tail[0] == "--" then 1 else 0 }

  // A reading with a piece in front.
  function Before(r: Reading, p: Piece): Reading
  {
    r.After(if p.moves then [] else p.words, if p.moves then p.words else [], p.reports)
  }

  // What is to be read of a line that begins at k.
  function Meant(ps: seq<Piece>, tail: seq<string>, k: nat): Reading
  {
    Reading(Options(ps) + tail[..Read(tail)], Moved(ps), k + |Line(ps)| + Read(tail), Meanings(ps))
  }

  predicate Fits(p: Piece, args: seq<string>, k: nat)
  {
    && k + |p.words| <= |args| && args[k..k + |p.words|] == p.words
    && (p.last ==> k + |p.words| == |args|)
  }

  // A reading of args, from any place, that takes piece by piece.
  ghost predicate Follows(scan: nat -> Reading, args: seq<string>, ps: seq<Piece>)
  {
    forall i: nat, k: nat {:trigger Fits(ps[i], args, k)} :: i < |ps| && Fits(ps[i], args, k) ==>
      scan(k) == Before(scan(k + |ps[i].words|), ps[i])
  }

  lemma {:induction false} LineFollows(scan: nat -> Reading, args: seq<string>, k: nat, ps: seq<Piece>,
                                       tail: seq<string>)
    requires Follows(scan, args, ps) && EndsRight(ps, tail) && k <= |args| && args[k..] == Line(ps) + tail
    requires scan(k + |Line(ps)|) == Reading(tail[..Read(tail)], [], k + |Line(ps)| + Read(tail), [])
    ensures scan(k) == Meant(ps, tail, k)
    decreases |ps|
  {
    if ps == [] {
      assert [] + tail[..Read(tail)] == tail[..Read(tail)];
    } else {
      var p, rest := ps[0], ps[1..];
      FirstInFront(args, k, p, rest, tail);
      assert Fits(p, args, k);
      RestFollows(scan, args, ps, tail);
      LineFollows(scan, args, k + |p.words|, rest, tail);
      BehindPiece(p, rest, tail, k);
    }
  }

  lemma RestFollows(scan: nat -> Reading, args: seq<string>, ps: seq<Piece>, tail: seq<string>)
    requires ps != [] && Follows(scan, args, ps) && EndsRight(ps, tail)
    ensures Follows(scan, args, ps[1..]) && EndsRight(ps[1..], tail)
  {
    var rest := ps[1..];
    forall i: nat, k: nat | i < |rest| && Fits(rest[i], args, k)
      ensures scan(k) == Before(scan(k + |rest[i].words|), rest[i])
    {
      assert rest[i] == ps[i + 1];
    }
    forall i | 0 <= i < |rest| && rest[i].last ensures i == |rest| - 1 && tail == [] {
      assert rest[i] == ps[i + 1];
    }
  }

  lemma FirstInFront(args: seq<string>, k: nat, p: Piece, rest: seq<Piece>, tail: seq<string>)
    requires k <= |args| && args[k..] == (p.words + Line(rest)) + tail && (p.last ==> rest == [] && tail == [])
    ensures Fits(p, args, k) && args[k + |p.words|..] == Line(rest) + tail
  {
    WordsInFront(args, k, p.words, Line(rest), tail);
  }

  lemma WordsInFront(args: seq<string>, k: nat, words: seq<string>, line: seq<string>, tail: seq<string>)
    requires k <= |args| && args[k..] == (words + line) + tail
    ensures k + |words| <= |args| && (line == [] && tail == [] ==> k + |words| == |args|)
    ensures args[k..k + |words|] == words && args[k + |words|..] == line + tail
  {
    var rest := args[k..];
    assert args[k..k + |words|] == rest[..|words|] && args[k + |words|..] == rest[|words|..];
  }

  lemma BehindPiece(p: Piece, rest: seq<Piece>, tail: seq<string>, k: nat)
    ensures Before(Meant(rest, tail, k + |p.words|), p) == Meant([p] + rest, tail, k)
  {
    var opts, end := Options(rest), tail[..Read(tail)];
    assert ([p] + rest)[1..] == rest;
    assert p.words + (opts + end) == (p.words + opts) + end && [] + (opts + end) == ([] + opts) + end;
  }

  // The pieces of these items.
  ghost predicate Describes(ps: seq<Piece>, items: seq<Item>, w: Setting)
  {
    |ps| == |items| && forall i {:trigger items[i]} :: 0 <= i < |ps| ==> Describe(ps[i], items[i], w)
  }

  ghost predicate Describe(p: Piece, it: Item, w: Setting) { Legal(it, w) && p == PieceOf(it, w) }

  lemma ScanFollows(lex: Lexer, w: Setting, args: seq<string>, items: seq<Item>, ps: seq<Piece>)
    returns (scan: nat -> Reading)
    requires w.Valid() && Lexes(lex, w.Syntax()) && Describes(ps, items, w)
    ensures Follows(scan, args, ps) && forall k: nat | k <= |args| :: scan(k) == Scan(lex, args, k)
  {
    scan := (k: nat) => if k <= |args| then Scan(lex, args, k) else Reading([], [], 0, []);
    forall i: nat, k: nat | i < |ps| && Fits(ps[i], args, k)
      ensures scan(k) == Before(scan(k + |ps[i].words|), ps[i])
    {
      PieceScanned(lex, w, items, ps, i, args, k);
    }
  }

  lemma PieceScanned(lex: Lexer, w: Setting, items: seq<Item>, ps: seq<Piece>, i: nat, args: seq<string>, k: nat)
    requires w.Valid() && Lexes(lex, w.Syntax()) && Describes(ps, items, w) && i < |ps| && Fits(ps[i], args, k)
    ensures Scan(lex, args, k) == Before(Scan(lex, args, k + |ps[i].words|), ps[i])
  {
    ItemScanned(lex, w, items[i], ps[i], args, k);
  }

  lemma ItemScanned(lex: Lexer, w: Setting, it: Item, p: Piece, args: seq<string>, k: nat)
    requires w.Valid() && Lexes(lex, w.Syntax()) && Describe(p, it, w) && Fits(p, args, k)
    ensures Scan(lex, args, k) == Before(Scan(lex, args, k + |p.words|), p)
  {
    if it.Plain? {
      PlainPiece(w, it, p);
      PlainScanned(lex, it.text, p, args, k);
    } else {
      OptionLexed(lex, w, it, p, args, k);
      OptionScan(lex, args, k, p);
    }
  }

  lemma PlainPiece(w: Setting, it: Item, p: Piece)
    requires w.Valid() && it.Plain? && Describe(p, it, w)
    ensures IsNonOption(it.text) && p.words == [it.text] && w.Syntax().Mode() != Stopping
    ensures p.moves <==> w.Syntax().Mode() == Permuting
    ensures p.reports == if p.moves then [] else [Argument(it.text)]
  {
    SettingRead(w);
  }

  lemma OptionLexed(lex: Lexer, w: Setting, it: Item, p: Piece, args: seq<string>, k: nat)
    requires w.Valid() && Lexes(lex, w.Syntax()) && !it.Plain? && Describe(p, it, w) && Fits(p, args, k)
    ensures 1 <= |p.words| && !IsNonOption(args[k]) && lex.of(args, k) == (|p.words|, p.reports, false) && !p.moves
  {
    OptionRead(w, it, args, k);
    Lexed(lex, w.Syntax(), args, k);
  }

  lemma OptionScan(lex: Lexer, args: seq<string>, k: nat, p: Piece)
    requires k < |args| && !IsNonOption(args[k]) && lex.of(args, k) == (|p.words|, p.reports, false)
    requires 1 <= |p.words| && Fits(p, args, k) && !p.moves
    ensures Scan(lex, args, k) == Before(Scan(lex, args, k + |p.words|), p)
  {
  }

  lemma PlainScanned(lex: Lexer, text: string, p: Piece, args: seq<string>, k: nat)
    requires IsNonOption(text) && p.words == [text] && Fits(p, args, k) && lex.mode != Stopping
    requires (p.moves <==> lex.mode == Permuting) && p.reports == if p.moves then [] else [Argument(text)]
    ensures Scan(lex, args, k) == Before(Scan(lex, args, k + 1), p)
  {
    assert args[k] == p.words[0];
  }

  lemma NothingOnLine(lex: Lexer, w: Setting, args: seq<string>, k: nat, tail: seq<string>)
    requires w.Valid() && Lexes(lex, w.Syntax()) && Ends(tail, w)
    requires k <= |args| && args[k..] == tail
    ensures Scan(lex, args, k) == Reading(tail[..Read(tail)], [], k + Read(tail), [])
  {
    SettingRead(w);
    assert tail != [] ==> args[k] == tail[0];
    if tail == [] || tail[0] != "--" {
      ScanIsOver(lex, args, k);
    } else {
      Lexed(lex, w.Syntax(), args, k);
      LastOptionScan(lex, args, k, 1, []);
      assert args[k..k + 1] == ["--"] == tail[..1] && ["--"] + [] == ["--"];
    }
  }

  lemma ScanIsOver(lex: Lexer, args: seq<string>, k: nat)
    requires k <= |args| && (k < |args| ==> IsNonOption(args[k]) && lex.mode == Stopping)
    ensures Scan(lex, args, k) == Reading([], [], k, [])
  {
  }

  // Options and other words in any order, and perhaps "--": every option is
  // reported as it was meant, options and other words keep their order, and
  // the scan stops behind "--".
  lemma LineIsRead(lex: Lexer, w: Setting, front: seq<string>, items: seq<Item>, tail: seq<string>)
    requires w.Valid() && Lexes(lex, w.Syntax()) && Ends(tail, w)
    requires AllLegal(items, w) && EndsRight(Pieces(items, w), tail)
    ensures var ps, m := Pieces(items, w), Read(tail);
      Scan(lex, front + Line(ps) + tail, |front|)
      == Reading(Options(ps) + tail[..m], Moved(ps), |front| + |Line(ps)| + m, Meanings(ps))
  {
    var ps := Pieces(items, w);
    LineBehind(front, Line(ps), tail);
    var scan := ScanFollows(lex, w, front + Line(ps) + tail, items, ps);
    LineScanned(lex, w, scan, front + Line(ps) + tail, |front|, ps, tail);
  }

  lemma LineBehind(front: seq<string>, line: seq<string>, tail: seq<string>)
    ensures var args := front + line + tail;
      args[|front|..] == line + tail && args[|front| + |line|..] == tail
  {
  }

  lemma LineScanned(lex: Lexer, w: Setting, scan: nat -> Reading, args: seq<string>, k: nat, ps: seq<Piece>,
                    tail: seq<string>)
    requires w.Valid() && Lexes(lex, w.Syntax()) && Ends(tail, w) && EndsRight(ps, tail)
    requires Follows(scan, args, ps) && forall k: nat | k <= |args| :: scan(k) == Scan(lex, args, k)
    requires k + |Line(ps)| <= |args| && args[k..] == Line(ps) + tail && args[k + |Line(ps)|..] == tail
    ensures Scan(lex, args, k) == Meant(ps, tail, k)
  {
    NothingOnLine(lex, w, args, k + |Line(ps)|, tail);
    LineFollows(scan, args, k, ps, tail);
  }

  // And the vector that a whole run leaves: options, the other words, and what
  // stood behind "--", with optind at the first of the other words.
  lemma PermutedLine(lex: Lexer, front: seq<string>, line: seq<string>, tail: seq<string>, m: nat, opts: seq<string>,
                     nons: seq<string>, reports: seq<Report>)
    requires m <= |tail|
    requires Scan(lex, front + line + tail, |front|) == Reading(opts, nons, |front| + |line| + m, reports)
    ensures Permuted(lex, front + line + tail, |front|) == front + opts + nons + tail[m..]
  {
    var args := front + line + tail;
    assert args[..|front|] == front && args[|front| + |line| + m..] == tail[m..];
  }

  // The caller's loop on such a line: everything is reported as it was meant.
  // With no sign and without POSIXLY_CORRECT, the other words stand behind the
  // options afterwards; otherwise the line is as it was.
  method ParseLine(scanner: Scanner, nargv: array<string>, w: Setting, ghost front: seq<string>,
                   ghost items: seq<Item>, ghost tail: seq<string>) returns (reports: seq<Report>)
    requires scanner.Fresh(nargv) && |front| == (if scanner.optind == 0 then 1 else scanner.optind)
    requires w.Valid() && Ends(tail, w) && AllLegal(items, w) && EndsRight(Pieces(items, w), tail)
    requires nargv[..] == front + Line(Pieces(items, w)) + tail
    modifies scanner, nargv
    ensures reports == Meanings(Pieces(items, w))
    ensures var ps, m := Pieces(items, w), Read(tail);
      && nargv[..] == front + (Options(ps) + tail[..m]) + Moved(ps) + tail[m..]
      && scanner.optind == |front + (Options(ps) + tail[..m])|
    ensures w.posix || w.sign != "" ==>
      nargv[..] == old(nargv[..]) && scanner.optind == |front + Line(Pieces(items, w))| + Read(tail)
  {
    ghost var ps, m := Pieces(items, w), Read(tail);
    LexOfSyntax(w.Syntax());
    LineIsRead(w.Syntax().Lex(), w, front, items, tail);
    PermutedLine(w.Syntax().Lex(), front, Line(ps), tail, m, Options(ps) + tail[..m], Moved(ps), Meanings(ps));
    if w.posix || w.sign != "" {
      NothingMoves(ps);
      SameLine(front, Line(ps), tail, m);
    }
    reports := scanner.ParseAll(nargv, w.Syntax());
  }

  lemma SameLine(front: seq<string>, line: seq<string>, tail: seq<string>, m: nat)
    requires m <= |tail|
    ensures front + (line + tail[..m]) + [] + tail[m..] == front + line + tail
    ensures |front + (line + tail[..m])| == |front + line| + m
  {
    assert tail[..m] + tail[m..] == tail;
  }

  lemma {:induction false} NothingMoves(ps: seq<Piece>)
    requires forall i :: 0 <= i < |ps| ==> !ps[i].moves
    ensures Options(ps) == Line(ps) && Moved(ps) == []
  {
    if ps != [] { NothingMoves(ps[1..]); }
  }
}
