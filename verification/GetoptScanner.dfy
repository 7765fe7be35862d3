/** The scanner's static state and its two entry points. */
module GetoptScanner {
  import opened Rotation
  import opened Getopt
  import opened Wrappers

  // getopt_internal's answer: -1, -2 with `place` behind the dashes, or a report.
  datatype Answer = Finished | LongOptionFound | Reported(r: Report)

  // Where the scanning pointer stops: at the end of the scan, at a non-option
  // that is reported, behind two dashes, or at option letters.
  datatype Pointer = Exhausted | InPlace(text: string) | TwoDashes | Letters

  // In the option at k these letters are still to be reported.
  ghost predicate Pending(s: Syntax, p: Progress, reported: seq<Report>, letters: string, k: nat)
  {
    && letters != "" && k < |p.orig| && !IsNonOption(p.orig[k])
    && var after := p.orig[k + 1..];
    && s.Span(p.orig, k) == ClusterSpan(letters, s.Letters(), s.longs, after)
    && p.reported + s.Reports(p.orig, k) == reported + ClusterReports(letters, s.Letters(), s.longs, after)
    && s.Ends(p.orig, k) == ClusterEnds(letters, s.Letters(), s.longs, after)
  }

  // In the option at k this text is still to be read as a long option; it is in
  // the argument at i.
  ghost predicate PendingLong(s: Syntax, p: Progress, reported: seq<Report>, text: string, k: nat, i: nat)
  {
    && k <= i < |p.orig| && !IsNonOption(p.orig[k])
    && var (r, n) := LongStep(text, s.longs, p.orig[i + 1..]);
    && s.Span(p.orig, k) == i - k + n && p.reported + s.Reports(p.orig, k) == reported + Alone(r)
    && s.Ends(p.orig, k) == (r == End)
  }

  // The next letter leaves the text of a long option, in the argument that many
  // places further on.
  ghost predicate LeavesText(letters: string, s: Syntax, after: seq<string>, text: string, used: int)
  {
    && letters != "" && 0 <= used <= |after|
    && var (r, n) := LongStep(text, s.longs, after[used..]);
    LetterStep(letters, s.Letters(), s.longs, after) == (r, "", used + n)
  }

  // The lexer of the scan is the one the option syntax defines.
  ghost predicate Lexes(lex: Lexer, s: Syntax)
  {
    && lex.mode == s.Mode()
    && forall args: seq<string>, k: nat {:trigger s.Span(args, k)} ::
      k < |args| && !IsNonOption(args[k]) ==> lex.of(args, k) == (s.Span(args, k), s.Reports(args, k), s.Ends(args, k))
  }

  class Scanner {
    var optind: nat
    var place: string
    var nonoptStart: int
    var nonoptEnd: int
    var optreset: bool
    var optarg: Option<string>
    ghost var p: Progress
    ghost var reported: seq<Report>
    ghost var start: nat  // where the option being read begins

    // Between two arguments.
    ghost predicate Idle(lex: Lexer, nargv: array<string>)
      reads `optind, `nonoptStart, `nonoptEnd, `p, `optreset, `place, `reported, nargv
    {
      && !optreset && place == "" && reported == p.reported && 1 <= p.first
      && Between(lex, nargv[..], optind, p, nonoptStart, nonoptEnd)
    }

    // The option at start is being read.
    ghost predicate Open(lex: Lexer, nargv: array<string>)
      reads `nonoptStart, `nonoptEnd, `p, `optreset, `start, nargv
    {
      && !optreset && start < nargv.Length && 1 <= p.first
      && Arranged(lex, nargv[..], start, p, nonoptStart, nonoptEnd)
      && (nonoptStart != -1 ==> nonoptEnd != -1)
    }

    ghost predicate At(lex: Lexer, nargv: array<string>)
      reads `optind, `nonoptStart, `nonoptEnd, `p, `optreset, `start, nargv
    {
      Open(lex, nargv) && start <= optind < nargv.Length
    }

    lemma BehindUnread(lex: Lexer, nargv: array<string>, i: nat)
      requires Open(lex, nargv) && start <= i < nargv.Length
      ensures |p.orig| == nargv.Length && nargv[..][i + 1..] == p.orig[i + 1..]
    {
      TailUnread(nargv[..], start, i, p);
    }

    // Inside a cluster, with the letters in `place` still to come.
    ghost predicate Inside(s: Syntax, lex: Lexer, nargv: array<string>)
      reads `optind, `nonoptStart, `nonoptEnd, `p, `optreset, `start, `place, `reported, nargv
    {
      At(lex, nargv) && start == optind && Pending(s, p, reported, place, optind)
    }

    // At the text of a long option, or at "--".
    ghost predicate AtLong(s: Syntax, lex: Lexer, nargv: array<string>)
      reads `optind, `nonoptStart, `nonoptEnd, `p, `optreset, `start, `place, `reported, nargv
    {
      At(lex, nargv) && PendingLong(s, p, reported, place, start, optind)
    }

    // Everything read and the vector permuted.
    ghost predicate Done(lex: Lexer, nargv: array<string>)
      reads `optind, `p, `reported, nargv
    {
      && p.first <= |p.orig|
      && nargv[..] == Permuted(lex, p.orig, p.first)
      && optind == p.first + |Scan(lex, p.orig, p.first).opts|
      && reported == Scan(lex, p.orig, p.first).reports
    }

    // Move the skipped stretch up to optind.
    method MoveSkipped(nargv: array<string>, ghost lex: Lexer)
      requires Between(lex, nargv[..], optind, p, nonoptStart, nonoptEnd) && nonoptEnd != -1
      modifies this`nonoptStart, this`nonoptEnd, this`p, nargv
      ensures Between(lex, nargv[..], optind, p, nonoptStart, nonoptEnd)
      ensures nonoptEnd == -1 && nonoptStart == optind - (old(nonoptEnd) - old(nonoptStart)) != -1
      ensures p.orig == old(p.orig) && p.first == old(p.first) && p.reported == old(p.reported)
      ensures forall i :: optind <= i < nargv.Length ==> nargv[i] == old(nargv[i])
    {
      Exchange(lex, nargv[..], optind, p, nonoptStart, nonoptEnd);
      p := p.(opts1 := p.opts1 + p.opts2, opts2 := []);
      PermuteArgs(nonoptStart, nonoptEnd, optind, nargv);
      nonoptStart := optind - (nonoptEnd - nonoptStart);
      nonoptEnd := -1;
    }

    // The end of the argument vector.
    method AtEnd(nargv: array<string>, ghost lex: Lexer)
      requires Idle(lex, nargv) && optind >= nargv.Length
      modifies this`optind, this`nonoptStart, this`nonoptEnd, this`p, nargv
      ensures Done(lex, nargv) && p.orig == old(p.orig) && p.first == old(p.first)
    {
      if nonoptEnd != -1 {
        MoveSkipped(nargv, lex);
      }
      ScanEnds(lex, nargv[..], optind, p, nonoptStart);
      if nonoptStart != -1 {
        optind := nonoptStart;
      }
      nonoptStart, nonoptEnd := -1, -1;
    }

    // A non-option: note it, after moving an earlier stretch up to it.
    method SkipNonOption(nargv: array<string>, ghost lex: Lexer)
      requires Idle(lex, nargv) && optind < nargv.Length && IsNonOption(nargv[optind]) && lex.mode == Permuting
      modifies this`optind, this`nonoptStart, this`nonoptEnd, this`p, nargv
      ensures Idle(lex, nargv) && optind == old(optind) + 1
      ensures p.orig == old(p.orig) && p.first == old(p.first)
    {
      ArgumentUnread(p, nargv[..], optind, optind);
      if nonoptEnd != -1 {
        MoveSkipped(nargv, lex);
      }
      NoteNonOption(nargv, lex);
    }

    method NoteNonOption(nargv: array<string>, ghost lex: Lexer)
      requires Idle(lex, nargv) && nonoptEnd == -1
      requires optind < nargv.Length && IsNonOption(nargv[optind]) && lex.mode == Permuting
      modifies this`optind, this`nonoptStart, this`p
      ensures Idle(lex, nargv) && optind == old(optind) + 1
      ensures p.orig == old(p.orig) && p.first == old(p.first)
    {
      ReadNonOption(lex, nargv[..], optind, p, nonoptStart);
      if nonoptStart == -1 {
        nonoptStart := optind;
      }
      p := p.(nons := p.nons + [nargv[optind]]);
      optind := optind + 1;
    }

    // A non-option that is reported in its place.
    method TakeArgument(nargv: array<string>, ghost lex: Lexer) returns (text: string)
      requires Idle(lex, nargv) && optind < nargv.Length && IsNonOption(nargv[optind]) && lex.mode == InOrder
      requires nonoptStart == -1 && nonoptEnd == -1
      modifies this`optind, this`optarg, this`p, this`reported
      ensures Idle(lex, nargv) && reported == old(reported) + [Argument(text)] && optarg == Some(text)
      ensures p.orig == old(p.orig) && p.first == old(p.first)
    {
      ReadArgument(lex, nargv[..], optind, p);
      text := nargv[optind];
      p := WithOption(p, -1, p.orig[optind..optind + 1], [Argument(text)]);
      reported := reported + [Argument(text)];
      optarg := Some(text);
      optind := optind + 1;
    }

    // Without permutation a non-option is reported or ends the scan.
    method MeetNonOption(nargv: array<string>, s: Syntax, ghost lex: Lexer) returns (r: Pointer)
      requires Idle(lex, nargv) && optind < nargv.Length && IsNonOption(nargv[optind])
      requires lex.mode == s.Mode() != Permuting
      modifies `optind, `optarg, `p, `reported
      ensures p.orig == old(p.orig) && p.first == old(p.first)
      ensures if r.InPlace? then Idle(lex, nargv) && reported == old(reported) + [Argument(r.text)]
              else r.Exhausted? && Done(lex, nargv) && reported == old(reported) && optarg == old(optarg)
    {
      NeverSkips(lex, nargv[..], optind, p, nonoptStart, nonoptEnd);
      if s.Mode() == InOrder {
        var text := TakeArgument(nargv, lex);
        return InPlace(text);
      }
      ScanStops(lex, nargv[..], optind, p, nonoptStart, nonoptEnd);
      return Exhausted;
    }

    // Update the scanning pointer: skip non-options until an option or the end,
    // or deal with the first one.
    method UpdatePointer(nargv: array<string>, s: Syntax, ghost lex: Lexer) returns (r: Pointer)
      requires Idle(lex, nargv) && Lexes(lex, s)
      modifies this`optind, this`place, this`optarg, this`nonoptStart, this`nonoptEnd
      modifies this`p, this`reported, this`start, nargv
      ensures p.orig == old(p.orig) && p.first == old(p.first)
      ensures r.InPlace? ==> reported == old(reported) + [Argument(r.text)]
      ensures !r.InPlace? ==> reported == old(reported)
      ensures r.InPlace? || optarg == old(optarg)
      ensures match r
        case Exhausted => Done(lex, nargv)
        case InPlace(_) => Idle(lex, nargv)
        case TwoDashes => AtLong(s, lex, nargv)
        case Letters => Inside(s, lex, nargv)
    {
      while optind < nargv.Length && IsNonOption(nargv[optind])
        invariant Idle(lex, nargv) && p.orig == old(p.orig) && p.first == old(p.first)
        invariant reported == old(reported) && optarg == old(optarg)
        decreases nargv.Length - optind
      {
        if s.Mode() != Permuting {
          r := MeetNonOption(nargv, s, lex);
          return;
        }
        SkipNonOption(nargv, lex);
      }
      if optind >= nargv.Length {
        AtEnd(nargv, lex);
        return Exhausted;
      }
      var long := EnterOption(nargv, s, lex);
      return if long then TwoDashes else Letters;
    }

    // Close the skipped stretch and step behind the first dash or dashes.
    method EnterOption(nargv: array<string>, ghost s: Syntax, ghost lex: Lexer) returns (long: bool)
      requires Idle(lex, nargv) && optind < nargv.Length && !IsNonOption(nargv[optind])
      modifies this`place, this`nonoptEnd, this`start
      ensures if long then AtLong(s, lex, nargv) else Inside(s, lex, nargv)
    {
      ArgumentUnread(p, nargv[..], optind, optind);
      start := optind;
      place := nargv[optind];
      if nonoptStart != -1 && nonoptEnd == -1 {
        nonoptEnd := optind;
      }
      place := place[1..];
      long := place[0] == '-';
      if long {
        place := place[1..];
        LongBegins(s, p, optind);
      }
    }

    // One option letter, with its argument; or the text of a long option named
    // by a letter that stands for those.
    method TakeLetter(nargv: array<string>, s: Syntax, ghost after: seq<string>) returns (a: Answer)
      requires place != "" && optind < nargv.Length && after == nargv[optind + 1..]
      modifies this`optind, this`place, this`optarg
      ensures old(optind) <= optind && !a.Finished?
      ensures a.Reported? ==> a.r != End
      ensures a.Reported? ==>
        LetterStep(old(place), s.Letters(), s.longs, after) == (a.r, place, optind - old(optind))
      ensures a.LongOptionFound? ==> optind < nargv.Length && optarg == old(optarg)
      ensures a.LongOptionFound? ==> LeavesText(old(place), s, after, place, optind - old(optind))
    {
      ghost var letters := place;
      var options := s.Letters();
      var optchar := place[0];
      place := place[1..];
      var oli := IndexOf(options, optchar);
      if optchar == ':' || oli == |options| {
        if place == "" { optind := optind + 1; }
        return Reported(BadOption);
      }
      if StandsForLong(options, oli) {
        a := TakeName(nargv, s, letters, after);
        return;
      }
      optarg := None;
      if oli + 1 >= |options| || options[oli + 1] != ':' {
        if place == "" { optind := optind + 1; }
        return Reported(Letter(optchar, None));
      }
      a := TakeOptarg(nargv, s, oli, letters, after);
    }

    // The argument of a letter, in this word or the next.
    method TakeOptarg(nargv: array<string>, s: Syntax, oli: nat, ghost letters: string, ghost after: seq<string>)
        returns (a: Answer)
      requires letters != "" && place == letters[1..] && optind < nargv.Length && after == nargv[optind + 1..]
      requires letters[0] != ':' && oli == IndexOf(s.Letters(), letters[0])
      requires oli + 1 < |s.Letters()| && s.Letters()[oli + 1] == ':' && optarg == None
      modifies this`optind, this`place, this`optarg
      ensures old(optind) <= optind && a.Reported? && a.r != End
      ensures LetterStep(letters, s.Letters(), s.longs, after) == (a.r, place, optind - old(optind))
    {
      if place != "" {
        optarg := Some(place);
      } else if oli + 2 >= |s.Letters()| || s.Letters()[oli + 2] != ':' {
        optind := optind + 1;
        if optind >= nargv.Length {
          place := "";
          return Reported(BadArgument);
        }
        optarg := Some(nargv[optind]);
      }
      place := "";
      optind := optind + 1;
      return Reported(Letter(s.Letters()[oli], optarg));
    }

    // -W: the name follows in this argument or is the next.
    method TakeName(nargv: array<string>, ghost s: Syntax, ghost letters: string, ghost after: seq<string>)
        returns (a: Answer)
      requires letters != "" && place == letters[1..] && optind < nargv.Length && after == nargv[optind + 1..]
      requires letters[0] != ':' && letters[0] in s.Letters()
      requires StandsForLong(s.Letters(), IndexOf(s.Letters(), letters[0]))
      modifies this`optind, this`place
      ensures old(optind) <= optind && (a.LongOptionFound? || a == Reported(BadArgument))
      ensures a.Reported? ==>
        LetterStep(letters, s.Letters(), s.longs, after) == (a.r, place, optind - old(optind))
      ensures a.LongOptionFound? ==> optind < nargv.Length && LeavesText(letters, s, after, place, optind - old(optind))
    {
      if place != "" {
        assert after[0..] == after;
        return LongOptionFound;
      }
      optind := optind + 1;
      if optind >= nargv.Length {
        place := "";
        return Reported(BadArgument);
      }
      place := nargv[optind];
      return LongOptionFound;
    }

    method NextLetter(nargv: array<string>, s: Syntax, ghost lex: Lexer) returns (a: Answer)
      requires Inside(s, lex, nargv) && Lexes(lex, s)
      modifies this`optind, this`place, this`optarg, this`p, this`reported
      ensures p.orig == old(p.orig) && p.first == old(p.first) && !a.Finished?
      ensures a.LongOptionFound? ==> AtLong(s, lex, nargv) && optarg == old(optarg) && reported == old(reported)
      ensures a.Reported? ==>
        && a.r != End && reported == old(reported) + [a.r]
        && if place == "" then Idle(lex, nargv) else Inside(s, lex, nargv)
    {
      ghost var letters, after := place, p.orig[start + 1..];
      BehindUnread(lex, nargv, start);
      a := TakeLetter(nargv, s, after);
      if a.LongOptionFound? {
        LongPending(s, p, reported, letters, start, place, optind, after);
      } else {
        NoteLetter(nargv, s, lex, letters, after, a.r);
      }
    }

    // A letter of the option at start was reported.
    ghost method NoteLetter(nargv: array<string>, s: Syntax, lex: Lexer, letters: string, after: seq<string>, r: Report)
      requires Open(lex, nargv) && start <= optind && r != End && Lexes(lex, s)
      requires Pending(s, p, reported, letters, start) && after == p.orig[start + 1..]
      requires LetterStep(letters, s.Letters(), s.longs, after) == (r, place, optind - start)
      modifies this`p, this`reported
      ensures p.orig == old(p.orig) && p.first == old(p.first) && reported == old(reported) + [r]
      ensures if place == "" then Idle(lex, nargv) else Inside(s, lex, nargv)
    {
      PendingStep(s, p, reported, letters, start, r, place, optind - start);
      if place == "" {
        Lexed(lex, s, p.orig, start);
        OptionTaken(nargv, lex, s.Reports(p.orig, start), r);
      } else {
        reported := reported + [r];
      }
    }

    // The whole option at start is read and gave its last report.
    ghost method OptionTaken(nargv: array<string>, lex: Lexer, reports: seq<Report>, r: Report)
      requires Open(lex, nargv) && place == "" && !IsNonOption(p.orig[start]) && start < optind <= nargv.Length
      requires lex.of(p.orig, start) == (optind - start, reports, false) && p.reported + reports == reported + [r]
      modifies this`p, this`reported
      ensures Idle(lex, nargv) && reported == old(reported) + [r]
      ensures p.orig == old(p.orig) && p.first == old(p.first)
    {
      ReadOption(lex, nargv[..], start, p, nonoptStart, nonoptEnd, optind - start, reports);
      p := WithOption(p, nonoptStart, p.orig[start..optind], reports);
      reported := reported + [r];
    }

    // Before the first call: no scan under way, or a restart asked for.
    ghost predicate Fresh(nargv: array<string>)
      reads `optind, `nonoptStart, `nonoptEnd, `p, `optreset, `place, `reported, nargv
    {
      && (optreset || (place == "" && nonoptStart == -1 && nonoptEnd == -1))
      && p == Progress(nargv[..], if optind == 0 then 1 else optind, [], [], [], [])
      && reported == [] && p.first <= nargv.Length
    }

    // A fresh scan starts at the first argument, with no stretch skipped.
    method Begin(nargv: array<string>, ghost lex: Lexer)
      requires Fresh(nargv) || Idle(lex, nargv)
      modifies this`optind, this`nonoptStart, this`nonoptEnd, this`optreset, this`place
      ensures Idle(lex, nargv)
    {
      ghost var atStart := Fresh(nargv);
      if optind == 0 {
        optind := 1;
      }
      if optreset {
        nonoptStart, nonoptEnd := -1, -1;
      }
      optreset, place := false, "";
      if atStart { ScanBegins(lex, nargv[..], optind); }
    }

    method BeginAndUpdate(nargv: array<string>, s: Syntax, ghost lex: Lexer) returns (r: Pointer)
      requires (Fresh(nargv) || Idle(lex, nargv)) && Lexes(lex, s)
      modifies this, nargv
      ensures p.orig == old(p.orig) && p.first == old(p.first)
      ensures r.InPlace? ==> reported == old(reported) + [Argument(r.text)]
      ensures !r.InPlace? ==> reported == old(reported) && optarg == old(optarg)
      ensures match r
        case Exhausted => Done(lex, nargv)
        case InPlace(_) => Idle(lex, nargv)
        case TwoDashes => AtLong(s, lex, nargv)
        case Letters => Inside(s, lex, nargv)
    {
      Begin(nargv, lex);
      r := UpdatePointer(nargv, s, lex);
    }

    // getopt_internal
    method GetoptInternal(nargv: array<string>, s: Syntax, ghost lex: Lexer) returns (a: Answer)
      requires Fresh(nargv) || Idle(lex, nargv) || Inside(s, lex, nargv)
      requires Lexes(lex, s)
      modifies this, nargv
      ensures p.orig == old(p.orig) && p.first == old(p.first)
      ensures a.Finished? ==> Done(lex, nargv) && reported == old(reported)
      ensures a.LongOptionFound? ==> AtLong(s, lex, nargv) && optarg == None && reported == old(reported)
      ensures a.Reported? ==>
        (Idle(lex, nargv) || Inside(s, lex, nargv)) && a.r != End && reported == old(reported) + [a.r]
    {
      optarg := None;
      if optreset || place == "" {
        var q := BeginAndUpdate(nargv, s, lex);
        if q.Exhausted? { return Finished; }
        if q.InPlace? { return Reported(Argument(q.text)); }
        if q.TwoDashes? { return LongOptionFound; }
      }
      a := NextLetter(nargv, s, lex);
    }

    // "--": the scan is over, the skipped stretch moves behind it.
    method EndAtDashes(nargv: array<string>, ghost s: Syntax, ghost lex: Lexer)
      requires AtLong(s, lex, nargv) && place == "" && Lexes(lex, s)
      modifies this`optind, this`nonoptStart, this`nonoptEnd, nargv
      ensures Done(lex, nargv)
    {
      ghost var reports := DashesRead(s, lex, p, reported, start, optind);
      LastOptionEnds(lex, nargv[..], start, p, nonoptStart, nonoptEnd, reports, optind + 1, reported);
      StepBehind(nargv, lex);
    }

    method StepBehind(nargv: array<string>, ghost lex: Lexer)
      requires EndsAt(lex, nargv[..], optind + 1, p, nonoptStart, nonoptEnd, reported)
      modifies this`optind, this`nonoptStart, this`nonoptEnd, nargv
      ensures Done(lex, nargv)
    {
      MoveBehind(nargv, Permuted(lex, p.orig, p.first));
    }

    method MoveBehind(nargv: array<string>, ghost all: seq<string>)
      requires optind < nargv.Length && (nonoptEnd != -1 ==> 0 <= nonoptStart < nonoptEnd <= optind)
      requires all == if nonoptEnd != -1 then Exchanged(nargv[..], nonoptStart, nonoptEnd, optind + 1) else nargv[..]
      modifies this`optind, this`nonoptStart, this`nonoptEnd, nargv
      ensures nargv[..] == all
      ensures optind == old(optind) + 1 - if old(nonoptEnd) != -1 then old(nonoptEnd - nonoptStart) else 0
    {
      optind := optind + 1;
      if nonoptEnd != -1 {
        PermuteArgs(nonoptStart, nonoptEnd, optind, nargv);
        optind := optind - (nonoptEnd - nonoptStart);
      }
      nonoptStart, nonoptEnd := -1, -1;
    }

    // The long option named in `text`, with its argument.
    method TakeLong(nargv: array<string>, s: Syntax, text: string, ghost after: seq<string>) returns (r: Report)
      requires 0 < optind <= nargv.Length && optarg == None && text != "" && after == nargv[optind..]
      modifies this`optind, this`optarg
      ensures (r, optind - old(optind) + 1) == LongStep(text, s.longs, after)
    {
      var eq := IndexOf(text, '=');
      var hasEqual := if eq < |text| then Some(text[eq + 1..]) else None;
      var found := FindLong(text[..eq], s.longs);
      if !found.Found? { return BadOption; }
      var option := s.longs[found.index];
      if option.hasArg == NoArgument && hasEqual.Some? { return BadArgument; }
      if option.hasArg != NoArgument {
        if hasEqual.Some? {
          optarg := hasEqual;
        } else if option.hasArg == RequiredArgument {
          optarg := if optind < nargv.Length then Some(nargv[optind]) else None;
          optind := optind + 1;
        }
      }
      if option.hasArg == RequiredArgument && optarg == None {
        optind := optind - 1;
        return BadArgument;
      }
      return Long(found.index, optarg);
    }

    // getopt_long
    method GetoptLong(nargv: array<string>, s: Syntax, ghost lex: Lexer) returns (r: Report)
      requires Fresh(nargv) || Idle(lex, nargv) || Inside(s, lex, nargv)
      requires Lexes(lex, s)
      modifies this, nargv
      ensures p.orig == old(p.orig) && p.first == old(p.first)
      ensures r == End ==> Done(lex, nargv) && reported == old(reported)
      ensures r != End ==> (Idle(lex, nargv) || Inside(s, lex, nargv)) && reported == old(reported) + [r]
    {
      var a := GetoptInternal(nargv, s, lex);
      match a
      case Finished => return End;
      case Reported(report) => return report;
      case LongOptionFound =>
        if place == "" {
          EndAtDashes(nargv, s, lex);
          return End;
        }
        r := ReadLong(nargv, s, lex);
    }

    method ReadLong(nargv: array<string>, s: Syntax, ghost lex: Lexer) returns (r: Report)
      requires AtLong(s, lex, nargv) && place != "" && optarg == None && Lexes(lex, s)
      modifies this`optind, this`place, this`optarg, this`p, this`reported
      ensures p.orig == old(p.orig) && p.first == old(p.first)
      ensures Idle(lex, nargv) && r != End && reported == old(reported) + [r]
    {
      ghost var i, after := optind, p.orig[optind + 1..];
      BehindUnread(lex, nargv, optind);
      var text := place;
      optind, place := optind + 1, "";
      r := TakeLong(nargv, s, text, after);
      ghost var reports := LongRead(s, lex, p, reported, text, start, i, after, r, optind - i);
      OptionTaken(nargv, lex, reports, r);
    }

    // Nothing is reported that the whole scan does not report.
    lemma ReportedSoFar(nargv: array<string>, s: Syntax, lex: Lexer)
      requires (Idle(lex, nargv) || Inside(s, lex, nargv)) && Lexes(lex, s)
      ensures |reported| <= |Scan(lex, p.orig, p.first).reports|
    {
      if Inside(s, lex, nargv) {
        Lexed(lex, s, p.orig, optind);
      }
    }

    // A caller's loop: every option of the vector in turn.
    method ParseWith(nargv: array<string>, s: Syntax, ghost lex: Lexer) returns (reports: seq<Report>)
      requires Fresh(nargv) && Lexes(lex, s)
      modifies this, nargv
      ensures var args, first := old(nargv[..]), if old(optind) == 0 then 1 else old(optind);
        && first <= |args| && nargv[..] == Permuted(lex, args, first)
        && optind == first + |Scan(lex, args, first).opts|
        && reports == Scan(lex, args, first).reports
    {
      reports := [];
      var ch := GetoptLong(nargv, s, lex);
      while ch != End
        invariant p.orig == old(nargv[..]) && p.first == old(p.first)
        invariant if ch == End then Done(lex, nargv) && reports == reported
                  else (Idle(lex, nargv) || Inside(s, lex, nargv)) && reported == reports + [ch]
        decreases |Scan(lex, p.orig, p.first).reports| - |reports|
      {
        ReportedSoFar(nargv, s, lex);
        reports := reports + [ch];
        ch := GetoptLong(nargv, s, lex);
      }
    }

    // The same, for the reading that the syntax defines.
    method ParseAll(nargv: array<string>, s: Syntax) returns (reports: seq<Report>)
      requires Fresh(nargv)
      modifies this, nargv
      ensures var args, first, lex := old(nargv[..]), if old(optind) == 0 then 1 else old(optind), s.Lex();
        && first <= |args| && nargv[..] == Permuted(lex, args, first)
        && optind == first + |Scan(lex, args, first).opts|
        && reports == Scan(lex, args, first).reports
    {
      LexOfSyntax(s);
      reports := ParseWith(nargv, s, s.Lex());
    }
  }

  lemma LexOfSyntax(s: Syntax)
    ensures Lexes(s.Lex(), s)
  {
  }

  lemma Lexed(lex: Lexer, s: Syntax, args: seq<string>, k: nat)
    requires Lexes(lex, s) && k < |args| && !IsNonOption(args[k])
    ensures lex.of(args, k) == (s.Span(args, k), s.Reports(args, k), s.Ends(args, k))
  {
  }

  // The last report of an option with a long name.
  lemma LongRead(s: Syntax, lex: Lexer, p: Progress, reported: seq<Report>, text: string, k: nat, i: nat,
                 after: seq<string>, r: Report, n: nat) returns (reports: seq<Report>)
    requires PendingLong(s, p, reported, text, k, i) && Lexes(lex, s) && text != ""
    requires after == p.orig[i + 1..] && (r, n) == LongStep(text, s.longs, after)
    ensures lex.of(p.orig, k) == (i - k + n, reports, false) && p.reported + reports == reported + [r]
    ensures !IsNonOption(p.orig[k])
  {
    reports := s.Reports(p.orig, k);
    Lexed(lex, s, p.orig, k);
  }

  // An empty text is the end of the scan.
  lemma DashesRead(s: Syntax, lex: Lexer, p: Progress, reported: seq<Report>, k: nat, i: nat)
      returns (reports: seq<Report>)
    requires PendingLong(s, p, reported, "", k, i) && Lexes(lex, s)
    ensures lex.of(p.orig, k) == (i + 1 - k, reports, true) && p.reported + reports == reported
  {
    reports := s.Reports(p.orig, k);
    Lexed(lex, s, p.orig, k);
  }

  // An argument with two dashes goes on as a long option.
  lemma LongBegins(s: Syntax, p: Progress, k: nat)
    requires k < |p.orig| && !IsNonOption(p.orig[k]) && p.orig[k][1] == '-'
    ensures PendingLong(s, p, p.reported, p.orig[k][2..], k, k)
  {
    assert p.orig[k][2..] == "" ==> p.orig[k] == "--";
  }

  // The search loop over the long options.
  method FindLong(key: string, longs: seq<LongOption>) returns (found: Match)
    ensures found == Lookup(key, longs, 0, NoMatch)
  {
    found := NoMatch;
    for i := 0 to |longs|
      invariant !found.Ambiguous? && (found.Found? ==> found.index < |longs|)
      invariant Lookup(key, longs, i, found) == Lookup(key, longs, 0, NoMatch)
    {
      if key <= longs[i].name {
        if |longs[i].name| == |key| { return Found(i); }
        if found != NoMatch { return Ambiguous; }
        found := Found(i);
      }
    }
  }

  lemma PendingStep(s: Syntax, p: Progress, reported: seq<Report>, letters: string, k: nat, r: Report, rest: string,
                    used: nat)
    requires Pending(s, p, reported, letters, k)
    requires (r, rest, used) == LetterStep(letters, s.Letters(), s.longs, p.orig[k + 1..]) && r != End
    ensures rest != "" ==> Pending(s, p, reported + [r], rest, k) && used == 0
    ensures rest == "" ==>
      s.Span(p.orig, k) == used && p.reported + s.Reports(p.orig, k) == reported + [r] && !s.Ends(p.orig, k)
  {
    ClusterStep(letters, s.Letters(), s.longs, p.orig[k + 1..]);
  }

  // A letter is the first report of its cluster, and the rest of the cluster
  // gives the others.
  lemma ClusterStep(letters: string, options: string, longs: seq<LongOption>, after: seq<string>)
    requires letters != ""
    ensures var (r, rest, used) := LetterStep(letters, options, longs, after);
      if rest == "" then
        && ClusterReports(letters, options, longs, after) == Alone(r)
        && ClusterSpan(letters, options, longs, after) == used
        && ClusterEnds(letters, options, longs, after) == (r == End)
      else
        && ClusterReports(letters, options, longs, after) == [r] + ClusterReports(rest, options, longs, after)
        && ClusterSpan(letters, options, longs, after) == ClusterSpan(rest, options, longs, after)
        && ClusterEnds(letters, options, longs, after) == ClusterEnds(rest, options, longs, after)
  {
  }

  // A letter that stands for long options leaves the text of one.
  lemma LongPending(s: Syntax, p: Progress, reported: seq<Report>, letters: string, k: nat, text: string, i: nat,
                    after: seq<string>)
    requires Pending(s, p, reported, letters, k) && k <= i < |p.orig| && after == p.orig[k + 1..]
    requires LeavesText(letters, s, after, text, i - k)
    ensures PendingLong(s, p, reported, text, k, i)
  {
    assert after[i - k..] == p.orig[i + 1..];
    ClusterStep(letters, s.Letters(), s.longs, p.orig[k + 1..]);
  }

  // Arguments behind the one being read are where they were.
  lemma TailUnread(args: seq<string>, k: nat, i: nat, p: Progress)
    requires p.first <= k <= i < |p.orig| == |args| && args == p.Vector(k)
    ensures args[i + 1..] == p.orig[i + 1..]
  {
    assert |args| == |p.Vector(k)|;
  }
}
