/** What strtoul makes of any text: spaces, a sign, a prefix, digits, and
    whatever follows. */
module StrtoulLaws {
  import opened Bits
  import opened Strtoul
  import opened PrintfStrtoul

  // The value of a character as a digit, upper-case letters included, or -1.
  ghost function Digit(c: char): int
  {
    if '0' <= c <= '9' then c as int - '0' as int
    else if 'A' <= c <= 'Z' then c as int - 'A' as int + 10
    else if 'a' <= c <= 'z' then c as int - 'A' as int + 10
    else -1
  }

  ghost predicate Blank(c: char) { c in " \t\n\r\U{0B}\U{0C}" }

  ghost predicate HasDigits(body: string, base: nat)
  {
    forall i :: 0 <= i < |body| ==> 0 <= Digit(body[i]) < base
  }

  // The number that the digits stand for, the last one counting singly.
  ghost function NumberOf(body: string, base: nat): int
  {
    if body == "" then 0 else NumberOf(body[..|body| - 1], base) * base + Digit(body[|body| - 1])
  }

  // The text in its parts, and the base in which the digits count: the one
  // asked for; or 16 behind 0x where 16 or any base is asked for; or, for any
  // base, 8 behind a 0 and 10 otherwise. What follows is no digit.
  ghost predicate Parts(before: string, sign: string, mark: string, body: string, tail: string, asked: nat, base: nat)
  {
    var number := body + tail;
    && (forall i :: 0 <= i < |before| ==> Blank(before[i])) && sign in {"", "+", "-"}
    && HasDigits(body, base) && (tail != "" ==> !(0 <= Digit(tail[0]) < base))
    && (sign == "" && mark == "" && number != "" ==> !Blank(number[0]) && number[0] != '+' && number[0] != '-')
    && if mark != "" then (mark == "0x" || mark == "0X") && (asked == 0 || asked == 16) && base == 16
       else
         && ((asked == 0 || asked == 16) && number != "" && number[0] == '0' ==>
               |number| == 1 || (number[1] != 'x' && number[1] != 'X'))
         && base == (if asked != 0 then asked else if number != "" && number[0] == '0' then 8 else 10)
  }

  lemma DigitIs(c: char, base: nat)
    ensures DigitOf(c, base) == if 0 <= Digit(c) < base then Is(Digit(c)) else NoDigit
  {
  }

  lemma {:induction false} DigitsAre(body: string, base: nat)
    requires HasDigits(body, base)
    ensures AllDigits(body, base) && Number(body, base) == NumberOf(body, base)
    decreases |body|
  {
    if body != "" {
      DigitsAre(body[..|body| - 1], base);
      forall i | 0 <= i < |body| ensures DigitOf(body[i], base).Is? { DigitIs(body[i], base); }
      DigitIs(body[|body| - 1], base);
    }
  }

  lemma {:induction false} BlanksSkipped(before: string, rest: string, i: nat)
    requires i <= |before| && (forall k :: 0 <= k < |before| ==> Blank(before[k])) && (rest != "" ==> !Blank(rest[0]))
    ensures SkipSpaces(before + rest, i) == |before|
    decreases |before| - i
  {
    var s := before + rest;
    if i < |before| {
      assert s[i] == before[i];
      BlanksSkipped(before, rest, i + 1);
    } else if rest != "" {
      assert s[i] == rest[0];
    }
  }

  // What stands behind the spaces and behind the sign.
  lemma SignFound(before: string, sign: string, more: string)
    requires (forall i :: 0 <= i < |before| ==> Blank(before[i])) && sign in {"", "+", "-"}
    requires sign == "" && more != "" ==> !Blank(more[0]) && more[0] != '+' && more[0] != '-'
    ensures var s, i, j := before + sign + more, |before|, |before| + |sign|;
      && SkipSpaces(s, 0) == i && (At(s, i) == '-' <==> sign == "-") && (At(s, i) == '+' <==> sign == "+")
      && At(s, j) == At(more, 0) && At(s, j + 1) == At(more, 1)
  {
    var s, rest := before + sign + more, sign + more;
    assert s == before + rest;
    BlanksSkipped(before, rest, 0);
    assert At(s, |before|) == At(rest, 0);
    assert |s| == |before| + |sign| + |more|;
    assert more != "" ==> s[|before| + |sign|] == more[0];
    assert |more| > 1 ==> s[|before| + |sign| + 1] == more[1];
  }

  // Where the digits begin.
  lemma LeadOf(before: string, sign: string, mark: string, body: string, tail: string, asked: nat, base: nat)
    requires Parts(before, sign, mark, body, tail, asked, base)
    ensures Lead(before + sign + mark + body + tail, asked)
      == (|before| + |sign| + |mark|, sign == "-", base)
  {
    var number := body + tail;
    var more := mark + number;
    Rejoined(before + sign, mark, body, tail);
    if mark == "" {
      assert more == number;
    } else {
      assert more[0] == mark[0] && more[1] == mark[1];
    }
    SignFound(before, sign, more);
    LeadFound(before + sign + more, asked, |before|, |before| + |sign|);
  }

  lemma Rejoined(a: string, m: string, b: string, t: string)
    ensures a + m + b + t == a + (m + (b + t))
  {
  }

  lemma LeadFound(s: string, asked: nat, i: nat, j: nat)
    requires SkipSpaces(s, 0) == i && j == if At(s, i) == '-' || At(s, i) == '+' then i + 1 else i
    ensures Lead(s, asked)
      == if (asked == 0 || asked == 16) && At(s, j) == '0' && (At(s, j + 1) == 'x' || At(s, j + 1) == 'X')
         then (j + 2, At(s, i) == '-', 16)
         else (j, At(s, i) == '-', if asked != 0 then asked else if At(s, j) == '0' then 8 else 10)
  {
  }

  // Every text falls into such parts; the answer is the number, held at 2^32-1
  // where it is larger and otherwise negated behind a minus, and the end of the
  // digits, or the beginning of the text where there are none.
  lemma AnyTextIsRead(before: string, sign: string, mark: string, body: string, tail: string, asked: nat, base: nat)
    requires Parts(before, sign, mark, body, tail, asked, base)
    ensures var n := NumberOf(body, base);
      Parsed(before + sign + mark + body + tail, asked)
      == (if n > 0xFFFF_FFFF then 0xFFFF_FFFF else if sign == "-" && n > 0 then 0x1_0000_0000 - n else n,
          if body == "" then 0 else |before + sign + mark + body|)
  {
    var front := before + sign + mark;
    DigitsAre(body, base);
    LeadOf(before, sign, mark, body, tail, asked, base);
    DigitsRead(front, body, tail, base);
    ValueRead(front + body + tail, asked, |front|, sign == "-", base, |front| + |body|, NumberOf(body, base));
  }

  lemma DigitsRead(front: string, body: string, tail: string, base: nat)
    requires HasDigits(body, base) && (tail != "" ==> !(0 <= Digit(tail[0]) < base))
    ensures var s := front + body + tail;
      Run(s, |front|, base) == |front| + |body| && Value(s, |front|, base, 0) == NumberOf(body, base)
  {
    DigitsAre(body, base);
    if tail != "" { DigitIs(tail[0], base); }
    assert body[..0] == "";
    DigitsInside(front, body, tail, 0, base);
  }

  lemma ValueRead(s: string, asked: nat, i: nat, neg: bool, base: nat, j: nat, v: nat)
    requires Lead(s, asked) == (i, neg, base) && Run(s, i, base) == j && Value(s, i, base, 0) == v
    ensures Parsed(s, asked)
      == (if v > 0xFFFF_FFFF then 0xFFFF_FFFF else if neg && v > 0 then 0x1_0000_0000 - v else v,
          if j > i then j else 0)
  {
  }

  // ----- there are such parts -----

  lemma {:induction false} SomeBlanks(s: string) returns (before: string, rest: string)
    ensures s == before + rest && (forall i :: 0 <= i < |before| ==> Blank(before[i]))
    ensures rest != "" ==> !Blank(rest[0])
    decreases |s|
  {
    if s == "" || !Blank(s[0]) {
      before, rest := "", s;
    } else {
      var more;
      more, rest := SomeBlanks(s[1..]);
      before := [s[0]] + more;
    }
  }

  lemma {:induction false} SomeDigits(s: string, base: nat) returns (body: string, tail: string)
    ensures s == body + tail && HasDigits(body, base) && (tail != "" ==> !(0 <= Digit(tail[0]) < base))
    decreases |s|
  {
    if s == "" || !(0 <= Digit(s[0]) < base) {
      body, tail := "", s;
    } else {
      var more;
      more, tail := SomeDigits(s[1..], base);
      body := [s[0]] + more;
    }
  }

  lemma AnyTextHasParts(s: string, asked: nat)
    returns (before: string, sign: string, mark: string, body: string, tail: string, base: nat)
    ensures s == before + sign + mark + body + tail && Parts(before, sign, mark, body, tail, asked, base)
  {
    var rest, number;
    before, rest := SomeBlanks(s);
    sign := if rest != "" && rest[0] == '+' then "+" else if rest != "" && rest[0] == '-' then "-" else "";
    number := rest[|sign|..];
    assert rest == sign + number;
    mark, body, tail, base := NumberParts(number, asked);
    Rejoined(before + sign, mark, body, tail);
    assert s == before + (sign + number) == before + sign + number;
    assert sign == "" ==> number == rest;
    assert mark == "" ==> body + tail == number;
  }

  lemma NumberParts(number: string, asked: nat) returns (mark: string, body: string, tail: string, base: nat)
    ensures number == mark + (body + tail) && (mark == "" ==> number == body + tail)
    ensures HasDigits(body, base) && (tail != "" ==> !(0 <= Digit(tail[0]) < base))
    ensures if mark != "" then (mark == "0x" || mark == "0X") && (asked == 0 || asked == 16) && base == 16
            else
              && ((asked == 0 || asked == 16) && number != "" && number[0] == '0' ==>
                    |number| == 1 || (number[1] != 'x' && number[1] != 'X'))
              && base == (if asked != 0 then asked else if number != "" && number[0] == '0' then 8 else 10)
  {
    var prefixed := (asked == 0 || asked == 16) && |number| >= 2 && number[0] == '0';
    mark := if prefixed && number[1] == 'x' then "0x" else if prefixed && number[1] == 'X' then "0X" else "";
    base := if mark != "" then 16 else if asked != 0 then asked else if number != "" && number[0] == '0' then 8 else 10;
    body, tail := SomeDigits(number[|mark|..], base);
    assert number == mark + number[|mark|..];
  }
}
