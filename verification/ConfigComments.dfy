/** Comments behind a variable in a configuration file are cut, exactly when they are not taken for part of its value. */
module ConfigComments {
  import opened Bytes
  import opened CStrings
  import opened ConfigText
  import opened ConfigReader
  import opened ConfigRoundTrip

  predicate IsMark(c: char) {
    c == ';' || c == '#'
  }

  // ---- What is cut of any line ----------------------------------------------

  /** The quotes before position `i` that count: those not at the start of the line and not behind a backslash. */
  ghost function Counted(line: string, i: nat): set<nat> {
    set k: nat | k < i && Counts(line, k)
  }

  predicate Counts(line: string, k: nat) {
    0 < k < |line| && line[k] == '"' && line[k - 1] != '\\'
  }

  lemma CountedNext(line: string, i: nat)
    ensures Counted(line, 0) == {} && i !in Counted(line, i)
    ensures Counted(line, i + 1) == if Counts(line, i) then Counted(line, i) + {i} else Counted(line, i)
  {
    hide Counts;
  }

  lemma {:induction false} QuotesAreCounted(line: string, i: nat)
    ensures QuotesBefore(line, i) == |Counted(line, i)|
  {
    hide Counted;
    if i == 0 {
      CountedNext(line, 0);
    } else {
      QuotesAreCounted(line, i - 1);
      CountedNext(line, i - 1);
      assert Counts(line, i - 1) <==> IsQuote(line, i - 1);
      hide Counts, IsQuote;
    }
  }

  /**
    What is left of a line has no mark with an even number of counted quotes before it; what is
    cut starts with such a mark, with one space before it, or is one space at the end.
  */
  lemma CutExactly(line: string, inQuotes: nat)
    ensures
      var left := WithoutComment(line, inQuotes);
      && left <= line
      && (forall i: nat :: i < |left| && IsMark(left[i]) ==> (inQuotes + |Counted(line, i)|) % 2 == 1)
      && (left == line || exists end: nat :: IsCut(line, inQuotes, |left|, end))
  {
    hide Counted;
    var left := WithoutComment(line, inQuotes);
    var end := CommentStart(line, inQuotes, 0);
    QuotesAreCounted(line, end);
    forall i: nat | i < |left| && IsMark(left[i]) ensures (inQuotes + |Counted(line, i)|) % 2 == 1 {
      QuotesAreCounted(line, i);
      assert !StartsComment(line, inQuotes, i);
    }
    assert line[..|line|] == line;
    assert left == line || IsCut(line, inQuotes, |left|, end);
  }

  // The line is cut at `at`, its comment starting at `end` or its end being there.
  ghost predicate IsCut(line: string, inQuotes: nat, at: nat, end: nat) {
    && at <= end <= |line| && (at == end || (at + 1 == end && IsSpace(line[at])))
    && (end == |line| || (IsMark(line[end]) && (inQuotes + |Counted(line, end)|) % 2 == 0))
  }

  // ---- A comment behind a printed entry -------------------------------------

  function Body(name: string, value: string): string {
    Assigned(name, Quoted(Escape(value)))
  }

  /** An entry with a comment behind it. */
  function Commented(name: string, value: string, mark: char, tail: string): string {
    "\t" + (Body(name, value) + " " + [mark] + tail) + "\n"
  }

  lemma {:induction false} QuotesExtend(line: string, more: string, i: nat)
    requires i <= |line|
    ensures QuotesBefore(line + more, i) == QuotesBefore(line, i)
  {
    if i > 0 {
      QuotesExtend(line, more, i - 1);
    }
  }

  lemma StartsExtend(line: string, more: string, k: nat)
    requires k < |line|
    ensures StartsComment(line + more, 0, k) <==> StartsComment(line, 0, k)
  {
    QuotesExtend(line, more, k);
  }

  lemma StartsAt(line: string, i: nat)
    ensures StartsComment(line, 0, i) <==> i < |line| && IsMark(line[i]) && QuotesBefore(line, i) % 2 == 0
  {
  }

  // Nothing starts before the mark, and at the mark it depends on the quotes before the space.
  lemma MarkBehind(line: string, mark: char, tail: string)
    requires IsMark(mark) && forall k :: 0 <= k < |line| ==> !StartsComment(line, 0, k)
    ensures
      var all := line + " " + [mark] + tail;
      && (forall k :: 0 <= k <= |line| ==> !StartsComment(all, 0, k))
      && (StartsComment(all, 0, |line| + 1) <==> QuotesBefore(line, |line|) % 2 == 0)
  {
    hide QuotesBefore, StartsComment, IsMark;
    var more := " " + [mark] + tail;
    var all := line + " " + [mark] + tail;
    assert all == line + more;
    var n := |line|;
    forall k | 0 <= k < n ensures !StartsComment(all, 0, k) {
      StartsExtend(line, more, k);
    }
    assert all[n] == ' ' && all[n + 1] == mark;
    QuotesExtend(line, more, n);
    BlankIsNoQuote(all, n);
    BlankIsNoMark();
    StartsAt(all, n);
    StartsAt(all, n + 1);
  }

  lemma BlankIsNoMark()
    ensures !IsMark(' ')
  {
  }

  /** Behind an even number of quotes a comment is cut with the space before it, behind an odd number it stays. */
  lemma CutBehind(line: string, mark: char, tail: string)
    requires IsMark(mark) && forall k :: 0 <= k < |line| ==> !StartsComment(line, 0, k)
    ensures
      var left := WithoutComment(line + " " + [mark] + tail, 0);
      if QuotesBefore(line, |line|) % 2 == 0 then left == line else line + " " + [mark] <= left
  {
    hide QuotesBefore, StartsComment, IsMark;
    var all := line + " " + [mark] + tail;
    var n := |line|;
    MarkBehind(line, mark, tail);
    if QuotesBefore(line, n) % 2 == 0 {
      FirstCommentIs(all, 0, 0, n + 1);
      assert all[n] == ' ' && all[..n] == line;
    } else {
      MarkStays(line, mark, tail);
    }
  }

  lemma MarkStays(line: string, mark: char, tail: string)
    requires IsMark(mark)
    requires var all := line + " " + [mark] + tail; forall k :: 0 <= k <= |line| + 1 ==> !StartsComment(all, 0, k)
    ensures line + " " + [mark] <= WithoutComment(line + " " + [mark] + tail, 0)
  {
    hide QuotesBefore, StartsComment;
    var all := line + " " + [mark] + tail;
    var n := |line|;
    var end := CommentStart(all, 0, 0);
    assert end >= n + 2;
    assert all[n + 1] == mark && all[..n + 2] == line + " " + [mark];
    hide CommentStart;
    var left := WithoutComment(all, 0);
    assert |left| >= n + 2 && left == all[..|left|];
  }

  lemma BlankIsNoQuote(line: string, i: nat)
    requires i < |line| && line[i] == ' '
    ensures QuotesBefore(line, i + 1) == QuotesBefore(line, i)
  {
  }

  predicate EndsInBackslash(value: string) {
    value != "" && value[|value| - 1] == '\\'
  }

  lemma EscapedEnd(value: string)
    ensures EndsInBackslash(Escape(value)) <==> EndsInBackslash(value)
    ensures Escape(value) == "" <==> value == ""
  {
    hide Escape;
    if value == "" {
      EscapeNothing();
    } else {
      EscapeLast(value);
      CharBackslashes(value[|value| - 1]);
    }
  }

  lemma PlainBody(name: string, value: string)
    requires IsName(name) && '\0' !in value && !NeedsQuotes(value)
    ensures var body := Body(name, value);
            QuotesBefore(body, |body|) == 0 && forall k :: 0 <= k < |body| ==> !StartsComment(body, 0, k)
  {
    hide Assigned, Escape, QuotesBefore;
    NeedsQuotesEscaped(value);
    var e := Escape(value);
    var body := Assigned(name, e);
    forall k | 0 <= k < |body| ensures !IsMark(body[k]) && !IsQuote(body, k) {
      AssignedAt(name, e, k);
      if k < |name| {
        assert name[k] in name;
      } else if |name| + 3 <= k {
        EscapedChars(value, k - |name| - 3);
        AssignedAt(name, e, k - 1);
        assert e[k - |name| - 3] in e;
      }
    }
    NoMoreQuotes(body, 0, |body|);
    NoQuotesYet(body);
  }

  lemma NoQuotesYet(line: string)
    ensures QuotesBefore(line, 0) == 0
  {
  }

  lemma QuotedBody(name: string, value: string)
    requires IsName(name) && '\0' !in value && NeedsQuotes(value)
    ensures var body := Body(name, value);
            && QuotesBefore(body, |body|) == (if EndsInBackslash(value) then 1 else 2)
            && forall k :: 0 <= k < |body| ==> !StartsComment(body, 0, k)
  {
    hide Assigned, Escape, QuotesBefore, StartsComment;
    NeedsQuotesEscaped(value);
    EscapedEnd(value);
    var e := Escape(value);
    var q := "\"" + e + "\"";
    var body := Assigned(name, q);
    var open := |name| + 3;
    AssignedAt(name, q, open);
    AssignedAt(name, q, open - 1);
    forall k | 0 <= k < open ensures body[k] != '"' {
      AssignedAt(name, q, k);
      assert k < |name| ==> name[k] in name;
    }
    OneQuote(body, open);
    forall k | open < k <= open + |e| ensures !IsQuote(body, k) {
      InnerQuote(name, value, k);
    }
    NoMoreQuotes(body, open + 1, open + |e| + 1);
    AssignedAt(name, q, open + |e|);
    AssignedAt(name, q, open + |e| + 1);
    LastQuote(body);
    QuotedLineKept(name, value);
    NothingStarts(body);
  }

  lemma LastQuote(line: string)
    requires |line| > 1 && line[|line| - 1] == '"'
    ensures QuotesBefore(line, |line|) == QuotesBefore(line, |line| - 1) + if line[|line| - 2] == '\\' then 0 else 1
  {
  }

  lemma NothingStarts(line: string)
    requires WithoutComment(line, 0) == line && line != "" && !IsSpace(line[|line| - 1])
    ensures forall k :: 0 <= k < |line| ==> !StartsComment(line, 0, k)
  {
    hide StartsComment;
    var end := CommentStart(line, 0, 0);
    assert |line| <= end;
  }

  lemma BodyChars(name: string, value: string)
    requires IsName(name) && '\0' !in value
    ensures Body(name, value) != "" && !IsSpace(Body(name, value)[0])
    ensures forall c :: c in Body(name, value) ==> c != '\n' && c != '\0'
  {
    hide Assigned, Escape, IsSpace, IsKeyChar;
    AssignedChars(name, value);
    AssignedAt(name, Quoted(Escape(value)), 0);
    assert name[0] in name;
    KeyCharsAreSolid(name[0]);
  }

  lemma CommentedLine(before: string, name: string, value: string, mark: char, tail: string, after: string)
    requires IsName(name) && '\0' !in value && IsMark(mark) && '\0' !in tail && '\n' !in tail
    ensures LineAt(before + Commented(name, value, mark, tail) + after, |before|, true)
         == Line(Body(name, value) + " " + [mark] + TrimRight(tail), |before + Commented(name, value, mark, tail)|)
  {
    hide Body, LineAt, TrimRight, IsSpace;
    var body := Body(name, value);
    var all := body + " " + [mark] + tail;
    var text := before + Commented(name, value, mark, tail) + after;
    var start := |before| + 1;
    BodyChars(name, value);
    EntryStands(before, all, after);
    assert text[start..start + |all|] == all;
    assert all[0] == body[0] && text[start] == text[start..start + |all|][0];
    KeyCharsAreSolid('a');
    LineIn(text, |before|, start, start + |all|, true);
    MarksAreSolid(mark);
    TrimRightWithin(body + " " + [mark], tail);
  }

  lemma MarksAreSolid(c: char)
    ensures IsMark(c) ==> !IsSpace(c)
  {
  }

  lemma BodySides(name: string, value: string, more: string)
    requires IsName(name)
    ensures Sides(Body(name, value) + more) == (name, Some(TrimLeft(" " + (Quoted(Escape(value)) + more))))
  {
    hide Sides, TrimLeft, Escape, Quoted;
    SidesOf(name, " " + (Quoted(Escape(value)) + more));
    assert Body(name, value) + more == name + " =" + (" " + (Quoted(Escape(value)) + more));
  }

  /** A comment behind a printed entry is cut, unless the value is quoted and ends in a backslash. */
  lemma CommentIsCut(before: string, name: string, value: string, mark: char, tail: string, after: string)
    requires IsName(name) && '\0' !in value && IsMark(mark) && '\0' !in tail && '\n' !in tail
    requires !(NeedsQuotes(value) && EndsInBackslash(value))
    ensures VariableAt(before + Commented(name, value, mark, tail) + after, |before|)
         == (Variable(name, Some(if NeedsQuotes(value) then value else StripLeft(value))),
             |before + Commented(name, value, mark, tail)|)
  {
    hide Escape, LineAt, TrimRight, TrimLeft, Commented, Body, NeedsQuotes, ValueAfter, Sides, WithoutComment, QuotesSeen,
         StartsComment, QuotesBefore, StripLeft, IsMark, EndsInBackslash;
    var text, next := before + Commented(name, value, mark, tail) + after, |before + Commented(name, value, mark, tail)|;
    var body := Body(name, value);
    CommentedLine(before, name, value, mark, tail, after);
    BodyParts(name, value);
    CutBehind(body, mark, TrimRight(tail));
    BodySides(name, value, "");
    assert body + "" == body && Quoted(Escape(value)) + "" == Quoted(Escape(value));
    NeedsQuotesEscaped(value);
    var quotes := QuotesSeen(body + " " + [mark] + TrimRight(tail), 0);
    if NeedsQuotes(value) {
      BlankSkipped("\"" + Escape(value) + "\"");
      QuotedValueRead(text, next, value, quotes);
    } else {
      BlankGone(Escape(value));
      TrimEscapedLeft(value);
      PlainValueRead(text, next, StripLeft(value), quotes);
    }
  }

  lemma BlankGone(s: string)
    ensures TrimLeft(" " + s) == TrimLeft(s)
  {
    assert (" " + s)[1..] == s;
  }

  lemma BodyParts(name: string, value: string)
    requires IsName(name) && '\0' !in value
    ensures var body := Body(name, value);
            && (QuotesBefore(body, |body|) % 2 == 0 <==> !(NeedsQuotes(value) && EndsInBackslash(value)))
            && forall k :: 0 <= k < |body| ==> !StartsComment(body, 0, k)
  {
    hide Body, NeedsQuotes, StartsComment, QuotesBefore, EndsInBackslash;
    if NeedsQuotes(value) {
      QuotedBody(name, value);
    } else {
      PlainBody(name, value);
    }
  }

  // ---- A comment that stays -------------------------------------------------

  // What continuation lines add does not touch what stands before the mark.
  lemma {:induction false} ContinueKeeps(text: string, pos: nat, value: string, inQuotes: nat, head: string)
    requires pos <= |text| && head <= value && head != "" && head[|head| - 1] != '\\'
    ensures Continue(text, pos, value, inQuotes).0.Variable? ==>
              var r := Continue(text, pos, value, inQuotes).0.value; r.Some? && head <= r.value
    decreases |text| - pos
  {
    hide LineAt, WithoutComment, QuotesSeen, Unescape, IsContinued;
    var raw := LineAt(text, pos, false);
    if raw.text != "" {
      var open := if inQuotes == 0 then 0 else 1;
      var line, quotes := WithoutComment(raw.text, open), QuotesSeen(raw.text, open);
      if line == "" {
        ContinueKeeps(text, raw.next, value, quotes, head);
      } else if IsContinued(value) && Unescape(line).Some? {
        ContinuedEnd(value);
        var longer := value[..|value| - 1] + Unescape(line).value;
        assert |head| < |value| && head <= longer;
        ContinueKeeps(text, raw.next, longer, quotes, head);
      }
    }
  }

  lemma ContinuedEnd(value: string)
    requires IsContinued(value)
    ensures value != "" && value[|value| - 1] == '\\'
  {
  }

  lemma CommentUnescaped(value: string, mark: char, rest: string)
    requires IsMark(mark)
    ensures var r := Unescape("\"" + Escape(value) + "\"" + " " + [mark] + rest);
            r.Some? ==> value + " " + [mark] <= r.value
  {
    hide Unescape, Escape;
    var tail := "\"" + (" " + ([mark] + rest));
    var s := "\"" + Escape(value) + "\"" + " " + [mark] + rest;
    assert s == "\"" + (Escape(value) + tail);
    UnescapeFirst("\"" + (Escape(value) + tail), Escape(value) + tail);
    UnescapeEscape(value, tail);
    UnescapeFirst(tail, " " + ([mark] + rest));
    UnescapeFirst(" " + ([mark] + rest), [mark] + rest);
    UnescapeFirst([mark] + rest, rest);
    var more := Unescape(rest);
    if more.Some? {
      assert value + ([' '] + ([mark] + more.value)) == value + " " + [mark] + more.value;
    }
  }

  lemma UnescapeFirst(s: string, rest: string)
    requires s != "" && s[0] != '\\' && s[1..] == rest
    ensures Unescape(s) == if s[0] == '"' then Unescape(rest) else Prepend([s[0]], Unescape(rest))
  {
  }

  lemma CommentValue(text: string, next: nat, value: string, mark: char, rest: string, quotes: nat)
    requires next <= |text| && IsMark(mark)
    ensures var r := ValueAfter(text, next, "\"" + Escape(value) + "\"" + " " + [mark] + rest, quotes).0;
            r.Variable? ==> r.value != Some(value)
  {
    hide Unescape, Escape, IsContinued, Continue;
    var rhs := "\"" + Escape(value) + "\"" + " " + [mark] + rest;
    var head := value + " " + [mark];
    CommentUnescaped(value, mark, rest);
    if Unescape(rhs).Some? {
      ContinueKeeps(text, next, Unescape(rhs).value, quotes, head);
    }
  }

  /** Behind a quoted value that ends in a backslash a comment is taken for part of the value. */
  lemma CommentStays(before: string, name: string, value: string, mark: char, tail: string, after: string)
    requires IsName(name) && '\0' !in value && IsMark(mark) && '\0' !in tail && '\n' !in tail
    requires NeedsQuotes(value) && EndsInBackslash(value)
    ensures VariableAt(before + Commented(name, value, mark, tail) + after, |before|).0 != Variable(name, Some(value))
  {
    hide Escape, LineAt, TrimRight, TrimLeft, Commented, Body, NeedsQuotes, ValueAfter, Sides, WithoutComment, QuotesSeen,
         StartsComment, QuotesBefore, IsMark, EndsInBackslash, IsSpace;
    var text, next := before + Commented(name, value, mark, tail) + after, |before + Commented(name, value, mark, tail)|;
    var body, all := Body(name, value), Body(name, value) + " " + [mark] + TrimRight(tail);
    CommentedLine(before, name, value, mark, tail, after);
    BodyParts(name, value);
    CutBehind(body, mark, TrimRight(tail));
    NeedsQuotesEscaped(value);
    var left := WithoutComment(all, 0);
    var rest := left[|body| + 2..];
    assert left == body + " " + [mark] + rest;
    assert left == body + (" " + [mark] + rest);
    BodySides(name, value, " " + [mark] + rest);
    var q := "\"" + Escape(value) + "\"";
    var rhs := q + " " + [mark] + rest;
    assert q + (" " + [mark] + rest) == rhs && rhs[0] == '"';
    QuoteIsSolid();
    BlankSkipped(rhs);
    CommentValue(text, next, value, mark, rest, QuotesSeen(all, 0));
  }

  lemma QuoteIsSolid()
    ensures !IsSpace('"')
  {
  }

  /**
    An entry reads the same with a comment behind it exactly when its value is quoted and does
    not end in a backslash, or is unquoted and loses no space at its end.
  */
  lemma CommentMakesNoDifference(before: string, name: string, value: string, mark: char, tail: string, after: string)
    requires IsName(name) && '\0' !in value && IsMark(mark) && '\0' !in tail && '\n' !in tail
    ensures VariableAt(before + Commented(name, value, mark, tail) + after, |before|).0
         == VariableAt(before + Entry(name, value) + after, |before|).0
       <==> if NeedsQuotes(value) then !EndsInBackslash(value)
            else !IsBareSpace(value[|value| - 1]) || StripLeft(value) == ""
  {
    hide Escape, Commented, Entry, VariableAt, NeedsQuotes, EndsInBackslash, StripLeft, StripRight, IsBareSpace;
    EntryReadBack(before, name, value, after);
    if NeedsQuotes(value) && EndsInBackslash(value) {
      CommentStays(before, name, value, mark, tail, after);
    } else {
      CommentIsCut(before, name, value, mark, tail, after);
      if !NeedsQuotes(value) {
        PlainIsSome(value);
        StrippedEnds(value);
      }
    }
  }

  lemma PlainIsSome(value: string)
    requires !NeedsQuotes(value)
    ensures value != ""
  {
  }

  lemma {:induction false} StripLeftEnd(v: string)
    ensures if StripLeft(v) == "" then forall c :: c in v ==> IsBareSpace(c)
            else v != "" && StripLeft(v)[|StripLeft(v)| - 1] == v[|v| - 1]
  {
    hide IsBareSpace;
    if v != "" && IsBareSpace(v[0]) {
      StripLeftEnd(v[1..]);
      assert v == [v[0]] + v[1..];
    }
  }

  lemma {:induction false} StripRightEnd(v: string)
    ensures if StripRight(v) == "" then forall c :: c in v ==> IsBareSpace(c)
            else !IsBareSpace(StripRight(v)[|StripRight(v)| - 1])
    ensures (forall c :: c in v ==> IsBareSpace(c)) ==> StripRight(v) == ""
  {
    hide IsBareSpace;
    if v != "" {
      assert v == v[..|v| - 1] + [v[|v| - 1]];
      if IsBareSpace(v[|v| - 1]) {
        StripRightEnd(v[..|v| - 1]);
      }
    }
  }

  lemma StrippedEnds(value: string)
    requires value != ""
    ensures StripLeft(StripRight(value)) == StripLeft(value) <==> !IsBareSpace(value[|value| - 1]) || StripLeft(value) == ""
  {
    StripLeftEnd(value);
    StripLeftEnd(StripRight(value));
    StripRightEnd(value);
    hide IsBareSpace;
  }
}
