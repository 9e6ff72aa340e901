/** What config_write prints for a value, parse_variable reads back. */
module ConfigRoundTrip {
  import opened Bytes
  import opened CStrings
  import opened ConfigText
  import opened ConfigReader
  import opened ConfigContinuation

  // ---- Escapes --------------------------------------------------------------

  lemma {:induction false} EscapeConcat(a: string, b: string)
    ensures Escape(a + b) == Escape(a) + Escape(b)
  {
    if a == "" {
      assert a + b == b;
    } else {
      assert (a + b)[1..] == a[1..] + b;
      EscapeConcat(a[1..], b);
    }
  }

  lemma EscapeFirst(v: string)
    requires v != ""
    ensures Escape(v) == EscapeChar(v[0]) + Escape(v[1..])
  {
  }

  lemma EscapeLast(v: string)
    requires v != ""
    ensures Escape(v) == Escape(v[..|v| - 1]) + EscapeChar(v[|v| - 1])
  {
    hide EscapeChar;
    var last := [v[|v| - 1]];
    assert v == v[..|v| - 1] + last;
    EscapeConcat(v[..|v| - 1], last);
    assert last[1..] == "";
  }

  lemma UnescapeChar(c: char, tail: string)
    ensures Unescape(EscapeChar(c) + tail) == Prepend([c], Unescape(tail))
  {
    var e := EscapeChar(c);
    var s := e + tail;
    assert s[|e|..] == tail;
    assert s[0] == e[0] && (|e| == 2 ==> s[1] == e[1]);
  }

  lemma {:induction false} UnescapeEscape(v: string, tail: string)
    ensures Unescape(Escape(v) + tail) == Prepend(v, Unescape(tail))
  {
    hide Unescape, EscapeChar;
    var rest := Unescape(tail);
    if v == "" {
      assert Escape(v) + tail == tail;
      assert rest.Some? ==> "" + rest.value == rest.value;
    } else {
      var e, more := EscapeChar(v[0]), Escape(v[1..]);
      ConcatAssociates(e, more, tail);
      UnescapeChar(v[0], more + tail);
      UnescapeEscape(v[1..], tail);
      if rest.Some? {
        ConcatAssociates([v[0]], v[1..], rest.value);
        assert [v[0]] + v[1..] == v;
      }
    }
  }

  // Every quote in an escaped value follows a backslash; newline and NUL do not occur.
  lemma {:induction false} EscapedChars(v: string, k: nat)
    requires k < |Escape(v)| && '\0' !in v
    ensures Escape(v)[k] == '"' ==> 0 < k && Escape(v)[k - 1] == '\\'
    ensures Escape(v)[k] != '\n' && Escape(v)[k] != '\0'
  {
    var e := EscapeChar(v[0]);
    if |e| <= k {
      EscapedChars(v[1..], k - |e|);
    }
  }

  lemma {:induction false} EscapeKeeps(v: string, c: char)
    requires c == ';' || c == '#'
    ensures c in Escape(v) <==> c in v
  {
    if v != "" {
      EscapeKeeps(v[1..], c);
      assert v == [v[0]] + v[1..];
    }
  }

  lemma EscapeNothing()
    ensures Escape("") == "" && Backslashes("") == 0
  {
  }

  lemma BackslashesAfter(s: string, e: string)
    requires e != ""
    ensures e[|e| - 1] != '\\' ==> Backslashes(s + e) == 0
    ensures (forall c :: c in e ==> c == '\\') ==> Backslashes(s + e) == Backslashes(s) + |e|
  {
    assert e[|e| - 1] in e;
    if e[|e| - 1] != '\\' {
      BackslashesAre(s + e, 0);
    } else if forall c :: c in e ==> c == '\\' {
      var n := Backslashes(s);
      var t := s + e;
      forall k | |t| - n - |e| <= k < |t| ensures t[k] == '\\' {
        assert if k < |s| then t[k] == s[k] else t[k] == e[k - |s|] && e[k - |s|] in e;
      }
      BackslashesAre(t, n + |e|);
    }
  }

  lemma CharBackslashes(c: char)
    ensures var e := EscapeChar(c);
            0 < |e| && if c == '\\' then e == "\\\\" else e[|e| - 1] != '\\'
  {
  }

  lemma {:induction false} EscapedBackslashes(v: string)
    ensures Backslashes(Escape(v)) == 2 * Backslashes(v)
    ensures Backslashes(v) == |v| <==> Backslashes(Escape(v)) == |Escape(v)|
  {
    hide Backslashes, Escape, EscapeChar;
    if v == "" {
      EscapeNothing();
    } else {
      var head, last := v[..|v| - 1], [v[|v| - 1]];
      assert v == head + last;
      EscapeLast(v);
      EscapedBackslashes(head);
      CharBackslashes(last[0]);
      BackslashesAfter(Escape(head), EscapeChar(last[0]));
      BackslashesAfter(head, last);
    }
  }

  lemma NeedsQuotesEscaped(v: string)
    ensures NeedsQuotes(Escape(v)) <==> NeedsQuotes(v)
  {
    hide Escape;
    EscapeKeeps(v, ';');
    EscapeKeeps(v, '#');
    if v == "" {
      EscapeNothing();
    } else {
      EscapeLast(v);
      EscapeFirst(v);
    }
  }

  // ---- Spaces ---------------------------------------------------------------

  // A space that is printed as it is: blank, carriage return, vertical tab or form feed.
  predicate IsBareSpace(c: char) {
    IsSpace(c) && EscapeChar(c) == [c]
  }

  function StripRight(v: string): (r: string)
    ensures r <= v
  {
    if v != "" && IsBareSpace(v[|v| - 1]) then StripRight(v[..|v| - 1]) else v
  }

  function StripLeft(v: string): (r: string)
    ensures |r| <= |v|
  {
    if v != "" && IsBareSpace(v[0]) then StripLeft(v[1..]) else v
  }

  lemma TrimRightAfter(s: string, e: string)
    requires e != ""
    ensures !IsSpace(e[|e| - 1]) ==> TrimRight(s + e) == s + e
    ensures |e| == 1 && IsSpace(e[0]) ==> TrimRight(s + e) == TrimRight(s)
  {
    assert |e| == 1 ==> (s + e)[..|s|] == s;
  }

  lemma {:induction false} TrimEscapedRight(v: string)
    ensures TrimRight(Escape(v)) == Escape(StripRight(v))
  {
    hide TrimRight, Escape;
    if v == "" {
      EscapeNothing();
    } else {
      EscapeLast(v);
      TrimRightAfter(Escape(v[..|v| - 1]), EscapeChar(v[|v| - 1]));
      if IsBareSpace(v[|v| - 1]) {
        TrimEscapedRight(v[..|v| - 1]);
      }
    }
  }

  lemma {:induction false} TrimEscapedLeft(v: string)
    ensures TrimLeft(Escape(v)) == Escape(StripLeft(v))
  {
    if v != "" && IsBareSpace(v[0]) {
      assert Escape(v)[1..] == Escape(v[1..]);
      TrimEscapedLeft(v[1..]);
    }
  }

  // ---- The printed line -----------------------------------------------------

  function Quoted(value: string): string {
    if NeedsQuotes(value) then "\"" + value + "\"" else value
  }

  // The tail of a line from the equals sign on; `Quoted(Escape(value))` is printed there.
  function Assigned(name: string, spelled: string): string {
    name + " =" + (" " + spelled)
  }

  function Entry(name: string, value: string): string {
    "\t" + Assigned(name, Quoted(Escape(value))) + "\n"
  }

  predicate IsName(name: string) {
    name != "" && AllKeyChars(name)
  }

  // The line whose text `body` stands at `start`, after the spaces from `pos`.
  lemma LineIn(text: string, pos: nat, start: nat, end: nat, skip: bool)
    requires pos <= start < end < |text| && text[end] == '\n'
    requires if skip then !IsSpace(text[start]) else pos == start
    requires forall c :: c in text[pos..start] ==> IsSpace(c)
    requires forall c :: c in text[start..end] ==> c != '\n' && c != '\0'
    ensures LineAt(text, pos, skip) == Line(TrimRight(text[start..end]), end + 1)
  {
    hide IsSpace, TrimRight, SkipSpace, LineEnd;
    forall k | pos <= k < start ensures IsSpace(At(text, k)) {
      assert text[pos..start][k - pos] in text[pos..start];
    }
    if skip {
      SpacesSkipped(text, pos, start);
    }
    forall k | start <= k < end ensures !EndsLine(text, k) {
      assert text[start..end][k - start] in text[start..end];
    }
    LineEndsAt(text, start, end);
  }

  lemma KeyCharsAreSolid(c: char)
    ensures IsKeyChar(c) ==> !IsSpace(c)
    ensures IsSpace('\t')
  {
  }

  lemma AssignedAt(name: string, spelled: string, k: nat)
    ensures |Assigned(name, spelled)| == |name| + 3 + |spelled|
    ensures k < |name| ==> Assigned(name, spelled)[k] == name[k]
    ensures |name| <= k < |name| + 3 ==> Assigned(name, spelled)[k] == " = "[k - |name|]
    ensures |name| + 3 <= k < |Assigned(name, spelled)| ==>
              Assigned(name, spelled)[k] == spelled[k - |name| - 3]
  {
  }

  lemma AssignedChars(name: string, value: string)
    requires IsName(name) && '\0' !in value
    ensures forall c :: c in Assigned(name, Quoted(Escape(value))) ==> c != '\n' && c != '\0'
  {
    hide Assigned, Escape;
    var e := Escape(value);
    var body := Assigned(name, Quoted(e));
    forall k | 0 <= k < |body| ensures body[k] != '\n' && body[k] != '\0' {
      AssignedAt(name, Quoted(e), k);
      if |name| <= k {
        var i := k - |name| - if NeedsQuotes(e) then 4 else 3;
        if 0 <= i < |e| {
          EscapedChars(value, i);
        }
      } else {
        assert name[k] in name;
      }
    }
  }

  // ---- Comments do not cut it -----------------------------------------------

  lemma PlainLineKept(line: string, inQuotes: nat)
    requires ';' !in line && '#' !in line && (line != "" ==> !IsSpace(line[|line| - 1]))
    ensures WithoutComment(line, inQuotes) == line
  {
    FirstCommentIs(line, inQuotes, 0, |line|);
  }

  lemma {:induction false} NoMoreQuotes(line: string, i: nat, j: nat)
    requires i <= j
    requires forall k :: i <= k < j ==> !IsQuote(line, k)
    ensures QuotesBefore(line, j) == QuotesBefore(line, i)
  {
    if i < j {
      NoMoreQuotes(line, i, j - 1);
    }
  }

  lemma QuotedLineKept(name: string, value: string)
    requires IsName(name) && '\0' !in value
    ensures WithoutComment(Assigned(name, "\"" + Escape(value) + "\""), 0) == Assigned(name, "\"" + Escape(value) + "\"")
  {
    hide Assigned, Escape, IsQuote, QuotesBefore;
    var e := Escape(value);
    var q := "\"" + e + "\"";
    var line := Assigned(name, q);
    var open := |name| + 3;
    AssignedAt(name, q, open);
    forall k | 0 <= k < open ensures line[k] != '"' && line[k] != ';' && line[k] != '#' {
      AssignedAt(name, q, k);
      assert k < |name| ==> name[k] in name;
    }
    forall k | open < k <= open + |e| ensures !IsQuote(line, k) {
      InnerQuote(name, value, k);
    }
    AssignedAt(name, q, open - 1);
    AssignedAt(name, q, open + |e| + 1);
    OneQuote(line, open);
    forall k | 0 <= k < |line| ensures !StartsComment(line, 0, k) {
      if open < k <= open + |e| {
        NoMoreQuotes(line, open + 1, k);
      }
    }
    FirstCommentIs(line, 0, 0, |line|);
  }

  lemma OneQuote(line: string, open: nat)
    requires 0 < open < |line| && line[open] == '"' && line[open - 1] == ' '
    requires forall k :: 0 <= k < open ==> line[k] != '"'
    ensures QuotesBefore(line, open + 1) == 1
  {
    NoMoreQuotes(line, 0, open);
  }

  lemma InnerQuote(name: string, value: string, k: nat)
    requires '\0' !in value && |name| + 3 < k <= |name| + 3 + |Escape(value)|
    ensures !IsQuote(Assigned(name, "\"" + Escape(value) + "\""), k)
  {
    hide Assigned, Escape;
    var e := Escape(value);
    var i := k - |name| - 4;
    EscapedChars(value, i);
    AssignedAt(name, "\"" + e + "\"", k);
    AssignedAt(name, "\"" + e + "\"", k - 1);
  }

  // ---- Name and value are told apart ----------------------------------------

  lemma SidesOf(name: string, tail: string)
    requires IsName(name)
    ensures Sides(name + " =" + tail) == (name, Some(TrimLeft(tail)))
  {
    hide TrimLeft, IndexOf;
    var line := name + " =" + tail;
    var equals := |name| + 1;
    forall k | 0 <= k < equals ensures line[k] != '=' {
      assert k < |name| ==> line[k] == name[k] && name[k] in name;
    }
    FirstIndexIs(line, '=', equals);
    assert line[equals + 1..] == tail;
    assert name[|name| - 1] in name;
    assert line[..|name|] == name;
    assert NameOf(line, |name|) == line[..|name|];
  }

  // ---- The value is read back -----------------------------------------------

  lemma QuotedValueRead(text: string, next: nat, value: string, quotes: nat)
    requires next <= |text|
    ensures ValueAfter(text, next, "\"" + Escape(value) + "\"", quotes) == (Variable("", Some(value)), next)
  {
    hide Escape;
    var q := "\"" + Escape(value) + "\"";
    BackslashesAre(q, 0);
    var inner := Escape(value) + "\"";
    assert q[1..] == inner;
    assert Unescape("\"") == Some("");
    UnescapeEscape(value, "\"");
    assert value + "" == value;
  }

  lemma PlainValueRead(text: string, next: nat, value: string, quotes: nat)
    requires next <= |text|
    ensures ValueAfter(text, next, Escape(value), quotes) == (Variable("", Some(value)), next)
  {
    hide Escape, Unescape, Backslashes, Continue;
    EscapedBackslashes(value);
    UnescapeEscape(value, "");
    UnescapeNothing();
    assert Escape(value) + "" == Escape(value) && value + "" == value;
    if value == "" {
      EscapeNothing();
    }
  }

  // What comes back of a value: spaces printed bare at either end are lost.
  function ReadBack(value: string): string {
    if NeedsQuotes(value) then value else StripLeft(StripRight(value))
  }

  lemma {:induction false} TrimRightWithin(s: string, tail: string)
    requires s != "" && !IsSpace(s[|s| - 1])
    ensures TrimRight(s + tail) == s + TrimRight(tail)
  {
    if tail == "" {
      assert s + tail == s;
    } else {
      var head, last := tail[..|tail| - 1], [tail[|tail| - 1]];
      assert s + tail == (s + head) + last && tail == head + last;
      TrimRightAfter(s + head, last);
      TrimRightAfter(head, last);
      if IsSpace(last[0]) {
        TrimRightWithin(s, head);
      }
    }
  }

  lemma TrimBlank(spelled: string)
    ensures TrimLeft(TrimRight(" " + spelled)) == TrimLeft(TrimRight(spelled))
  {
    TrimRightBlank(spelled);
    var t := TrimRight(spelled);
    assert (" " + t)[1..] == t;
  }

  lemma {:induction false} TrimRightBlank(s: string)
    ensures TrimRight(" " + s) == if TrimRight(s) == "" then "" else " " + TrimRight(s)
  {
    if s == "" {
      assert TrimRight(" ") == TrimRight("");
    } else {
      var head, last := s[..|s| - 1], [s[|s| - 1]];
      assert " " + s == (" " + head) + last && s == head + last;
      TrimRightAfter(" " + head, last);
      TrimRightAfter(head, last);
      if IsSpace(last[0]) {
        TrimRightBlank(head);
      }
    }
  }

  lemma TrimRightKeepsNone(s: string, c: char)
    requires c !in s
    ensures c !in TrimRight(s)
  {
  }

  lemma QuotedLineRead(text: string, pos: nat, name: string, value: string, next: nat)
    requires pos <= |text| && next <= |text| && IsName(name) && '\0' !in value && NeedsQuotes(value)
    requires LineAt(text, pos, true) == Line(TrimRight(Assigned(name, Quoted(Escape(value)))), next)
    ensures VariableAt(text, pos) == (Variable(name, Some(value)), next)
  {
    hide Escape, NeedsQuotes, LineAt, WithoutComment, TrimLeft, TrimRight, ValueAfter, Sides, QuotesSeen;
    NeedsQuotesEscaped(value);
    var q := "\"" + Escape(value) + "\"";
    TrimRightAfter(name + " =" + (" \"" + Escape(value)), "\"");
    assert Assigned(name, q) == name + " =" + (" \"" + Escape(value)) + "\"";
    QuotedLineKept(name, value);
    SidesOf(name, " " + q);
    BlankSkipped(q);
    QuotedValueRead(text, next, value, QuotesSeen(Assigned(name, q), 0));
  }

  lemma BlankSkipped(s: string)
    requires s != "" && !IsSpace(s[0])
    ensures TrimLeft(" " + s) == s
  {
    assert (" " + s)[1..] == s;
  }

  lemma PlainLineRead(text: string, pos: nat, name: string, value: string, next: nat)
    requires pos <= |text| && next <= |text| && IsName(name) && '\0' !in value && !NeedsQuotes(value)
    requires LineAt(text, pos, true) == Line(TrimRight(Assigned(name, Quoted(Escape(value)))), next)
    ensures VariableAt(text, pos) == (Variable(name, Some(StripLeft(StripRight(value)))), next)
  {
    hide Escape, LineAt, WithoutComment, TrimLeft, TrimRight, ValueAfter, Sides, QuotesSeen;
    NeedsQuotesEscaped(value);
    var e := Escape(value);
    var line := TrimRight(Assigned(name, e));
    forall c | c == ';' || c == '#' ensures c !in line {
      assert c !in name && c !in e;
      TrimRightKeepsNone(Assigned(name, e), c);
    }
    PlainLineKept(line, 0);
    TrimRightWithin(name + " =", " " + e);
    SidesOf(name, TrimRight(" " + e));
    TrimBlank(e);
    TrimEscapedRight(value);
    TrimEscapedLeft(StripRight(value));
    PlainValueRead(text, next, StripLeft(StripRight(value)), QuotesSeen(line, 0));
  }

  lemma EntryStands(before: string, body: string, after: string)
    ensures var text, start := before + ("\t" + body + "\n") + after, |before| + 1;
            && start + |body| < |text|
            && text[|before|..start] == "\t"
            && text[start..start + |body|] == body && text[start + |body|] == '\n'
  {
    var mid := "\t" + body + "\n";
    Slice(before, mid, after, 0, 1);
    Slice(before, mid, after, 1, 1 + |body|);
    assert mid[1..1 + |body|] == body;
  }

  lemma Slice(a: string, b: string, c: string, i: nat, j: nat)
    requires i <= j <= |b|
    ensures (a + b + c)[|a| + i..|a| + j] == b[i..j]
  {
  }

  lemma EntryIs(name: string, value: string)
    ensures Entry(name, value) == "\t" + Assigned(name, Quoted(Escape(value))) + "\n"
  {
  }

  // An entry printed anywhere in a file is read back under its name, up to the spaces it bares.
  lemma EntryReadBack(before: string, name: string, value: string, after: string)
    requires IsName(name) && '\0' !in value
    ensures VariableAt(before + Entry(name, value) + after, |before|)
         == (Variable(name, Some(ReadBack(value))), |before + Entry(name, value)|)
  {
    hide Escape, LineAt, TrimRight, Quoted, Assigned, VariableAt, StripLeft, StripRight, NeedsQuotes, IsSpace,
         IsKeyChar, Entry;
    var body := Assigned(name, Quoted(Escape(value)));
    var text := before + Entry(name, value) + after;
    var pos, start, end := |before|, |before| + 1, |before| + 1 + |body|;
    EntryIs(name, value);
    EntryStands(before, body, after);
    AssignedChars(name, value);
    AssignedAt(name, Quoted(Escape(value)), 0);
    assert name[0] in name && body[0] == text[start..end][0];
    KeyCharsAreSolid(name[0]);
    LineIn(text, pos, start, end, true);
    if NeedsQuotes(value) {
      QuotedLineRead(text, pos, name, value, end + 1);
    } else {
      PlainLineRead(text, pos, name, value, end + 1);
    }
  }

  // Carriage return, vertical tab or form feed.
  predicate IsOddSpace(c: char) {
    c == '\r' || c == VTAB || c == FEED
  }

  // The value is empty, has a blank at an end or a comment mark, or has no odd space at an end.
  predicate EndsAreSafe(value: string) {
    || value == "" || value[0] == ' ' || value[|value| - 1] == ' ' || ';' in value || '#' in value
    || (!IsOddSpace(value[0]) && !IsOddSpace(value[|value| - 1]))
  }

  lemma ReadBackIsExact(value: string)
    ensures ReadBack(value) == value <==> EndsAreSafe(value)
  {
    if value != "" {
      OddSpacesAreBare(value[0]);
      OddSpacesAreBare(value[|value| - 1]);
      hide IsBareSpace, IsOddSpace;
    }
  }

  lemma OddSpacesAreBare(c: char)
    ensures IsBareSpace(c) <==> c == ' ' || IsOddSpace(c)
  {
  }

  method PrintVariable(name: string, value: string) returns (line: string)
    ensures line == Entry(name, value)
  {
    hide Escape, NeedsQuotes;
    var escaped := EscapeValue(value);
    var q := QuotesForValue(escaped);
    line := "\t" + name + " = " + q + escaped + q + "\n";
    assert q == "" ==> q + escaped + q == escaped;
    assert line == "\t" + (name + " =" + (" " + (q + escaped + q))) + "\n";
  }

  /** A printed variable is read back with its name and value, and no more is read, exactly when its ends are safe. */
  lemma VariableRoundTrip(before: string, name: string, value: string, after: string)
    requires IsName(name) && '\0' !in value
    ensures VariableAt(before + Entry(name, value) + after, |before|)
         == (Variable(name, Some(value)), |before + Entry(name, value)|)
       <==> EndsAreSafe(value)
  {
    hide *;
    EntryReadBack(before, name, value, after);
    ReadBackIsExact(value);
  }

  // ---- Values on two lines --------------------------------------------------

  function TwoLines(name: string, a: string, b: string): string {
    "\t" + Assigned(name, Escape(a) + "\\") + "\n" + Escape(b) + "\n"
  }

  lemma ContinuedLineRead(text: string, pos: nat, name: string, a: string, next: nat) returns (quotes: nat)
    requires pos <= |text| && next <= |text| && IsName(name) && '\0' !in a
    requires !NeedsQuotes(a) && !IsBareSpace(a[0])
    requires LineAt(text, pos, true) == Line(TrimRight(Assigned(name, Escape(a) + "\\")), next)
    ensures VariableAt(text, pos) == Named(name, ValueAfter(text, next, Escape(a) + "\\", quotes))
  {
    hide Escape, LineAt, WithoutComment, TrimLeft, TrimRight, Sides, QuotesSeen, ValueAfter, Named, IsName;
    var e := Escape(a) + "\\";
    var line := Assigned(name, e);
    TrimRightAfter(name + " =" + (" " + Escape(a)), "\\");
    assert line == name + " =" + (" " + Escape(a)) + "\\";
    forall c | c == ';' || c == '#' ensures c !in line {
      EscapeKeeps(a, c);
      NoMarkInName(name, c);
    }
    PlainLineKept(line, 0);
    SidesOf(name, " " + e);
    EscapeFirst(a);
    assert e[0] == EscapeChar(a[0])[0];
    BlankSkipped(e);
    quotes := QuotesSeen(line, 0);
  }

  lemma NoMarkInName(name: string, c: char)
    requires IsName(name) && (c == ';' || c == '#')
    ensures c !in name
  {
  }

  lemma MarkContinues(s: string)
    ensures IsContinued(s + "\\") <==> Backslashes(s) < |s| && Backslashes(s) % 2 == 0
  {
    hide Backslashes, IsContinued;
    BackslashesAfter(s, "\\");
    ContinuedBy(s + "\\", Backslashes(s) + 1);
  }

  lemma ContinuedBy(s: string, n: nat)
    requires n == Backslashes(s)
    ensures IsContinued(s) <==> n < |s| && n % 2 == 1
  {
  }

  lemma MarkedValue(a: string)
    ensures Unescape(Escape(a) + "\\") == Some(a + "\\")
    ensures IsContinued(Escape(a) + "\\") <==> Backslashes(a) < |a|
  {
    hide Escape, Unescape, Backslashes, IsContinued;
    EscapedBackslashes(a);
    MarkContinues(Escape(a));
    UnescapeEscape(a, "\\");
    LoneBackslash();
  }

  lemma LoneBackslash()
    ensures Unescape("\\") == Some("\\")
  {
  }

  lemma SecondLineRead(text: string, pos: nat, a: string, b: string, next: nat, quotes: nat) returns (more: nat)
    requires pos <= |text| && next <= |text|
    requires b != "" && ';' !in b && '#' !in b && !IsBareSpace(b[|b| - 1])
    requires LineAt(text, pos, false) == Line(TrimRight(Escape(b)), next)
    requires Backslashes(a) < |a|
    ensures Continue(text, pos, a + "\\", quotes)
         == if Backslashes(a) % 2 == 1 then (AssertionFailed, next)
            else if IsContinued(a + b) then Continue(text, next, a + b, more)
            else (Variable("", Some(a + b)), next)
  {
    hide Escape, Unescape, Backslashes, TrimRight, WithoutComment, LineAt, IsContinued, QuotesSeen;
    MarkContinues(a);
    EscapeLast(b);
    TrimRightAfter(Escape(b[..|b| - 1]), EscapeChar(b[|b| - 1]));
    EscapeKeeps(b, ';');
    EscapeKeeps(b, '#');
    var open := if quotes == 0 then 0 else 1;
    PlainLineKept(Escape(b), open);
    UnescapeEscape(b, "");
    UnescapeNothing();
    assert Escape(b) + "" == Escape(b) && b + "" == b;
    assert (a + "\\")[..|a|] == a;
    more := QuotesSeen(Escape(b), open);
  }

  // A second line that is spelled plainly.
  predicate IsTail(b: string) {
    b != "" && '\0' !in b && ';' !in b && '#' !in b && !IsBareSpace(b[|b| - 1])
  }

  lemma FirstLineFrom(text: string, pos: nat, name: string, a: string, tail: string)
    requires IsName(name) && '\0' !in a
    requires StandsAt(text, pos, Assigned(name, Escape(a) + "\\"), tail)
    ensures LineAt(text, pos, true)
         == Line(TrimRight(Assigned(name, Escape(a) + "\\")), pos + |name| + |Escape(a)| + 6)
  {
    hide Escape, LineAt, TrimRight, Assigned, IsSpace, IsKeyChar;
    var line := Assigned(name, Escape(a) + "\\");
    var start := pos + 1;
    MarkedChars(name, a);
    AssignedAt(name, Escape(a) + "\\", 0);
    assert name[0] in name && line[0] == text[start..start + |line|][0];
    KeyCharsAreSolid(name[0]);
    LineIn(text, pos, start, start + |line|, true);
  }

  lemma SecondLineFrom(text: string, pos: nat, line: string, b: string)
    requires IsTail(b) && StandsAt(text, pos, line, Escape(b))
    ensures var next := pos + |line| + 2;
            LineAt(text, next, false) == Line(TrimRight(Escape(b)), next + |Escape(b)| + 1)
  {
    hide Escape, LineAt, TrimRight, IsSpace;
    var tail := Escape(b);
    var next := pos + |line| + 2;
    forall c | c in tail ensures c != '\n' && c != '\0' {
      var k :| 0 <= k < |tail| && tail[k] == c;
      EscapedChars(b, k);
    }
    EscapeFirst(b);
    LineIn(text, next, next, next + |tail|, false);
  }

  predicate StandsAt(text: string, pos: nat, line: string, tail: string) {
    var start := pos + 1;
    var next := start + |line| + 1;
    && |text| > next + |tail|
    && text[pos..start] == "\t"
    && text[start..start + |line|] == line && text[start + |line|] == '\n'
    && text[next..next + |tail|] == tail && text[next + |tail|] == '\n'
  }

  lemma TwoLinesSplit(before: string, name: string, a: string, b: string, after: string)
    requires IsName(name) && '\0' !in a && IsTail(b)
    ensures var text := before + TwoLines(name, a, b) + after;
            var next := |before| + |name| + |Escape(a)| + 6;
            && LineAt(text, |before|, true) == Line(TrimRight(Assigned(name, Escape(a) + "\\")), next)
            && LineAt(text, next, false) == Line(TrimRight(Escape(b)), |before + TwoLines(name, a, b)|)
            && next < |before + TwoLines(name, a, b)|
  {
    hide Escape, LineAt, TrimRight, Assigned, IsName, IsTail, StandsAt;
    TwoLinesAt(before, Assigned(name, Escape(a) + "\\"), Escape(b), after);
    FirstLineFrom(before + TwoLines(name, a, b) + after, |before|, name, a, Escape(b));
    SecondLineFrom(before + TwoLines(name, a, b) + after, |before|, Assigned(name, Escape(a) + "\\"), b);
    AssignedAt(name, Escape(a) + "\\", 0);
  }

  lemma TwoLinesAt(before: string, line: string, tail: string, after: string)
    ensures StandsAt(before + ("\t" + line + "\n" + tail + "\n") + after, |before|, line, tail)
  {
    var mid := "\t" + line + "\n" + tail + "\n";
    Slice(before, mid, after, 0, 1);
    Slice(before, mid, after, 1, 1 + |line|);
    Slice(before, mid, after, |line| + 2, |line| + 2 + |tail|);
    assert mid[1..1 + |line|] == line;
    assert mid[|line| + 2..|line| + 2 + |tail|] == tail;
  }

  lemma MarkedChars(name: string, a: string)
    requires IsName(name) && '\0' !in a
    ensures forall c :: c in Assigned(name, Escape(a) + "\\") ==> c != '\n' && c != '\0'
  {
    hide Assigned, Escape;
    var spelled := Escape(a) + "\\";
    var body := Assigned(name, spelled);
    forall k | 0 <= k < |body| ensures body[k] != '\n' && body[k] != '\0' {
      AssignedAt(name, spelled, k);
      if k < |name| {
        assert name[k] in name;
      } else if |name| + 3 <= k < |body| - 1 {
        EscapedChars(a, k - |name| - 3);
      }
    }
  }

  /**
    A value written on two lines is read as one exactly when the first part is not all
    backslashes and ends in an even number of them, and the whole does not look continued
    itself. With an odd number, and only then, the assertion fails.
  */
  lemma TwoLinesJoin(before: string, name: string, a: string, b: string, after: string)
    requires IsName(name) && '\0' !in a && !NeedsQuotes(a) && !IsBareSpace(a[0]) && IsTail(b)
    ensures VariableAt(before + TwoLines(name, a, b) + after, |before|)
         == (Variable(name, Some(a + b)), |before + TwoLines(name, a, b)|)
       <==> Backslashes(a) < |a| && Backslashes(a) % 2 == 0 && !IsContinued(a + b)
    ensures VariableAt(before + TwoLines(name, a, b) + after, |before|).0 == AssertionFailed
       <==> Backslashes(a) < |a| && Backslashes(a) % 2 == 1
  {
    hide Escape, Unescape, Backslashes, TrimRight, WithoutComment, LineAt, IsContinued, QuotesSeen, VariableAt,
         Continue, TwoLines, NeedsQuotes, IsBareSpace, Follows;
    TwoLinesSplit(before, name, a, b, after);
    var text := before + TwoLines(name, a, b) + after;
    var next, end := |before| + |name| + |Escape(a)| + 6, |before + TwoLines(name, a, b)|;
    var quotes := ContinuedLineRead(text, |before|, name, a, next);
    MarkedValue(a);
    if Backslashes(a) < |a| {
      assert VariableAt(text, |before|) == Named(name, Continue(text, next, a + "\\", quotes));
      var more := SecondLineRead(text, next, a, b, end, quotes);
      if Backslashes(a) % 2 == 1 {
        assert VariableAt(text, |before|) == (AssertionFailed, end);
      } else if IsContinued(a + b) {
        var rest := Continue(text, end, a + b, more);
        ContinueAsserts(text, end, a + b, more);
        assert rest.0.Variable? ==> end < rest.1;
        assert VariableAt(text, |before|) == Named(name, rest);
      } else {
        assert VariableAt(text, |before|) == (Variable(name, Some(a + b)), end);
      }
    }
  }
}
