/** How a configuration file spells a value: escapes, quotes, comments and continuation marks (config_file.c). */
module ConfigText {
  import opened Bytes
  import opened CStrings

  predicate IsLower(c: char) {
    'a' <= c <= 'z'
  }

  predicate IsUpper(c: char) {
    'A' <= c <= 'Z'
  }

  predicate IsKeyChar(c: char) {
    IsLower(c) || IsUpper(c) || '0' <= c <= '9' || c == '-'
  }

  predicate AllKeyChars(s: string) {
    forall c :: c in s ==> IsKeyChar(c)
  }

  // ---- Escaping -------------------------------------------------------------

  function EscapeChar(c: char): string {
    if c == '\n' then "\\n"
    else if c == '\t' then "\\t"
    else if c == BACKSPACE then "\\b"
    else if c == '"' then "\\\""
    else if c == '\\' then "\\\\"
    else [c]
  }

  function Escape(s: string): string {
    if s == "" then "" else EscapeChar(s[0]) + Escape(s[1..])
  }

  // What a backslash followed by `c` stands for.
  function EscapedBy(c: char): Option<char> {
    if c == 'n' then Some('\n')
    else if c == 't' then Some('\t')
    else if c == 'b' then Some(BACKSPACE)
    else if c == '"' then Some('"')
    else if c == '\\' then Some('\\')
    else None
  }

  // The value a piece of line stands for: quotes vanish, escapes are decoded
  // and a final lone backslash is kept as the mark of a continuation.
  function Unescape(s: string): Option<string> {
    if s == "" then Some("")
    else if s[0] == '"' then Unescape(s[1..])
    else if s[0] != '\\' then
      var rest :- Unescape(s[1..]);
      Some([s[0]] + rest)
    else if |s| == 1 then Some("\\")
    else
      var c :- EscapedBy(s[1]);
      var rest :- Unescape(s[2..]);
      Some([c] + rest)
  }

  method EscapeValue(value: string) returns (out: string)
    ensures out == Escape(value)
  {
    out := "";
    var i := 0;
    while i < |value|
      invariant i <= |value|
      invariant Escape(value) == out + Escape(value[i..])
    {
      var next := out + EscapeChar(value[i]);
      assert value[i..][1..] == value[i + 1..];
      assert out + (EscapeChar(value[i]) + Escape(value[i + 1..])) == next + Escape(value[i + 1..]);
      out := next;
      i := i + 1;
    }
  }

  function Prepend(head: string, tail: Option<string>): Option<string> {
    if tail.None? then None else Some(head + tail.value)
  }

  lemma UnescapeStep(s: string, i: nat, out: string)
    requires i < |s|
    ensures s[i] == '"' ==> Unescape(s[i..]) == Unescape(s[i + 1..])
    ensures s[i] != '"' && s[i] != '\\' ==>
              Prepend(out, Unescape(s[i..])) == Prepend(out + [s[i]], Unescape(s[i + 1..]))
    ensures s[i] == '\\' && i + 1 == |s| ==> Unescape(s[i..]) == Some("\\")
    ensures s[i] == '\\' && i + 1 < |s| && EscapedBy(s[i + 1]).None? ==> Unescape(s[i..]) == None
    ensures s[i] == '\\' && i + 1 < |s| && EscapedBy(s[i + 1]).Some? ==>
              Prepend(out, Unescape(s[i..])) == Prepend(out + [EscapedBy(s[i + 1]).value], Unescape(s[i + 2..]))
  {
    assert s[i..][1..] == s[i + 1..];
    if s[i] == '\\' {
      if i + 1 < |s| {
        assert s[i..][2..] == s[i + 2..];
        var rest := Unescape(s[i + 2..]);
        if EscapedBy(s[i + 1]).Some? && rest.Some? {
          ConcatAssociates(out, [EscapedBy(s[i + 1]).value], rest.value);
        }
      }
    } else {
      var rest := Unescape(s[i + 1..]);
      if rest.Some? {
        ConcatAssociates(out, [s[i]], rest.value);
      }
    }
  }

  lemma UnescapeNothing()
    ensures Unescape("") == Some("")
  {
  }

  method FixupLine(line: string) returns (r: Option<string>)
    ensures r == Unescape(line)
  {
    hide Unescape, EscapedBy;
    var out := "";
    var i := 0;
    assert line[0..] == line;
    ghost var whole := Unescape(line);
    assert whole.Some? ==> "" + whole.value == whole.value;
    while i < |line|
      invariant i <= |line|
      invariant Unescape(line) == Prepend(out, Unescape(line[i..]))
    {
      UnescapeStep(line, i, out);
      if line[i] == '"' {
      } else if line[i] != '\\' {
        out := out + [line[i]];
      } else {
        i := i + 1;
        if i == |line| {
          return Some(out + "\\");
        }
        var c := EscapedBy(line[i]);
        if c.None? {
          return None;
        }
        out := out + [c.value];
      }
      i := i + 1;
    }
    assert out + "" == out && line[i..] == "";
    UnescapeNothing();
    r := Some(out);
  }

  // ---- Quotes ---------------------------------------------------------------

  predicate NeedsQuotes(value: string) {
    value == "" || value[0] == ' ' || value[|value| - 1] == ' ' || ';' in value || '#' in value
  }

  method QuotesForValue(value: string) returns (quotes: string)
    ensures quotes == if NeedsQuotes(value) then "\"" else ""
  {
    if value == "" || value[0] == ' ' {
      return "\"";
    }
    var i := 0;
    while i < |value|
      invariant i <= |value|
      invariant forall k :: 0 <= k < i ==> value[k] != ';' && value[k] != '#'
    {
      if value[i] == ';' || value[i] == '#' {
        return "\"";
      }
      i := i + 1;
    }
    if value[i - 1] == ' ' {
      return "\"";
    }
    return "";
  }

  // ---- Comments -------------------------------------------------------------

  // A quote counts unless it opens the line or follows a backslash.
  predicate IsQuote(line: string, i: nat) {
    0 < i < |line| && line[i] == '"' && line[i - 1] != '\\'
  }

  function QuotesBefore(line: string, i: nat): nat {
    if i == 0 then 0 else QuotesBefore(line, i - 1) + if IsQuote(line, i - 1) then 1 else 0
  }

  // A comment starts at a mark that an even number of quotes precedes.
  predicate StartsComment(line: string, inQuotes: nat, i: nat) {
    i < |line| && (line[i] == ';' || line[i] == '#') && (inQuotes + QuotesBefore(line, i)) % 2 == 0
  }

  function CommentStart(line: string, inQuotes: nat, i: nat): (end: nat)
    requires i <= |line|
    ensures i <= end <= |line|
    ensures forall k :: i <= k < end ==> !StartsComment(line, inQuotes, k)
    ensures end < |line| ==> StartsComment(line, inQuotes, end)
    decreases |line| - i
  {
    if i == |line| || StartsComment(line, inQuotes, i) then i else CommentStart(line, inQuotes, i + 1)
  }

  // The line up to its comment, without one last space.
  function WithoutComment(line: string, inQuotes: nat): string {
    var end := CommentStart(line, inQuotes, 0);
    if 0 < end && IsSpace(line[end - 1]) then line[..end - 1] else line[..end]
  }

  function QuotesSeen(line: string, inQuotes: nat): nat {
    inQuotes + QuotesBefore(line, CommentStart(line, inQuotes, 0))
  }

  lemma {:induction false} FirstCommentIs(line: string, inQuotes: nat, i: nat, end: nat)
    requires i <= end <= |line|
    requires forall k :: i <= k < end ==> !StartsComment(line, inQuotes, k)
    requires end < |line| ==> StartsComment(line, inQuotes, end)
    ensures CommentStart(line, inQuotes, i) == end
    decreases end - i
  {
    if i < end {
      FirstCommentIs(line, inQuotes, i + 1, end);
    }
  }

  method StripComments(line: string, inQuotes: nat) returns (cut: string, quotes: nat)
    ensures cut == WithoutComment(line, inQuotes)
    ensures quotes == QuotesSeen(line, inQuotes)
  {
    quotes := inQuotes;
    var ptr := 0;
    while ptr < |line|
      invariant ptr <= |line|
      invariant quotes == inQuotes + QuotesBefore(line, ptr)
      invariant forall k :: 0 <= k < ptr ==> !StartsComment(line, inQuotes, k)
    {
      if line[ptr] == '"' && 0 < ptr && line[ptr - 1] != '\\' {
        quotes := quotes + 1;
      }
      if (line[ptr] == ';' || line[ptr] == '#') && quotes % 2 == 0 {
        break;
      }
      ptr := ptr + 1;
    }
    FirstCommentIs(line, inQuotes, 0, ptr);
    if 0 < ptr && IsSpace(line[ptr - 1]) {
      ptr := ptr - 1;
    }
    cut := line[..ptr];
  }

  // ---- Continuation ---------------------------------------------------------

  function Backslashes(s: string): (n: nat)
    ensures n <= |s|
    ensures forall k :: |s| - n <= k < |s| ==> s[k] == '\\'
    ensures n < |s| ==> s[|s| - n - 1] != '\\'
  {
    if s == "" || s[|s| - 1] != '\\' then 0 else 1 + Backslashes(s[..|s| - 1])
  }

  // An odd number of final backslashes continues the value on the next line,
  // unless there is nothing else.
  predicate IsContinued(s: string) {
    Backslashes(s) < |s| && Backslashes(s) % 2 == 1
  }

  lemma {:induction false} BackslashesAre(s: string, n: nat)
    requires n <= |s|
    requires forall k :: |s| - n <= k < |s| ==> s[k] == '\\'
    requires n < |s| ==> s[|s| - n - 1] != '\\'
    ensures Backslashes(s) == n
  {
    if n > 0 {
      BackslashesAre(s[..|s| - 1], n - 1);
    }
  }

  method IsMultilineVar(s: string) returns (r: bool)
    ensures r == IsContinued(s)
  {
    var count, end := 0, |s|;
    while end > 0 && s[end - 1] == '\\'
      invariant 0 <= end == |s| - count
      invariant forall k :: end <= k < |s| ==> s[k] == '\\'
    {
      count := count + 1;
      end := end - 1;
    }
    BackslashesAre(s, count);
    r := end > 0 && count % 2 == 1;
  }
}
