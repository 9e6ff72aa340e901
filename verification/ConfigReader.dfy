/** Reading one variable of a configuration file (config_file.c). */
module ConfigReader {
  import opened Bytes
  import opened CStrings
  import opened ConfigText

  // ---- Lines ----------------------------------------------------------------

  function SkipSpace(text: string, i: nat): (start: nat)
    ensures i <= start
    ensures i <= |text| ==> start <= |text|
    ensures !IsSpace(At(text, start))
    decreases |text| - i
  {
    if i < |text| && IsSpace(text[i]) then SkipSpace(text, i + 1) else i
  }

  predicate EndsLine(text: string, i: nat) {
    At(text, i) == '\n' || At(text, i) == '\0'
  }

  function LineEnd(text: string, i: nat): (end: nat)
    requires i <= |text|
    ensures i <= end <= |text| && EndsLine(text, end)
    ensures forall k :: i <= k < end ==> !EndsLine(text, k)
    decreases |text| - i
  {
    if EndsLine(text, i) then i else LineEnd(text, i + 1)
  }

  function TrimRight(s: string): (r: string)
    ensures r <= s
    ensures r != "" ==> !IsSpace(r[|r| - 1])
  {
    if s != "" && IsSpace(s[|s| - 1]) then TrimRight(s[..|s| - 1]) else s
  }

  function TrimLeft(s: string): (r: string)
    ensures r != "" ==> !IsSpace(r[0])
  {
    if s != "" && IsSpace(s[0]) then TrimLeft(s[1..]) else s
  }

  // A line, and where the next one starts.
  datatype Line = Line(text: string, next: nat)

  function LineAt(text: string, pos: nat, skip: bool): (r: Line)
    requires pos <= |text|
    ensures pos <= r.next <= |text|
    ensures r.text != "" ==> pos < r.next
  {
    var start := if skip then SkipSpace(text, pos) else pos;
    var end := LineEnd(text, start);
    Line(TrimRight(text[start..end]), if At(text, end) == '\n' then end + 1 else end)
  }

  // ---- Variables ------------------------------------------------------------

  /** What parse_variable reports: a name with its value, an error, or a failed assertion. */
  datatype Reading =
    | Variable(name: string, value: Option<string>)
    | Malformed
    | AssertionFailed

  // The name is what stands before the equals sign, without final spaces; its
  // first character is kept whatever it is.
  function NameOf(line: string, end: nat): (name: string)
    requires end <= |line|
    ensures name <= line[..end]
  {
    if 1 < end && IsSpace(line[end - 1]) then NameOf(line, end - 1) else line[..end]
  }

  // The value so far ends in a continuation mark: what the next lines add.
  function Continue(text: string, pos: nat, value: string, inQuotes: nat): (r: (Reading, nat))
    requires pos <= |text|
    ensures pos <= r.1 <= |text|
    ensures r.0.Variable? ==> pos < r.1
    decreases |text| - pos
  {
    var raw := LineAt(text, pos, false);
    if raw.text == "" then (Malformed, raw.next)
    else
      var open := if inQuotes == 0 then 0 else 1;
      var line := WithoutComment(raw.text, open);
      var quotes := QuotesSeen(raw.text, open);
      if line == "" then Continue(text, raw.next, value, quotes)
      else if !IsContinued(value) then (AssertionFailed, raw.next)
      else
        var more := Unescape(line);
        if more.None? then (Malformed, raw.next)
        else
          var longer := value[..|value| - 1] + more.value;
          if IsContinued(longer) then Continue(text, raw.next, longer, quotes)
          else (Variable("", Some(longer)), raw.next)
  }

  function Named(name: string, r: (Reading, nat)): (Reading, nat) {
    if r.0.Variable? then (Variable(name, r.0.value), r.1) else r
  }

  function ValueAfter(text: string, next: nat, rhs: string, quotes: nat): (r: (Reading, nat))
    requires next <= |text|
    ensures next <= r.1 <= |text|
  {
    var value := Unescape(rhs);
    if rhs == "" then (Variable("", Some("")), next)
    else if value.None? then (Malformed, next)
    else if IsContinued(rhs) then Continue(text, next, value.value, quotes)
    else (Variable("", value), next)
  }

  // The name on a line, and its value as spelled if there is an equals sign.
  function Sides(line: string): (string, Option<string>) {
    var equals := IndexOf(line, '=');
    (NameOf(line, equals), if equals == |line| then None else Some(TrimLeft(line[equals + 1..])))
  }

  function VariableAt(text: string, pos: nat): (r: (Reading, nat))
    requires pos <= |text|
    ensures pos <= r.1 <= |text|
  {
    var raw := LineAt(text, pos, true);
    var line := WithoutComment(raw.text, 0);
    var sides := Sides(line);
    if sides.1.None? then (Variable(sides.0, None), raw.next)
    else Named(sides.0, ValueAfter(text, raw.next, sides.1.value, QuotesSeen(raw.text, 0)))
  }

  // ---- The reader -----------------------------------------------------------

  lemma {:induction false} SpacesSkipped(text: string, i: nat, start: nat)
    requires i <= start && !IsSpace(At(text, start))
    requires forall k :: i <= k < start ==> IsSpace(At(text, k))
    ensures SkipSpace(text, i) == start
    decreases start - i
  {
    if i < start {
      assert IsSpace(At(text, i));
      SpacesSkipped(text, i + 1, start);
    }
  }

  lemma {:induction false} LineEndsAt(text: string, i: nat, end: nat)
    requires i <= end <= |text| && EndsLine(text, end)
    requires forall k :: i <= k < end ==> !EndsLine(text, k)
    ensures LineEnd(text, i) == end
    decreases end - i
  {
    if i < end {
      LineEndsAt(text, i + 1, end);
    }
  }

  lemma {:induction false} TrimmedTail(s: string, from: nat, to: nat)
    requires from <= to <= |s| && !IsSpace(At(s, to))
    requires forall k :: from <= k < to ==> IsSpace(s[k])
    ensures TrimLeft(s[from..]) == s[to..]
    decreases |s| - from
  {
    if from < to {
      assert s[from..][1..] == s[from + 1..];
      TrimmedTail(s, from + 1, to);
    }
  }

  lemma {:induction false} TrimmedRightIs(s: string, to: nat)
    requires to <= |s| && (0 < to ==> !IsSpace(s[to - 1]))
    requires forall k :: to <= k < |s| ==> IsSpace(s[k])
    ensures TrimRight(s) == s[..to]
  {
    if to < |s| {
      TrimmedRightIs(s[..|s| - 1], to);
      assert s[..|s| - 1][..to] == s[..to];
    } else {
      assert s[..to] == s;
    }
  }

  method SplitAtEquals(line: string) returns (name: string, rhs: Option<string>)
    ensures (name, rhs) == Sides(line)
  {
    hide IndexOf, TrimLeft;
    var equals := 0;
    while equals < |line| && line[equals] != '='
      invariant equals <= |line|
      invariant forall k :: 0 <= k < equals ==> line[k] != '='
    {
      equals := equals + 1;
    }
    FirstIndexIs(line, '=', equals);
    var end := equals;
    while 1 < end && IsSpace(line[end - 1])
      invariant end <= equals
      invariant NameOf(line, end) == NameOf(line, equals)
    {
      end := end - 1;
    }
    name := line[..end];
    if equals == |line| {
      return name, None;
    }
    var start := equals + 1;
    while start < |line| && IsSpace(line[start])
      invariant equals < start <= |line|
      invariant forall k :: equals < k < start ==> IsSpace(line[k])
    {
      start := start + 1;
    }
    TrimmedTail(line, equals + 1, start);
    rhs := Some(line[start..]);
  }

  /** Where reading a configuration file stands. */
  class Reader {
    const text: string
    var pos: nat
    var eof: bool

    ghost predicate Valid()
      reads this
    {
      pos <= |text|
    }

    constructor (text: string)
      ensures Valid() && this.text == text && pos == 0 && !eof
    {
      this.text := text;
      pos := 0;
      eof := false;
    }

    method ReadLine(skip: bool) returns (line: string)
      requires Valid()
      modifies this
      ensures Valid()
      ensures Line(line, pos) == LineAt(text, old(pos), skip)
      ensures eof == (old(eof) || At(text, pos) == '\0')
    {
      var start := pos;
      if skip {
        while IsSpace(At(text, start))
          invariant pos <= start <= |text|
          invariant forall k :: pos <= k < start ==> IsSpace(At(text, k))
          decreases |text| - start
        {
          start := start + 1;
        }
        SpacesSkipped(text, pos, start);
      }
      var end := start;
      while At(text, end) != '\n' && At(text, end) != '\0'
        invariant start <= end <= |text|
        invariant forall k :: start <= k < end ==> !EndsLine(text, k)
        decreases |text| - end
      {
        end := end + 1;
      }
      LineEndsAt(text, start, end);
      ghost var whole := text[start..end];
      line := text[start..end];
      while line != "" && IsSpace(line[|line| - 1])
        invariant |line| <= |whole| && line == whole[..|line|]
        invariant forall k :: |line| <= k < |whole| ==> IsSpace(whole[k])
        decreases |line|
      {
        line := line[..|line| - 1];
      }
      TrimmedRightIs(whole, |line|);
      if At(text, end) == '\n' {
        end := end + 1;
      }
      if At(text, end) == '\0' {
        eof := true;
      }
      pos := end;
    }

    method ParseMultilineVariable(value: string, inQuotes: nat) returns (r: Reading)
      requires Valid()
      modifies this
      ensures Valid()
      ensures (r, pos) == Continue(text, old(pos), value, inQuotes)
      decreases |text| - pos
    {
      hide LineAt, WithoutComment, QuotesSeen, Unescape;
      var line := ReadLine(false);
      if line == "" {
        return Malformed;
      }
      var quotes;
      line, quotes := StripComments(line, if inQuotes == 0 then 0 else 1);
      if line == "" {
        r := ParseMultilineVariable(value, quotes);
        return;
      }
      var continued := IsMultilineVar(value);
      if !continued {
        return AssertionFailed;
      }
      var more := FixupLine(line);
      if more.None? {
        return Malformed;
      }
      var longer := value[..|value| - 1] + more.value;
      continued := IsMultilineVar(longer);
      if continued {
        r := ParseMultilineVariable(longer, quotes);
      } else {
        r := Variable("", Some(longer));
      }
    }

    method ParseVariable() returns (r: Reading)
      requires Valid()
      modifies this
      ensures Valid()
      ensures (r, pos) == VariableAt(text, old(pos))
    {
      hide LineAt, WithoutComment, QuotesSeen, Unescape, Continue, Sides, IsContinued;
      var line := ReadLine(true);
      var quotes;
      line, quotes := StripComments(line, 0);
      var name, rhs := SplitAtEquals(line);
      if rhs.None? {
        return Variable(name, None);
      }
      var continued := IsMultilineVar(rhs.value);
      var value := FixupLine(rhs.value);
      if rhs.value == "" {
        r := Variable("", Some(""));
      } else if value.None? {
        return Malformed;
      } else if continued {
        r := ParseMultilineVariable(value.value, quotes);
      } else {
        r := Variable("", value);
      }
      if r.Variable? {
        r := r.(name := name);
      }
    }
  }
}
