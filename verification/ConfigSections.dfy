/** Section headers: what write_section prints and parse_section_header reads (config_file.c). */
module ConfigSections {
  import opened Bytes
  import opened CStrings
  import opened ConfigText
  import opened ConfigReader
  import opened ConfigRoundTrip

  // ---- Writing --------------------------------------------------------------

  function BaseOf(key: string): string {
    key[..IndexOf(key, '.')]
  }

  // What follows the first dot of a key, if it has one.
  function SubsectionOf(key: string): Option<string> {
    var dot := IndexOf(key, '.');
    if dot == |key| then None else Some(key[dot + 1..])
  }

  function Header(key: string): string {
    match SubsectionOf(key)
    case None => "[" + key + "]"
    case Some(sub) => "[" + BaseOf(key) + " \"" + Escape(sub) + "\"]"
  }

  method WriteSection(key: string) returns (text: string)
    ensures text == Header(key) + "\n"
  {
    var dot := 0;
    while dot < |key| && key[dot] != '.'
      invariant dot <= |key|
      invariant forall k :: 0 <= k < dot ==> key[k] != '.'
    {
      dot := dot + 1;
    }
    FirstIndexIs(key, '.', dot);
    text := "[";
    if dot == |key| {
      text := text + key;
    } else {
      text := text + key[..dot];
      var escaped := EscapeValue(key[dot + 1..]);
      text := text + (" \"" + escaped + "\"");
      assert text + "]" == Header(key);
    }
    text := text + "]\n";
  }

  // ---- Reading --------------------------------------------------------------

  datatype Heading = Section(name: string) | BadHeader | NotAHeader

  function ToLower(c: char): char {
    if IsUpper(c) then (c as int + 32) as char else c
  }

  function Lower(s: string): (r: string)
    ensures |r| == |s|
  {
    if s == "" then "" else [ToLower(s[0])] + Lower(s[1..])
  }

  function LastIndexOf(s: string, c: char): (i: nat)
    requires c in s
    ensures i < |s| && s[i] == c
    ensures forall k :: i < k < |s| ==> s[k] != c
  {
    if s[|s| - 1] == c then |s| - 1
    else
      assert c in s[..|s| - 1];
      LastIndexOf(s[..|s| - 1], c)
  }

  // The subsection from `pos`: a backslash makes the next character stand for itself.
  function Unquote(line: string, last: nat, pos: nat): Option<(string, nat)>
    requires pos <= |line| && last < |line|
    decreases |line| - pos
  {
    var skip := if At(line, pos) == '\\' then 1 else 0;
    if At(line, pos) == '"' then Some(("", pos))
    else if At(line, pos + skip) == '\0' then None
    else if last <= pos + skip + 1 then Some(([line[pos + skip]], pos + skip + 1))
    else
      var rest :- Unquote(line, last, pos + skip + 1);
      Some(([line[pos + skip]] + rest.0, rest.1))
  }

  function Subsection(line: string, base: string): Heading {
    if '"' !in line then BadHeader
    else
      var first, last := IndexOf(line, '"'), LastIndexOf(line, '"');
      if first == last then BadHeader
      else
        var sub := Unquote(line, last, first + 1);
        if sub.None? || At(line, sub.value.1) != '"' || At(line, sub.value.1 + 1) != ']' then BadHeader
        else Section(base + "." + sub.value.0)
  }

  // The header from `pos`, after the part of the name already read.
  function NameFrom(line: string, pos: nat, name: string): Heading
    requires pos <= |line|
    decreases |line| - pos
  {
    var c := At(line, pos);
    if IsSpace(c) then Subsection(line, name)
    else if !IsKeyChar(c) && c != '.' then BadHeader
    else if At(line, pos + 1) == ']' then Section(name + [ToLower(c)])
    else NameFrom(line, pos + 1, name + [ToLower(c)])
  }

  function HeadingOf(line: string): Heading {
    if ']' !in line then BadHeader
    else if line[0] != '[' then NotAHeader
    else NameFrom(line, 1, "")
  }

  lemma {:induction false} LastIndexIs(s: string, c: char, i: nat)
    requires i < |s| && s[i] == c && forall k :: i < k < |s| ==> s[k] != c
    ensures LastIndexOf(s, c) == i
  {
    if i < |s| - 1 {
      assert s[i] in s[..|s| - 1];
      LastIndexIs(s[..|s| - 1], c, i);
    }
  }

  function Prefixed(head: string, tail: Option<(string, nat)>): Option<(string, nat)> {
    if tail.None? then None else Some((head + tail.value.0, tail.value.1))
  }

  // Where the character that counts at `pos` stands: past a backslash.
  function Shown(line: string, pos: nat): nat {
    pos + if At(line, pos) == '\\' then 1 else 0
  }

  lemma UnquoteStep(line: string, last: nat, pos: nat, sub: string)
    requires pos <= |line| && last < |line| && At(line, pos) != '"' && At(line, Shown(line, pos)) != '\0'
    ensures Prefixed(sub, Unquote(line, last, pos)) ==
            var p := Shown(line, pos);
            if last <= p + 1 then Some((sub + [line[p]], p + 1))
            else Prefixed(sub + [line[p]], Unquote(line, last, p + 1))
  {
    var p := Shown(line, pos);
    if p + 1 < last {
      var rest := Unquote(line, last, p + 1);
      if rest.Some? {
        ConcatAssociates(sub, [line[p]], rest.value.0);
      }
    }
  }

  lemma UnquoteEnds(line: string, last: nat, pos: nat, sub: string)
    requires pos <= |line| && last < |line|
    ensures Prefixed("", Unquote(line, last, pos)) == Unquote(line, last, pos)
    ensures At(line, pos) == '"' ==> Prefixed(sub, Unquote(line, last, pos)) == Some((sub, pos))
    ensures At(line, Shown(line, pos)) == '\0' ==> Unquote(line, last, pos) == None
  {
    var r := Unquote(line, last, pos);
    assert r.Some? ==> "" + r.value.0 == r.value.0;
    assert sub + "" == sub;
  }

  method ReadQuoted(line: string, last: nat, start: nat) returns (r: Option<(string, nat)>)
    requires start <= |line| && last < |line|
    ensures r == Unquote(line, last, start)
  {
    hide Unquote, Prefixed;
    var sub, pos := "", start;
    UnquoteEnds(line, last, start, "");
    while true
      invariant pos <= |line|
      invariant Unquote(line, last, start) == Prefixed(sub, Unquote(line, last, pos))
      decreases |line| - pos
    {
      UnquoteEnds(line, last, pos, sub);
      if At(line, pos) == '"' {
        return Some((sub, pos));
      }
      var skip := if At(line, pos) == '\\' then 1 else 0;
      if At(line, pos + skip) == '\0' {
        PrefixedNone(sub);
        return None;
      }
      UnquoteStep(line, last, pos, sub);
      sub := sub + [line[pos + skip]];
      pos := pos + skip + 1;
      if last <= pos {
        return Some((sub, pos));
      }
    }
  }

  lemma PrefixedNone(sub: string)
    ensures Prefixed(sub, None) == None
  {
  }

  method ParseSubsection(line: string, base: string) returns (r: Heading)
    ensures r == Subsection(line, base)
  {
    hide Unquote, IndexOf, LastIndexOf;
    var first := 0;
    while first < |line| && line[first] != '"'
      invariant first <= |line|
      invariant forall k :: 0 <= k < first ==> line[k] != '"'
    {
      first := first + 1;
    }
    FirstIndexIs(line, '"', first);
    if first == |line| {
      return BadHeader;
    }
    var last := |line| - 1;
    while line[last] != '"'
      invariant first <= last < |line|
      invariant forall k :: last < k < |line| ==> line[k] != '"'
      decreases last
    {
      last := last - 1;
    }
    if first == last {
      return BadHeader;
    }
    LastIndexIs(line, '"', last);
    var sub := ReadQuoted(line, last, first + 1);
    if sub.None? || At(line, sub.value.1) != '"' || At(line, sub.value.1 + 1) != ']' {
      return BadHeader;
    }
    r := Section(base + "." + sub.value.0);
  }

  method ParseHeading(line: string) returns (r: Heading)
    ensures r == HeadingOf(line)
  {
    if ']' !in line {
      return BadHeader;
    }
    if line[0] != '[' {
      return NotAHeader;
    }
    var name, pos := "", 1;
    while true
      invariant pos <= |line|
      invariant HeadingOf(line) == NameFrom(line, pos, name)
      decreases |line| - pos
    {
      var c := At(line, pos);
      if IsSpace(c) {
        r := ParseSubsection(line, name);
        return;
      }
      if !IsKeyChar(c) && c != '.' {
        return BadHeader;
      }
      name := name + [ToLower(c)];
      pos := pos + 1;
      if At(line, pos) == ']' {
        return Section(name);
      }
    }
  }

  function HeaderAt(text: string, pos: nat): (Heading, nat)
    requires pos <= |text|
  {
    var line := LineAt(text, pos, true);
    (HeadingOf(line.text), line.next)
  }

  method ParseSectionHeader(reader: Reader) returns (r: Heading)
    requires reader.Valid()
    modifies reader
    ensures reader.Valid()
    ensures (r, reader.pos) == HeaderAt(reader.text, old(reader.pos))
  {
    hide LineAt, HeadingOf;
    var line := reader.ReadLine(true);
    r := ParseHeading(line);
  }

  // ---- Round trip -----------------------------------------------------------

  // The reader takes the letter of an escape for the character itself.
  function Flat(c: char): char {
    var e := EscapeChar(c);
    e[|e| - 1]
  }

  function Flattened(s: string): string {
    if s == "" then "" else [Flat(s[0])] + Flattened(s[1..])
  }

  // A key whose header can be written: no NUL, and key characters before the first dot.
  predicate IsSection(key: string) {
    '\0' !in key && AllKeyChars(BaseOf(key)) && key != ""
  }

  function SectionRead(key: string): string {
    match SubsectionOf(key)
    case None => Lower(key)
    case Some(sub) => Lower(BaseOf(key)) + "." + Flattened(sub)
  }

  lemma CharUnquoted(line: string, last: nat, pos: nat, c: char)
    requires c != '\0' && pos + |EscapeChar(c)| <= last < |line|
    requires line[pos..pos + |EscapeChar(c)|] == EscapeChar(c)
    ensures Unquote(line, last, pos) ==
            var next := pos + |EscapeChar(c)|;
            if last <= next then Some(([Flat(c)], next)) else Prefixed([Flat(c)], Unquote(line, last, next))
  {
    hide Unquote;
    var e := EscapeChar(c);
    assert line[pos] == line[pos..pos + |e|][0];
    assert line[pos + |e| - 1] == line[pos..pos + |e|][|e| - 1];
    UnquoteStep(line, last, pos, "");
    UnquoteEnds(line, last, pos, "");
    assert "" + [Flat(c)] == [Flat(c)];
  }

  lemma {:induction false} EscapedUnquoted(line: string, last: nat, pos: nat, v: string)
    requires '\0' !in v && pos + |Escape(v)| == last < |line|
    requires line[pos..last] == Escape(v) && line[last] == '"'
    ensures Unquote(line, last, pos) == Some((Flattened(v), last))
    decreases v
  {
    hide EscapeChar, Flat;
    if v != "" {
      var e, more := EscapeChar(v[0]), Escape(v[1..]);
      EscapeFirst(v);
      assert line[pos..pos + |e|] == line[pos..last][..|e|] == e;
      CharUnquoted(line, last, pos, v[0]);
      EscapeEmpty(v[1..]);
      if v[1..] == "" {
        assert Flattened(v) == [Flat(v[0])];
      } else {
        assert line[pos + |e|..last] == line[pos..last][|e|..] == more;
        EscapedUnquoted(line, last, pos + |e|, v[1..]);
      }
    }
  }

  lemma EscapeEmpty(v: string)
    ensures Escape(v) == "" <==> v == ""
  {
  }

  lemma LowerConcat(a: string, c: char, b: string)
    ensures (a + [ToLower(c)]) + Lower(b) == a + Lower([c] + b)
  {
    assert ([c] + b)[1..] == b;
  }

  lemma {:induction false} BaseRead(line: string, pos: nat, end: nat, name: string)
    requires pos <= end < |line| && AllKeyChars(line[pos..end])
    ensures line[end] == ' ' ==> NameFrom(line, pos, name) == Subsection(line, name + Lower(line[pos..end]))
    ensures line[end] == ']' && pos < end ==> NameFrom(line, pos, name) == Section(name + Lower(line[pos..end]))
    decreases end - pos
  {
    hide Subsection;
    if pos == end {
      assert line[pos..end] == "" && name + "" == name;
    } else {
      var rest := line[pos + 1..end];
      assert line[pos..end] == [line[pos]] + rest;
      assert line[pos] in line[pos..end];
      assert pos + 1 < end ==> line[pos + 1] == line[pos..end][1] && line[pos + 1] in line[pos..end];
      KeyCharsAreSolid(line[pos]);
      LowerConcat(name, line[pos], rest);
      assert AllKeyChars(rest) by {
        forall c | c in rest ensures c in line[pos..end] {
        }
      }
      BaseRead(line, pos + 1, end, name + [ToLower(line[pos])]);
      assert pos + 1 == end ==> rest == "" && name + Lower([line[pos]]) == name + [ToLower(line[pos])];
    }
  }

  lemma PlainHeadingRead(key: string)
    requires IsSection(key) && SubsectionOf(key).None?
    ensures HeadingOf(Header(key)) == Section(Lower(key))
  {
    var line := "[" + key + "]";
    assert line[1..|key| + 1] == key && line[|key| + 1] == ']';
    assert BaseOf(key) == key;
    BaseRead(line, 1, |key| + 1, "");
    assert "" + Lower(key) == Lower(key);
  }

  lemma QuotedHeadingRead(base: string, sub: string)
    requires AllKeyChars(base) && '\0' !in sub
    ensures HeadingOf("[" + base + " \"" + Escape(sub) + "\"]") == Section(Lower(base) + "." + Flattened(sub))
  {
    hide Escape, Unquote, NameFrom, IndexOf, LastIndexOf, Lower, Flattened, AllKeyChars;
    var e := Escape(sub);
    var line := "[" + base + " \"" + e + "\"]";
    var first, last := |base| + 2, |line| - 2;
    HeadingParts(base, e, line);
    BaseRead(line, 1, |base| + 1, "");
    assert "" + Lower(base) == Lower(base);
    FirstIndexIs(line, '"', first);
    LastIndexIs(line, '"', last);
    EscapedUnquoted(line, last, first + 1, sub);
  }

  lemma HeadingParts(base: string, e: string, line: string)
    requires AllKeyChars(base) && line == "[" + base + " \"" + e + "\"]"
    ensures |line| == |base| + |e| + 5
    ensures line[0] == '[' && line[1..|base| + 1] == base && line[|base| + 1] == ' '
    ensures line[|base| + 2] == '"' && forall k :: 0 <= k < |base| + 2 ==> line[k] != '"'
    ensures line[|base| + 3..|line| - 2] == e && line[|line| - 2] == '"' && line[|line| - 1] == ']'
  {
    forall k | 0 <= k < |base| + 2 ensures line[k] != '"' {
      if 0 < k <= |base| {
        assert line[k] == base[k - 1] && base[k - 1] in base;
      }
    }
  }

  lemma HeadingRead(key: string)
    requires IsSection(key)
    ensures HeadingOf(Header(key)) == Section(SectionRead(key))
  {
    if SubsectionOf(key).None? {
      PlainHeadingRead(key);
    } else {
      QuotedHeadingRead(BaseOf(key), SubsectionOf(key).value);
    }
  }

  lemma HeaderChars(key: string)
    requires IsSection(key)
    ensures forall c :: c in Header(key) ==> c != '\n' && c != '\0'
    ensures |Header(key)| > 1 && Header(key)[0] == '[' && Header(key)[|Header(key)| - 1] == ']'
  {
    hide IndexOf, Escape;
    assert SubsectionOf(key).None? ==> BaseOf(key) == key;
    if SubsectionOf(key).Some? {
      var e := Escape(SubsectionOf(key).value);
      forall c | c in e ensures c != '\n' && c != '\0' {
        var k :| 0 <= k < |e| && e[k] == c;
        EscapedChars(SubsectionOf(key).value, k);
      }
    }
  }

  // A header printed anywhere in a file is read back in lower case, its subsection flattened.
  lemma HeaderReadBack(before: string, key: string, after: string)
    requires IsSection(key)
    ensures HeaderAt(before + (Header(key) + "\n") + after, |before|)
         == (Section(SectionRead(key)), |before + Header(key)| + 1)
  {
    hide Header, HeadingOf, LineAt, IsSection, SectionRead;
    var line := Header(key);
    var text := before + (line + "\n") + after;
    HeaderChars(key);
    HeadingRead(key);
    Slice(before, line + "\n", after, 0, |line|);
    assert (line + "\n")[0..|line|] == line;
    var pos, end := |before|, |before| + |line|;
    assert text[pos] == text[pos..end][0] == '[';
    assert text[end] == '\n';
    LineIn(text, pos, pos, end, true);
    assert line == line[..|line| - 1] + "]";
    TrimRightAfter(line[..|line| - 1], "]");
  }

  lemma {:induction false} LowerKept(s: string)
    ensures Lower(s) == s <==> forall c :: c in s ==> !IsUpper(c)
  {
    if s != "" {
      LowerKept(s[1..]);
      assert s == [s[0]] + s[1..];
      assert Lower(s) == [ToLower(s[0])] + Lower(s[1..]);
      assert Lower(s) == s ==> Lower(s)[0] == s[0] && Lower(s)[1..] == s[1..];
    }
  }

  // Newline, tab and backspace are escaped by a letter, and the letter is what the reader takes.
  predicate IsLettered(c: char) {
    c == '\n' || c == '\t' || c == BACKSPACE
  }

  lemma FlatKept(c: char)
    ensures Flat(c) == c <==> !IsLettered(c)
  {
  }

  lemma {:induction false} FlattenedKept(s: string)
    ensures |Flattened(s)| == |s|
    ensures Flattened(s) == s <==> forall c :: c in s ==> !IsLettered(c)
  {
    if s != "" {
      FlattenedKept(s[1..]);
      FlatKept(s[0]);
      assert s == [s[0]] + s[1..];
      assert Flattened(s) == [Flat(s[0])] + Flattened(s[1..]);
      assert Flattened(s) == s ==> Flattened(s)[0] == s[0] && Flattened(s)[1..] == s[1..];
    }
  }

  // A key that survives: lower case before the dot, no newline, tab or backspace after it.
  predicate IsPlainSection(key: string) {
    && (forall c :: c in BaseOf(key) ==> !IsUpper(c))
    && (SubsectionOf(key).Some? ==> forall c :: c in SubsectionOf(key).value ==> !IsLettered(c))
  }

  lemma SectionKept(key: string)
    requires IsSection(key)
    ensures SectionRead(key) == key <==> IsPlainSection(key)
  {
    hide Lower, Flattened, IndexOf;
    var base := BaseOf(key);
    LowerKept(base);
    if SubsectionOf(key).None? {
      assert base == key;
    } else {
      var sub := SubsectionOf(key).value;
      FlattenedKept(sub);
      assert key == base + "." + sub;
      PartsEqual(Lower(base), Flattened(sub), base, sub);
    }
  }

  lemma PartsEqual(a: string, b: string, c: string, d: string)
    requires |a| == |c|
    ensures a + "." + b == c + "." + d <==> a == c && b == d
  {
    var x, y := a + "." + b, c + "." + d;
    assert x[..|a|] == a && x[|a| + 1..] == b && y[..|a|] == c && y[|a| + 1..] == d;
  }

  /** A printed section header is read back as the same key exactly when the key is plain. */
  lemma SectionRoundTrip(before: string, key: string, after: string)
    requires IsSection(key)
    ensures HeaderAt(before + (Header(key) + "\n") + after, |before|)
         == (Section(key), |before + Header(key)| + 1)
       <==> IsPlainSection(key)
  {
    hide *;
    HeaderReadBack(before, key, after);
    SectionKept(key);
  }
}
