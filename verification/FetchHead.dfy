/** FETCH_HEAD: what is written for the fetched references, and what is read back (fetchhead.c). */
module FetchHead {
  import opened Bytes
  import opened CStrings

  type Oid = s: seq<byte> | |s| == 20 witness seq(20, _ => 0)

  /** A fetched reference; the name may be missing only while references are compared. */
  datatype Ref = Ref(oid: Oid, isMerge: bool, name: Option<string>, url: string)

  /** What the reader reports of a line. */
  datatype Record = Record(oid: Oid, isMerge: bool, name: Option<string>, url: Option<string>)

  const HEADS := "refs/heads/"
  const TAGS := "refs/tags/"
  const HEAD := "HEAD"
  const NOT_FOR_MERGE := "not-for-merge"

  // ---- Object ids in hexadecimal --------------------------------------------

  function ToHex(d: nat): char
    requires d < 16
  {
    if d < 10 then ('0' as int + d) as char else ('a' as int + d - 10) as char
  }

  function FromHex(c: char): Option<nat> {
    if '0' <= c <= '9' then Some(c as int - '0' as int)
    else if 'a' <= c <= 'f' then Some(c as int - 'a' as int + 10)
    else if 'A' <= c <= 'F' then Some(c as int - 'A' as int + 10)
    else None
  }

  function Format(bytes: seq<byte>): (s: string)
    ensures |s| == 2 * |bytes|
  {
    if bytes == [] then "" else [ToHex(bytes[0] / 16), ToHex(bytes[0] % 16)] + Format(bytes[1..])
  }

  function ParseHex(s: string): (r: Option<seq<byte>>)
    requires |s| % 2 == 0
    ensures r.Some? ==> 2 * |r.value| == |s|
  {
    if s == "" then Some([])
    else
      var high :- FromHex(s[0]);
      var low :- FromHex(s[1]);
      var rest :- ParseHex(s[2..]);
      Some([high * 16 + low] + rest)
  }

  lemma HexDigit(d: nat)
    requires d < 16
    ensures FromHex(ToHex(d)) == Some(d)
    ensures ToHex(d) != '\t' && ToHex(d) != '\n'
  {
  }

  lemma {:induction false} HexRoundTrip(bytes: seq<byte>)
    ensures ParseHex(Format(bytes)) == Some(bytes)
    ensures '\t' !in Format(bytes) && '\n' !in Format(bytes)
  {
    if bytes != [] {
      HexDigit(bytes[0] / 16);
      HexDigit(bytes[0] % 16);
      HexRoundTrip(bytes[1..]);
      assert Format(bytes)[2..] == Format(bytes[1..]);
      assert [bytes[0]] + bytes[1..] == bytes;
    }
  }

  // ---- Writing --------------------------------------------------------------

  // How a name is described: the words before the quote, and what is quoted.
  function Described(name: string): (string, string) {
    if HEADS <= name then ("branch ", name[|HEADS|..])
    else if TAGS <= name then ("tag ", name[|TAGS|..])
    else ("", name)
  }

  function Description(name: string, url: string): string {
    if name == HEAD then url
    else Described(name).0 + "'" + Described(name).1 + "' of " + url
  }

  // The line for a reference, without its newline.
  function LineOf(ref: Ref): string
    requires ref.name.Some?
  {
    Format(ref.oid) + "\t" + (if ref.isMerge || ref.name.value == HEAD then "" else NOT_FOR_MERGE) + "\t"
      + Description(ref.name.value, ref.url)
  }

  // ---- Reading --------------------------------------------------------------

  // The part of `s` before the separator, and the part after it.
  function Separate(s: string, c: char): Option<(string, string)> {
    var i := IndexOf(s, c);
    if i == |s| then None else Some((s[..i], s[i + 1..]))
  }

  function WithoutSlashes(s: string): (r: string)
    ensures |r| <= |s|
  {
    if s != "" && s[0] == '/' then WithoutSlashes(s[1..]) else s
  }

  // The quoted name at the start of `s`, and the URL after it.
  function QuotedName(s: string): Option<(string, string)> {
    var i := IndexOf(s, '\'');
    if i == |s| || !("' of " <= s[i..]) then None else Some((s[..i], s[i + 5..]))
  }

  function NameAndUrl(desc: string): Option<(string, string)> {
    if "branch '" <= desc then
      var r :- QuotedName(desc[8..]);
      Some((HEADS + WithoutSlashes(r.0), r.1))
    else if "tag '" <= desc then
      var r :- QuotedName(desc[5..]);
      Some((TAGS + WithoutSlashes(r.0), r.1))
    else if "'" <= desc then QuotedName(desc[1..])
    else Some(("", desc))
  }

  function Reported(oid: Oid, isMerge: bool, name: string, url: Option<string>): Record {
    Record(oid, isMerge, if name == "" then None else Some(name), url)
  }

  // The record of a line; a line that ends after the id keeps the flag of the line before.
  function ParseLine(line: string, before: bool): Option<Record> {
    var parts := Separate(line, '\t');
    var id := if parts.None? then line else parts.value.0;
    var rest := if parts.None? then "" else parts.value.1;
    if |id| != 40 then None
    else
      var oid :- ParseHex(id);
      if rest == "" then Some(Record(oid, parts.None? || before, None, None))
      else
        var more :- Separate(rest, '\t');
        if more.0 != "" && more.0 != NOT_FOR_MERGE then None
        else
          var named :- NameAndUrl(more.1);
          Some(Reported(oid, more.0 == "", named.0, Some(named.1)))
  }

  // ---- A line is read back --------------------------------------------------

  lemma SeparateAt(a: string, c: char, b: string)
    requires c !in a
    ensures Separate(a + [c] + b, c) == Some((a, b))
  {
    var s := a + [c] + b;
    FirstIndexIs(s, c, |a|);
    assert s[..|a|] == a && s[|a| + 1..] == b;
  }

  // The first quote of a name ends it for the reader.
  lemma QuotedNameRead(name: string, url: string)
    ensures '\'' !in name ==> QuotedName(name + "' of " + url) == Some((name, url))
    ensures '\'' in name ==> QuotedName(name + "' of " + url).None?
                             || |QuotedName(name + "' of " + url).value.0| < |name|
  {
    var s := name + "' of " + url;
    if '\'' !in name {
      FirstIndexIs(s, '\'', |name|);
      assert s[..|name|] == name && s[|name|..] == "' of " + url && s[|name| + 5..] == url;
    } else {
      var k :| 0 <= k < |name| && name[k] == '\'';
      assert s[k] == '\'';
    }
  }

  function Under(dir: string, quoted: Option<(string, string)>): Option<(string, string)> {
    if quoted.None? then None else Some((dir + WithoutSlashes(quoted.value.0), quoted.value.1))
  }

  lemma BranchRead(tail: string)
    ensures NameAndUrl("branch '" + tail) == Under(HEADS, QuotedName(tail))
  {
    hide QuotedName, WithoutSlashes;
    assert ("branch '" + tail)[8..] == tail;
  }

  lemma TagRead(tail: string)
    ensures NameAndUrl("tag '" + tail) == Under(TAGS, QuotedName(tail))
  {
    hide QuotedName, WithoutSlashes;
    var desc := "tag '" + tail;
    assert desc[5..] == tail && desc[0] == 't';
  }

  lemma PlainRead(tail: string)
    ensures NameAndUrl("'" + tail) == QuotedName(tail)
  {
    hide QuotedName, WithoutSlashes;
    var desc := "'" + tail;
    assert desc[1..] == tail && desc[0] == '\'';
  }

  // What the reader makes of a description, its quoted part being read as `quoted`.
  lemma DescriptionRead(name: string, url: string)
    requires name != HEAD
    ensures NameAndUrl(Description(name, url)) ==
            var quoted := QuotedName(Described(name).1 + "' of " + url);
            if HEADS <= name then Under(HEADS, quoted)
            else if TAGS <= name then Under(TAGS, quoted)
            else quoted
  {
    hide QuotedName, NameAndUrl, Under;
    var word, tail := Described(name).0 + "'", Described(name).1 + "' of " + url;
    assert Description(name, url) == word + tail;
    if HEADS <= name {
      assert word == "branch '";
      BranchRead(tail);
    } else if TAGS <= name {
      assert word == "tag '";
      TagRead(tail);
    } else {
      assert word == "'";
      PlainRead(tail);
    }
  }

  lemma WithoutSlashesIs(s: string)
    ensures WithoutSlashes(s) == s <==> !("/" <= s)
  {
  }

  // A name the reader returns as it was: no quote, not HEAD, and no slash where one is added back.
  predicate IsReadable(name: string) {
    name != "" && name != HEAD && '\'' !in name
      && ((HEADS <= name || TAGS <= name) ==> !("/" <= Described(name).1))
  }

  lemma NameRead(name: string, url: string)
    ensures NameAndUrl(Description(name, url)) == Some((name, url)) && name != "" <==> IsReadable(name)
  {
    hide QuotedName, NameAndUrl, Description, WithoutSlashes;
    if name == HEAD {
      HeadRead(url);
    } else {
      var short := Described(name).1;
      QuotedNameRead(short, url);
      DescriptionRead(name, url);
      WithoutSlashesIs(short);
      ShortName(name);
    }
  }

  lemma HeadRead(url: string)
    ensures NameAndUrl(Description(HEAD, url)) != Some((HEAD, url))
  {
  }

  lemma ShortName(name: string)
    ensures '\'' in name <==> '\'' in Described(name).1
    ensures HEADS <= name ==> name == HEADS + Described(name).1
    ensures !(HEADS <= name) && TAGS <= name ==> name == TAGS + Described(name).1
  {
    if HEADS <= name {
      assert name == HEADS + name[|HEADS|..];
    } else if TAGS <= name {
      assert name == TAGS + name[|TAGS|..];
    }
  }

  function RecordOf(ref: Ref): Record {
    Record(ref.oid, ref.isMerge, ref.name, Some(ref.url))
  }

  /** The line of a reference is read back as that reference exactly when its name is readable. */
  lemma LineRoundTrip(ref: Ref, before: bool)
    requires ref.name.Some?
    ensures ParseLine(LineOf(ref), before) == Some(RecordOf(ref)) <==> IsReadable(ref.name.value)
  {
    hide Format, ParseHex, NameAndUrl, Description, Separate, IsReadable;
    var name := ref.name.value;
    var flag := if ref.isMerge || name == HEAD then "" else NOT_FOR_MERGE;
    var desc := Description(name, ref.url);
    HexRoundTrip(ref.oid);
    assert LineOf(ref) == Format(ref.oid) + "\t" + (flag + "\t" + desc);
    SeparateAt(Format(ref.oid), '\t', flag + "\t" + desc);
    SeparateAt(flag, '\t', desc);
    NameRead(name, ref.url);
    ReadableIsNotHead(name);
  }

  // A URL that the reader takes for a quoted name.
  predicate LooksQuoted(url: string) {
    "branch '" <= url || "tag '" <= url || "'" <= url
  }

  lemma UnquotedRead(url: string)
    ensures NameAndUrl(url) == Some(("", url)) <==> !LooksQuoted(url)
    ensures NameAndUrl(url).Some? && NameAndUrl(url).value.1 == url ==> !LooksQuoted(url)
  {
    hide WithoutSlashes;
  }

  /** The line of HEAD is read as a nameless reference for merge from its URL exactly when the URL does not look quoted. */
  lemma HeadLineRead(ref: Ref, before: bool)
    requires ref.name == Some(HEAD)
    ensures ParseLine(LineOf(ref), before) == Some(Record(ref.oid, true, None, Some(ref.url))) <==> !LooksQuoted(ref.url)
  {
    hide Format, ParseHex, NameAndUrl, Separate, LooksQuoted;
    HexRoundTrip(ref.oid);
    assert LineOf(ref) == Format(ref.oid) + "\t" + ("\t" + ref.url);
    SeparateAt(Format(ref.oid), '\t', "\t" + ref.url);
    SeparateAt("", '\t', ref.url);
    assert "" + "\t" + ref.url == "\t" + ref.url;
    UnquotedRead(ref.url);
  }

  /** A URL that looks quoted: it is taken apart. */
  lemma HeadLineExample(oid: Oid)
    ensures ParseLine(LineOf(Ref(oid, true, Some(HEAD), "'x' of y")), false) == Some(Record(oid, true, Some("x"), Some("y")))
  {
    hide Format, ParseHex, NameAndUrl, Separate;
    var url := "'x' of y";
    HexRoundTrip(oid);
    assert LineOf(Ref(oid, true, Some(HEAD), url)) == Format(oid) + "\t" + ("\t" + url);
    SeparateAt(Format(oid), '\t', "\t" + url);
    SeparateAt("", '\t', url);
    assert "" + "\t" + url == "\t" + url;
    assert url == "'" + "x' of y" && "x' of y" == "x" + "' of " + "y";
    PlainRead("x' of y");
    QuotedNameRead("x", "y");
  }

  /** How the lines of a branch, a tag, another reference and HEAD are spelled. */
  lemma LinesSpelled(oid: Oid, name: string, url: string)
    requires name != HEAD && !(HEADS <= name) && !(TAGS <= name)
    ensures LineOf(Ref(oid, true, Some("refs/heads/" + name), url))
         == Format(oid) + "\t" + "" + "\t" + ("branch " + "'" + name + "' of " + url)
    ensures LineOf(Ref(oid, false, Some("refs/heads/" + name), url))
         == Format(oid) + "\t" + "not-for-merge" + "\t" + ("branch " + "'" + name + "' of " + url)
    ensures LineOf(Ref(oid, false, Some("refs/tags/" + name), url))
         == Format(oid) + "\t" + "not-for-merge" + "\t" + ("tag " + "'" + name + "' of " + url)
    ensures LineOf(Ref(oid, false, Some(name), url))
         == Format(oid) + "\t" + "not-for-merge" + "\t" + ("" + "'" + name + "' of " + url)
    ensures LineOf(Ref(oid, false, Some("HEAD"), url)) == Format(oid) + "\t" + "" + "\t" + url
  {
    hide Format, Described;
    Spelled("refs/heads/", name);
    Spelled("refs/tags/", name);
    SpelledPlain(name);
  }

  lemma SpelledPlain(name: string)
    requires !(HEADS <= name) && !(TAGS <= name)
    ensures Described(name) == ("", name)
  {
  }

  lemma Spelled(dir: string, name: string)
    requires dir == "refs/heads/" || dir == "refs/tags/"
    ensures Described(dir + name) == (if dir == "refs/heads/" then "branch " else "tag ", name)
    ensures dir + name != "HEAD"
  {
    assert (dir + name)[0] == 'r' && (dir + name)[|dir|..] == name && (dir + name)[..|dir|] == dir;
    assert (dir + name)[5] == dir[5];
  }

  lemma ReadableIsNotHead(name: string)
    ensures IsReadable(name) ==> name != HEAD && name != ""
  {
  }

  // ---- The file -------------------------------------------------------------

  // References to merge come first, then named ones by name.
  function Compare(a: Ref, b: Ref): int {
    if a.isMerge && !b.isMerge then -1
    else if b.isMerge && !a.isMerge then 1
    else if a.name.Some? && b.name.Some? then StrCmp(a.name.value, b.name.value)
    else if a.name.Some? then -1
    else if b.name.Some? then 1
    else 0
  }

  predicate InOrder(refs: seq<Ref>) {
    forall i, j :: 0 <= i < j < |refs| ==> Compare(refs[i], refs[j]) <= 0
  }

  lemma CompareTrans(a: Ref, b: Ref, c: Ref)
    requires Compare(a, b) <= 0 && Compare(b, c) <= 0
    ensures Compare(a, c) <= 0
  {
    if a.name.Some? && b.name.Some? && c.name.Some? {
      var x, y, z := a.name.value, b.name.value, c.name.value;
      StrCmpIs(x, y);
      StrCmpIs(y, z);
      StrCmpIs(x, z);
      if StrCmp(x, y) < 0 && StrCmp(y, z) < 0 {
        StrCmpTrans(x, y, z);
      }
    }
  }

  /** References in order: those for merge come first, and among the others as among them names ascend. */
  lemma MergeFirst(refs: seq<Ref>, i: nat, j: nat)
    requires InOrder(refs) && AllNamed(refs) && i < j < |refs|
    ensures refs[j].isMerge ==> refs[i].isMerge
    ensures refs[i].isMerge == refs[j].isMerge ==> StrCmp(refs[i].name.value, refs[j].name.value) <= 0
  {
    assert refs[i] in refs && refs[j] in refs && Compare(refs[i], refs[j]) <= 0;
  }

  lemma CompareFlip(a: Ref, b: Ref)
    ensures Compare(a, b) > 0 <==> Compare(b, a) < 0
  {
    if a.name.Some? && b.name.Some? {
      StrCmpIs(a.name.value, b.name.value);
      StrCmpIs(b.name.value, a.name.value);
    }
  }

  // Puts a reference behind those that do not come after it.
  method Insert(sorted: seq<Ref>, ref: Ref) returns (r: seq<Ref>)
    requires InOrder(sorted)
    ensures InOrder(r) && multiset(r) == multiset(sorted) + multiset{ref}
  {
    hide Compare;
    var i := |sorted|;
    while 0 < i && Compare(sorted[i - 1], ref) > 0
      invariant 0 <= i <= |sorted|
      invariant forall k :: i <= k < |sorted| ==> Compare(sorted[k], ref) > 0
    {
      i := i - 1;
    }
    Inserted(sorted, ref, i);
    r := sorted[..i] + [ref] + sorted[i..];
    assert sorted == sorted[..i] + sorted[i..];
  }

  lemma Inserted(sorted: seq<Ref>, ref: Ref, i: nat)
    requires InOrder(sorted) && i <= |sorted|
    requires 0 < i ==> Compare(sorted[i - 1], ref) <= 0
    requires forall k :: i <= k < |sorted| ==> Compare(sorted[k], ref) > 0
    ensures InOrder(sorted[..i] + [ref] + sorted[i..])
  {
    hide Compare;
    var r := sorted[..i] + [ref] + sorted[i..];
    assert forall k :: 0 <= k < |r| ==> r[k] == InsertedAt(sorted, ref, i, k);
    hide InsertedAt;
    forall m, n | 0 <= m < n < |r| ensures Compare(r[m], r[n]) <= 0 {
      InsertedPair(sorted, ref, i, m, n);
    }
  }

  function InsertedAt(sorted: seq<Ref>, ref: Ref, i: nat, k: nat): Ref
    requires i <= |sorted| && k <= |sorted|
  {
    if k < i then sorted[k] else if k == i then ref else sorted[k - 1]
  }

  lemma InsertedPair(sorted: seq<Ref>, ref: Ref, i: nat, m: nat, n: nat)
    requires InOrder(sorted) && i <= |sorted| && m < n <= |sorted|
    requires 0 < i ==> Compare(sorted[i - 1], ref) <= 0
    requires forall k :: i <= k < |sorted| ==> Compare(sorted[k], ref) > 0
    ensures Compare(InsertedAt(sorted, ref, i, m), InsertedAt(sorted, ref, i, n)) <= 0
  {
    hide Compare;
    if n == i && m < i - 1 {
      CompareTrans(sorted[m], sorted[i - 1], ref);
    } else if m == i {
      CompareFlip(sorted[n - 1], ref);
    }
  }

  method SortRefs(refs: seq<Ref>) returns (r: seq<Ref>)
    ensures InOrder(r) && multiset(r) == multiset(refs)
  {
    hide Compare;
    r := [];
    for i := 0 to |refs|
      invariant InOrder(r) && multiset(r) == multiset(refs[..i])
    {
      r := Insert(r, refs[i]);
      assert refs[..i + 1] == refs[..i] + [refs[i]];
    }
    assert refs[..|refs|] == refs;
  }

  predicate AllNamed(refs: seq<Ref>) {
    forall ref :: ref in refs ==> ref.name.Some?
  }

  function TextOf(refs: seq<Ref>): string
    requires AllNamed(refs)
  {
    if refs == [] then "" else LineOf(refs[0]) + "\n" + TextOf(refs[1..])
  }

  method WriteRef(ref: Ref) returns (line: string)
    requires ref.name.Some?
    ensures line == LineOf(ref) + "\n"
  {
    hide Format;
    var name := ref.name.value;
    var oid := Format(ref.oid);
    if name == HEAD {
      line := oid + "\t\t" + ref.url + "\n";
      assert LineOf(ref) == oid + "\t" + "" + "\t" + ref.url;
      return;
    }
    var kind, short := "", name;
    if HEADS <= name {
      kind, short := "branch ", name[|HEADS|..];
    } else if TAGS <= name {
      kind, short := "tag ", name[|TAGS|..];
    }
    assert (kind, short) == Described(name);
    var flag := if ref.isMerge then "" else NOT_FOR_MERGE;
    line := oid + "\t" + flag + "\t" + (kind + "'" + short + "' of " + ref.url) + "\n";
  }

  method Write(refs: seq<Ref>) returns (sorted: seq<Ref>, text: string)
    requires AllNamed(refs)
    ensures InOrder(sorted) && multiset(sorted) == multiset(refs)
    ensures AllNamed(sorted) && text == TextOf(sorted)
  {
    hide InOrder, LineOf;
    sorted := SortRefs(refs);
    forall ref | ref in sorted ensures ref in refs {
      assert ref in multiset(sorted);
    }
    text := "";
    for i := 0 to |sorted|
      invariant TextOf(sorted) == text + TextOf(sorted[i..])
    {
      var line := WriteRef(sorted[i]);
      assert sorted[i..][1..] == sorted[i + 1..];
      ConcatAssociates(text, line, TextOf(sorted[i + 1..]));
      text := text + line;
    }
  }

  // What the reader hands to the callback, and how it ends.
  function Visit(text: string, before: bool, callback: Record -> int): (seq<Record>, int)
    decreases |text|
  {
    var i := IndexOf(text, '\n');
    if i == |text| then ([], if text == "" then 0 else -1)
    else
      var record := ParseLine(text[..i], before);
      if record.None? then ([], -1)
      else if callback(record.value) != 0 then ([record.value], callback(record.value))
      else
        var rest := Visit(text[i + 1..], record.value.isMerge, callback);
        ([record.value] + rest.0, rest.1)
  }

  method Separated(s: string, from: nat, c: char) returns (i: nat)
    requires from <= |s|
    ensures i == from + IndexOf(s[from..], c)
  {
    i := from;
    while i < |s| && s[i] != c
      invariant from <= i <= |s|
      invariant forall k :: from <= k < i ==> s[k] != c
    {
      i := i + 1;
    }
    FirstIndexIs(s[from..], c, i - from);
  }

  lemma VisitAt(text: string, pos: nat, end: nat, before: bool, callback: Record -> int)
    requires pos <= end <= |text| && end == pos + IndexOf(text[pos..], '\n')
    ensures
      Visit(text[pos..], before, callback)
      == if end == |text| then ([], if pos == |text| then 0 else -1)
         else
           var record := ParseLine(text[pos..end], before);
           if record.None? then ([], -1)
           else if callback(record.value) != 0 then ([record.value], callback(record.value))
           else
             var rest := Visit(text[end + 1..], record.value.isMerge, callback);
             ([record.value] + rest.0, rest.1)
  {
    hide ParseLine, IndexOf;
    if end < |text| {
      assert text[pos..][..end - pos] == text[pos..end];
      assert text[pos..][end - pos + 1..] == text[end + 1..];
    }
  }

  method Foreach(text: string, callback: Record -> int) returns (visited: seq<Record>, error: int)
    ensures (visited, error) == Visit(text, false, callback)
  {
    hide ParseLine, IndexOf, Visit;
    visited, error := [], 0;
    var pos, isMerge := 0, false;
    assert text[0..] == text;
    ghost var all := Visit(text, false, callback);
    assert [] + all.0 == all.0;
    while true
      invariant pos <= |text|
      invariant Visit(text, false, callback)
             == (visited + Visit(text[pos..], isMerge, callback).0, Visit(text[pos..], isMerge, callback).1)
      decreases |text| - pos
    {
      var end := Separated(text, pos, '\n');
      VisitAt(text, pos, end, isMerge, callback);
      assert visited + [] == visited;
      if end == |text| {
        return visited, if pos == |text| then 0 else -1;
      }
      var record := ParseLine(text[pos..end], isMerge);
      if record.None? {
        return visited, -1;
      }
      ConcatAssociates(visited, [record.value], Visit(text[end + 1..], record.value.isMerge, callback).0);
      visited := visited + [record.value];
      isMerge := record.value.isMerge;
      error := callback(record.value);
      if error != 0 {
        return;
      }
      pos := end + 1;
    }
  }

  function Records(refs: seq<Ref>): seq<Record> {
    if refs == [] then [] else [RecordOf(refs[0])] + Records(refs[1..])
  }

  predicate OnOneLine(ref: Ref) {
    ref.name.Some? && '\n' !in ref.name.value && '\n' !in ref.url
  }

  lemma LineIsOne(ref: Ref)
    requires OnOneLine(ref)
    ensures '\n' !in LineOf(ref)
  {
    hide Format;
    HexRoundTrip(ref.oid);
  }

  lemma VisitLine(line: string, rest: string, before: bool, callback: Record -> int)
    requires '\n' !in line && forall record :: callback(record) == 0
    ensures Visit(line + "\n" + rest, before, callback)
         == match ParseLine(line, before)
            case None => ([], -1)
            case Some(record) =>
              ([record] + Visit(rest, record.isMerge, callback).0, Visit(rest, record.isMerge, callback).1)
  {
    hide ParseLine;
    var text := line + "\n" + rest;
    FirstIndexIs(text, '\n', |line|);
    assert text[..|line|] == line && text[|line| + 1..] == rest;
  }

  lemma SameHead<T>(a: T, x: seq<T>, b: T, y: seq<T>)
    ensures [a] + x == [b] + y <==> a == b && x == y
  {
    assert ([a] + x)[0] == a && ([a] + x)[1..] == x && ([b] + y)[0] == b && ([b] + y)[1..] == y;
  }

  /** A written file is read back as its records exactly when every name is readable. */
  lemma {:induction false} FileRoundTrip(refs: seq<Ref>, before: bool, callback: Record -> int)
    requires AllNamed(refs) && forall ref :: ref in refs ==> OnOneLine(ref)
    requires forall record :: callback(record) == 0
    ensures Visit(TextOf(refs), before, callback) == (Records(refs), 0)
       <==> forall ref :: ref in refs ==> IsReadable(ref.name.value)
  {
    hide LineOf, ParseLine, OnOneLine, IsReadable, RecordOf, Visit;
    if refs == [] {
      NothingVisited(before, callback);
    } else {
      assert refs[0] in refs && refs == [refs[0]] + refs[1..];
      var ref, rest := refs[0], TextOf(refs[1..]);
      LineIsOne(ref);
      VisitLine(LineOf(ref), rest, before, callback);
      LineRoundTrip(ref, before);
      var read := ParseLine(LineOf(ref), before);
      if read.Some? {
        SameHead(read.value, Visit(rest, read.value.isMerge, callback).0, RecordOf(ref), Records(refs[1..]));
        FileRoundTrip(refs[1..], read.value.isMerge, callback);
      }
    }
  }

  lemma NothingVisited(before: bool, callback: Record -> int)
    ensures Visit("", before, callback) == ([], 0)
  {
  }
}
