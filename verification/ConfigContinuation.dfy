/**
  When continuing a value over several lines fails its assertion (config_file.c): the
  spelling on the first line looks continued and what it stands for does not.
*/
module ConfigContinuation {
  import opened Bytes
  import opened CStrings
  import opened ConfigText
  import opened ConfigReader

  // A line that is not only a comment comes before an empty one.
  predicate Follows(text: string, pos: nat, inQuotes: nat)
    requires pos <= |text|
    decreases |text| - pos
  {
    var raw := LineAt(text, pos, false);
    var open := if inQuotes == 0 then 0 else 1;
    && raw.text != ""
    && (WithoutComment(raw.text, open) != "" || Follows(text, raw.next, QuotesSeen(raw.text, open)))
  }

  lemma NothingLost()
    ensures !IsContinued("")
  {
  }

  /** A value that looks continued never fails the assertion, one that does not fails as soon as something follows. */
  lemma {:induction false} ContinueAsserts(text: string, pos: nat, value: string, inQuotes: nat)
    requires pos <= |text|
    ensures Continue(text, pos, value, inQuotes).0.AssertionFailed?
       <==> !IsContinued(value) && Follows(text, pos, inQuotes)
    decreases |text| - pos
  {
    hide LineAt, WithoutComment, QuotesSeen, Unescape, IsContinued;
    NothingLost();
    var raw := LineAt(text, pos, false);
    var open := if inQuotes == 0 then 0 else 1;
    if raw.text != "" {
      var line, quotes := WithoutComment(raw.text, open), QuotesSeen(raw.text, open);
      if line == "" {
        ContinueAsserts(text, raw.next, value, quotes);
      } else if IsContinued(value) && Unescape(line).Some? {
        ContinueAsserts(text, raw.next, value[..|value| - 1] + Unescape(line).value, quotes);
      }
    }
  }

  // ---- Counting backslashes -------------------------------------------------

  function Marks(n: nat): string {
    seq(n, _ => '\\')
  }

  /** Pairs of final backslashes are halved, and a lone last one is kept. */
  lemma {:induction false} UnescapeMarks(n: nat)
    ensures Unescape(Marks(n)) == Some(Marks((n + 1) / 2))
  {
    if n == 1 {
      assert Marks(1) == "\\";
    } else if n >= 2 {
      UnescapeMarks(n - 2);
      assert Marks(n)[2..] == Marks(n - 2);
      assert Marks((n + 1) / 2) == "\\" + Marks((n - 1) / 2);
    }
  }

  // Decoding a piece that does not end in a backslash does not depend on what comes after it.
  lemma {:induction false} UnescapeConcat(head: string, tail: string)
    requires head == "" || head[|head| - 1] != '\\'
    ensures Unescape(head + tail)
         == if Unescape(head).None? then None else Prepend(Unescape(head).value, Unescape(tail))
  {
    var s, rest := head + tail, Unescape(tail);
    if head == "" {
      assert s == tail;
      assert rest.Some? ==> "" + rest.value == rest.value;
    } else {
      var used := if head[0] == '\\' then 2 else 1;
      assert s[used..] == head[used..] + tail;
      UnescapeConcat(head[used..], tail);
      var more := Unescape(head[used..]);
      var c := if head[0] == '\\' then EscapedBy(head[1]) else Some(head[0]);
      hide EscapedBy;
      if c.Some? && more.Some? && rest.Some? {
        ConcatAssociates([c.value], more.value, rest.value);
      }
    }
  }

  lemma BackslashesBefore(s: string, n: nat)
    ensures Backslashes(s + Marks(n)) == Backslashes(s) + n
  {
    var t := s + Marks(n);
    var m := Backslashes(s);
    forall k | |t| - m - n <= k < |t| ensures t[k] == '\\' {
      assert k < |s| ==> t[k] == s[k];
    }
    BackslashesAre(t, m + n);
  }

  /**
    A spelling that looks continued while its value does not: it ends in an odd number of
    backslashes, half of which are left, and together with those that stood before them
    they are all there is or an even number.
  */
  predicate LosesMark(rhs: string) {
    && IsContinued(rhs)
    && var n := Backslashes(rhs);
       var kept := Unescape(rhs[..|rhs| - n]);
       && kept.Some?
       && var before := Backslashes(kept.value);
          before == |kept.value| || (before + (n + 1) / 2) % 2 == 0
  }

  lemma MarkLost(rhs: string)
    ensures LosesMark(rhs) <==> IsContinued(rhs) && Unescape(rhs).Some? && !IsContinued(Unescape(rhs).value)
  {
    hide Unescape, Backslashes;
    if IsContinued(rhs) {
      var n := Backslashes(rhs);
      var head := rhs[..|rhs| - n];
      assert rhs == head + Marks(n);
      UnescapeConcat(head, Marks(n));
      UnescapeMarks(n);
      if Unescape(head).Some? {
        BackslashesBefore(Unescape(head).value, (n + 1) / 2);
      }
    }
  }

  /** Reading a variable reaches the failing assertion exactly when its spelling loses the mark and something follows. */
  lemma AssertionExactly(text: string, pos: nat)
    requires pos <= |text|
    ensures
      var raw := LineAt(text, pos, true);
      var rhs := Sides(WithoutComment(raw.text, 0)).1;
      VariableAt(text, pos).0.AssertionFailed?
      <==> rhs.Some? && LosesMark(rhs.value) && Follows(text, raw.next, QuotesSeen(raw.text, 0))
  {
    hide LineAt, WithoutComment, QuotesSeen, Unescape, IsContinued, Continue, Sides, LosesMark, Follows;
    var raw := LineAt(text, pos, true);
    var rhs := Sides(WithoutComment(raw.text, 0)).1;
    var quotes := QuotesSeen(raw.text, 0);
    if rhs.Some? {
      MarkLost(rhs.value);
      NothingLost();
      if Unescape(rhs.value).Some? {
        ContinueAsserts(text, raw.next, Unescape(rhs.value).value, quotes);
      }
    }
  }

  /** Spellings that lose the mark: one with an escaped backslash before it, and one that is nothing but a quote. */
  lemma LosesMarkExamples()
    ensures LosesMark("a\\\\\\") && LosesMark("\"\\")
    ensures !LosesMark("a\\") && !LosesMark("a\"\\")
  {
    hide Backslashes;
    BackslashesAre("a\\\\\\", 3);
    BackslashesAre("\"\\", 1);
    BackslashesAre("a\\", 1);
    BackslashesAre("a\"\\", 1);
    BackslashesAre("a", 0);
    BackslashesAre("", 0);
    UnescapeSamples();
    assert "a\\\\\\"[..1] == "a" && "\"\\"[..1] == "\"" && "a\\"[..1] == "a" && "a\"\\"[..2] == "a\"";
    hide Unescape;
  }

  lemma UnescapeSamples()
    ensures Unescape("a") == Some("a") && Unescape("\"") == Some("") && Unescape("a\"") == Some("a")
  {
    hide Unescape;
    UnescapeNothing();
    UnescapeOne("\"", "");
    UnescapeOne("a", "");
    UnescapeOne("a\"", "\"");
    assert "a\""[1..] == "\"";
    assert ['a'] + "" == "a";
  }

  lemma UnescapeOne(s: string, rest: string)
    requires s != "" && s[0] != '\\' && s[1..] == rest
    ensures Unescape(s) == if s[0] == '"' then Unescape(rest) else Prepend([s[0]], Unescape(rest))
  {
  }

  /** Reading a quote and a backslash, and anything on the next line, fails the assertion. */
  lemma QuotedMarkFails()
    ensures VariableAt("n = \"\\\nx", 0).0 == AssertionFailed
  {
    hide IsSpace, LosesMark, VariableAt, Follows;
    var text, line := "n = \"\\\nx", "n = \"\\";
    FirstLineOfSample(text, line);
    SidesOfSample(line);
    LosesMarkExamples();
    NextLineOfSample(text, QuotesSeen(line, 0));
    AssertionExactly(text, 0);
  }

  lemma FirstLineOfSample(text: string, line: string)
    requires text == "n = \"\\\nx" && line == "n = \"\\"
    ensures LineAt(text, 0, true) == Line(line, 7)
    ensures WithoutComment(line, 0) == line
  {
    SpacesSkipped(text, 0, 0);
    LineEndsAt(text, 0, 6);
    assert text[0..6] == line;
    TrimmedRightIs(line, 6);
    FirstCommentIs(line, 0, 0, 6);
    assert line[..6] == line;
    hide TrimRight, LineEnd, SkipSpace, CommentStart;
  }

  lemma SidesOfSample(line: string)
    requires line == "n = \"\\"
    ensures Sides(line).1 == Some("\"\\")
  {
    hide TrimLeft, IndexOf;
    FirstIndexIs(line, '=', 2);
    TrimmedTail(line, 3, 4);
    assert line[4..] == "\"\\";
  }

  lemma NextLineOfSample(text: string, quotes: nat)
    requires text == "n = \"\\\nx"
    ensures Follows(text, 7, quotes)
  {
    hide LineEnd, TrimRight, CommentStart;
    LineEndsAt(text, 7, 8);
    assert text[7..8] == "x";
    TrimmedRightIs("x", 1);
    FirstCommentIs("x", if quotes == 0 then 0 else 1, 0, 1);
    assert "x"[..1] == "x";
  }
}
