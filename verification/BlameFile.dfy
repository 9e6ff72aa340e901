/** Blaming a file: the lines of its final version, the first entry, and the hunks made of the last ones. */
module BlameFile {
  import opened Bytes
  import opened BlameRanges
  import opened BlamePassing
  import opened BlameCompleteness
  import opened BlameScoreboard

  // ---------- where lines begin ----------

  /** Line `i` is the stretch from `from` up to `to`. */
  ghost predicate LineIs(b: seq<byte>, i: nat, from: nat, to: nat) {
    i < |Lines(b)| && from < to <= |b| && Lines(b)[i] == b[from..to]
  }

  /** `index` holds where each line begins, and at its end where the last one ends. */
  ghost predicate IsLineIndex(b: seq<byte>, index: seq<nat>) {
    && |index| == |Lines(b)| + 1 && index[|index| - 1] == |b|
    && forall i: nat :: i < |Lines(b)| ==> LineIs(b, i, index[i], index[i + 1])
  }

  lemma {:induction false} LineEndAt(b: seq<byte>, n: nat)
    requires n < |b| && (forall j :: 0 <= j < n ==> b[j] != NEWLINE)
    ensures b[n] == NEWLINE ==> LineEnd(b) == n + 1
    ensures b[n] != NEWLINE && n + 1 == |b| ==> LineEnd(b) == |b|
  {
    if n > 0 {
      LineEndAt(b[1..], n - 1);
    } else if |b| == 1 && b[0] != NEWLINE {
      assert b[1..] == [];
    }
  }

  // Where line `i` of the first `num` ends.
  ghost function LineStop(index: seq<nat>, num: nat, start: nat, i: nat): nat
    requires num <= |index|
  {
    if i + 1 < num then index[i + 1] else start
  }

  // The lines before `start`, of which there are `num`, have been indexed.
  ghost predicate Indexed(b: seq<byte>, index: seq<nat>, num: nat, start: nat) {
    && start <= |b| && num <= |index| <= num + 1
    && (|index| == num + 1 ==> index[num] == start)
    && num <= |Lines(b)| && Lines(b) == Lines(b)[..num] + Lines(b[start..])
    && forall i: nat {:trigger LineStop(index, num, start, i)} :: i < num ==> LineIs(b, i, index[i], LineStop(index, num, start, i))
  }

  // The line from `start` ends after position `pos`.
  lemma LineDone(b: seq<byte>, index: seq<nat>, num: nat, start: nat, pos: nat)
    requires Indexed(b, index, num, start) && |index| == num + 1
    requires start <= pos < |b| && (forall j :: start <= j < pos ==> b[j] != NEWLINE)
    requires b[pos] == NEWLINE || pos + 1 == |b|
    ensures Indexed(b, index, num + 1, pos + 1)
  {
    hide Lines, LineEnd;
    var rest := b[start..];
    LineEndAt(rest, pos - start);
    LinesUnfold(rest);
    assert rest[..pos + 1 - start] == b[start..pos + 1] && rest[pos + 1 - start..] == b[pos + 1..];
    assert Lines(b)[num] == b[start..pos + 1];
    assert Lines(b)[..num + 1] == Lines(b)[..num] + [b[start..pos + 1]];
    forall i: nat | i < num + 1
      ensures LineIs(b, i, index[i], LineStop(index, num + 1, pos + 1, i))
    {
      var stop := LineStop(index, num, start, i);
    }
  }

  /** Notes where each line begins; the number of lines counts an incomplete last one. */
  method IndexBlobLines(b: seq<byte>) returns (index: seq<nat>, numLines: nat)
    ensures IsLineIndex(b, index) && numLines == |Lines(b)|
  {
    hide Lines, LineEnd, Indexed;
    index := [];
    var num, incomplete, bol := 0, 0, true;
    if b != [] && b[|b| - 1] != NEWLINE {
      incomplete := 1;
    }
    var pos: nat := 0;
    ghost var start: nat := 0;
    NothingIndexed(b);
    while pos < |b|
      invariant start <= pos <= |b| && (bol ==> start == pos) && (!bol ==> start < pos)
      invariant Indexed(b, index, num, start) && |index| == if bol then num else num + 1
      invariant forall j :: start <= j < pos ==> b[j] != NEWLINE
      invariant bol && pos > 0 ==> b[pos - 1] == NEWLINE
    {
      if bol {
        NextIndexed(b, index, num, start);
        index := index + [pos];
        bol := false;
      }
      if b[pos] == NEWLINE {
        LineDone(b, index, num, start, pos);
        num := num + 1;
        bol := true;
        start := pos + 1;
      }
      pos := pos + 1;
    }
    if !bol {
      LineDone(b, index, num, start, pos - 1);
    }
    AllIndexed(b, index, num + incomplete);
    index := index + [pos];
    numLines := num + incomplete;
  }

  lemma NothingIndexed(b: seq<byte>)
    ensures Indexed(b, [], 0, 0)
  {
    assert b[0..] == b;
  }

  lemma NextIndexed(b: seq<byte>, index: seq<nat>, num: nat, start: nat)
    requires Indexed(b, index, num, start) && |index| == num
    ensures Indexed(b, index + [start], num, start)
  {
    hide Lines;
    forall i: nat | i < num
      ensures LineIs(b, i, (index + [start])[i], LineStop(index + [start], num, start, i))
    {
      var stop := LineStop(index, num, start, i);
    }
  }

  lemma AllIndexed(b: seq<byte>, index: seq<nat>, num: nat)
    requires Indexed(b, index, num, |b|) && |index| == num
    ensures IsLineIndex(b, index + [|b|]) && num == |Lines(b)|
  {
    hide Lines;
    assert b[|b|..] == [];
    LinesNil();
    var all := index + [|b|];
    assert |Lines(b)| == num;
    forall i: nat | i < num
      ensures LineIs(b, i, all[i], all[i + 1])
    {
      var stop := LineStop(index, num, |b|, i);
    }
  }

  // ---------- blaming ----------

  /** A hunk of the result; lines are counted from one, in sixteen bits. */
  datatype Hunk = Hunk(finalStart: nat, lines: nat, origStart: nat, origin: Origin, boundary: bool)

  function Truncate16(n: int): nat {
    n % 0x1_0000
  }

  function HunkOf(p: Part): Hunk {
    Hunk(Truncate16(p.lno + 1), Truncate16(p.numLines), Truncate16(p.sLno + 1), p.suspect, p.isBoundary)
  }

  function HunksOf(parts: seq<Part>): (r: seq<Hunk>)
    ensures |r| == |parts| && forall i :: 0 <= i < |r| ==> r[i] == HunkOf(parts[i])
  {
    if parts == [] then [] else [HunkOf(parts[0])] + HunksOf(parts[1..])
  }

  /** The first entry: lines `minLine` to `maxLine`, or to the end when `maxLine` is zero, all suspected of the final version. */
  function FirstPart(final: Origin, total: nat, minLine: nat, maxLine: nat): Part {
    var n := if maxLine > 0 then maxLine - minLine + 1 else total - minLine + 1;
    Part(minLine - 1, n, final, false, minLine - 1, false)
  }

  lemma FirstPartIsGood(h: History, final: Origin, total: nat, minLine: nat, maxLine: nat)
    ensures var p := FirstPart(final, total, minLine, maxLine);
            Good(h, final, p.lno, p.lno + p.numLines, [p])
  {
    hide History.Reaches, History.LinesOf, Tiles, IsTrue;
    var p := FirstPart(final, total, minLine, maxLine);
    TilesOne(p);
    StartsTrue(h, final, p);
    ReachesItself(h, final.commit);
  }

  lemma StartsTrue(h: History, final: Origin, p: Part)
    requires p.suspect == final && p.sLno == p.lno
    ensures IsTrue(h, final, p)
  {
    hide History.LinesOf;
  }

  lemma ReachesItself(h: History, c: nat)
    ensures h.Reaches(c, c)
  {
    var path: seq<nat> := [c];
    assert h.IsPath(path) && path[0] == c && path[|path| - 1] == c;
  }

  /** The parts a blame of the file ends with. */
  ghost function BlamedParts(h: History, final: Origin, oldest: Option<nat>, minLine: nat, maxLine: nat): (parts: seq<Part>)
    requires h.Valid()
    ensures var p := FirstPart(final, |h.LinesOf(final)|, minLine, maxLine);
            Good(h, final, p.lno, p.lno + p.numLines, parts)
    ensures forall p :: p in parts ==> p.guilty
  {
    var p := FirstPart(final, |h.LinesOf(final)|, minLine, maxLine);
    FirstPartIsGood(h, final, |h.LinesOf(final)|, minLine, maxLine);
    LikeGit(h, final, p.lno, p.lno + p.numLines, Board([p], oldest, 0)).parts
  }

  lemma BlamedPartsAre(h: History, final: Origin, oldest: Option<nat>, minLine: nat, maxLine: nat)
    requires h.Valid()
    ensures
      var p := FirstPart(final, |h.LinesOf(final)|, minLine, maxLine);
      && Good(h, final, p.lno, p.lno + p.numLines, [p])
      && BlamedParts(h, final, oldest, minLine, maxLine)
         == LikeGit(h, final, p.lno, p.lno + p.numLines, Board([p], oldest, 0)).parts
  {
    hide LikeGit, Good, History.Valid, History.LinesOf;
    FirstPartIsGood(h, final, |h.LinesOf(final)|, minLine, maxLine);
  }

  /** Blames a file and returns its hunks. */
  method BlameInternal(h: History, final: Origin, oldest: Option<nat>, minLine: nat, maxLine: nat) returns (hunks: seq<Hunk>)
    requires h.Valid()
    ensures hunks == HunksOf(BlamedParts(h, final, oldest, minLine, maxLine))
  {
    hide LikeGit, Good, History.Valid, Values, HunksOf, Lines, Scoreboard.Linked, BlamedParts;
    var index, total := IndexBlobLines(h.blob(final));
    var p := FirstPart(final, total, minLine, maxLine);
    FirstPartIsGood(h, final, total, minLine, maxLine);
    var e := new Entry(p);
    var board := new Scoreboard(e, oldest);
    assert board.View() == Board([p], oldest, 0);
    board.Run(h, final, p.lno, p.lno + p.numLines);
    BlamedPartsAre(h, final, oldest, minLine, maxLine);
    hunks := Drain(board);
  }

  /** Takes the entries off the list, one hunk each. */
  method Drain(board: Scoreboard) returns (hunks: seq<Hunk>)
    requires board.Linked()
    ensures hunks == HunksOf(board.Parts())
  {
    hide Values, HunksOf;
    hunks := [];
    ghost var k: nat := 0;
    var e := board.ent;
    while e != null
      invariant k <= |board.nodes| && e == if k == |board.nodes| then null else board.nodes[k]
      invariant |hunks| == k && forall i :: 0 <= i < k ==> hunks[i] == HunkOf(board.Parts()[i])
      decreases |board.nodes| - k
    {
      hunks := hunks + [HunkOf(e.Value())];
      e := e.next;
      k := k + 1;
    }
  }

  // ---------- what the hunks say ----------

  /** The lines asked for are in the file. */
  predicate InFile(total: nat, minLine: nat, maxLine: nat) {
    1 <= minLine <= total && (maxLine > 0 ==> minLine <= maxLine <= total)
  }

  lemma {:induction false} TilesJoin(parts: seq<Part>, lo: int, hi: int, k: nat)
    requires Tiles(parts, lo, hi) && k < |parts|
    ensures parts[k].lno == if k == 0 then lo else parts[k - 1].lno + parts[k - 1].numLines
    ensures k == |parts| - 1 ==> parts[k].lno + parts[k].numLines == hi
    decreases |parts|
  {
    if k > 0 {
      TilesJoin(parts[1..], lo + parts[0].numLines, hi, k - 1);
    }
  }

  // The first of several ranges is not empty, so each lies inside the whole.
  lemma PartInside(parts: seq<Part>, lo: int, hi: int, k: nat)
    requires Tiles(parts, lo, hi) && NonEmpty(parts) && k < |parts| && lo < hi
    ensures parts[k].numLines >= 1 && lo <= parts[k].lno && parts[k].lno + parts[k].numLines <= hi
  {
    hide Tiles;
    TilesJoin(parts, lo, hi, 0);
    TilesJoin(parts, lo, hi, |parts| - 1);
    TilesOrder(parts, lo, hi, k);
    TilesOrder(parts, lo, hi, |parts| - 1);
  }

  // The lines of a true range are lines of the suspect's file, and its hunk can count them.
  lemma PartFits(h: History, final: Origin, p: Part, i: nat)
    requires IsTrue(h, final, p) && i < p.numLines && 0 <= p.lno && p.lno + p.numLines <= |h.LinesOf(final)|
    requires |h.LinesOf(final)| < 0x1_0000 && |h.LinesOf(p.suspect)| < 0x1_0000
    ensures p.sLno >= 0 && HunkOf(p) == Hunk(p.lno + 1, p.numLines, p.sLno + 1, p.suspect, p.isBoundary)
    ensures LineAt(h.LinesOf(final), p.lno + i) == LineAt(h.LinesOf(p.suspect), p.sLno + i) != None
  {
    hide Lines;
    var f, g := h.LinesOf(final), h.LinesOf(p.suspect);
    var last := p.numLines - 1;
    assert LineAt(f, p.lno) == LineAt(g, p.sLno + (p.lno - p.lno));
    assert LineAt(f, p.lno + last) == LineAt(g, p.sLno + (p.lno + last - p.lno));
    assert LineAt(f, p.lno + i) == LineAt(g, p.sLno + (p.lno + i - p.lno));
  }

  // What each range of a good scoreboard says, and its hunk with it.
  lemma PartSays(h: History, final: Origin, lo: int, hi: int, parts: seq<Part>, k: nat, i: nat)
    requires Good(h, final, lo, hi, parts) && k < |parts| && 0 <= lo < hi <= |h.LinesOf(final)|
    requires forall o :: |h.LinesOf(o)| < 0x1_0000
    ensures var p := parts[k];
            && p.numLines >= 1 && p.sLno >= 0 && lo <= p.lno
            && HunkOf(p) == Hunk(p.lno + 1, p.numLines, p.sLno + 1, p.suspect, p.isBoundary)
            && h.Reaches(final.commit, p.suspect.commit)
            && p.lno == (if k == 0 then lo else parts[k - 1].lno + parts[k - 1].numLines)
            && (k == |parts| - 1 ==> p.lno + p.numLines == hi)
    ensures i < parts[k].numLines ==>
              LineAt(h.LinesOf(final), parts[k].lno + i) == LineAt(h.LinesOf(parts[k].suspect), parts[k].sLno + i) != None
  {
    hide Lines, Tiles, NonEmpty, IsTrue, History.Reaches, HunkOf, LineAt, History.LinesOf;
    var p := parts[k];
    assert p in parts;
    PartInside(parts, lo, hi, k);
    TilesJoin(parts, lo, hi, k);
    PartFits(h, final, p, 0);
    if i < p.numLines {
      PartFits(h, final, p, i);
    }
  }

  /**
    In a history whose files have less than 65536 lines, the hunks cover the lines asked
    for one after the other, and each line of a hunk is the very line of an ancestor's file it names.
  */
  lemma HunksAreTruthful(h: History, final: Origin, oldest: Option<nat>, minLine: nat, maxLine: nat, k: nat, i: nat)
    requires h.Valid() && InFile(|h.LinesOf(final)|, minLine, maxLine)
    requires forall o :: |h.LinesOf(o)| < 0x1_0000
    ensures
      var hunks := HunksOf(BlamedParts(h, final, oldest, minLine, maxLine));
      k < |hunks| ==>
        && hunks[k].lines >= 1
        && hunks[k].finalStart == (if k == 0 then minLine else hunks[k - 1].finalStart + hunks[k - 1].lines)
        && (k == |hunks| - 1 ==>
              hunks[k].finalStart + hunks[k].lines == 1 + if maxLine > 0 then maxLine else |h.LinesOf(final)|)
        && h.Reaches(final.commit, hunks[k].origin.commit)
        && (i < hunks[k].lines ==>
              LineAt(h.LinesOf(final), hunks[k].finalStart - 1 + i)
              == LineAt(h.LinesOf(hunks[k].origin), hunks[k].origStart - 1 + i) != None)
  {
    hide Lines, Good, History.Reaches, History.Valid, HunkOf, LineAt, BlamedParts, History.LinesOf, HunksOf;
    var first := FirstPart(final, |h.LinesOf(final)|, minLine, maxLine);
    var lo, hi := first.lno, first.lno + first.numLines;
    var parts := BlamedParts(h, final, oldest, minLine, maxLine);
    if k < |parts| {
      PartSays(h, final, lo, hi, parts, k, i);
      if k > 0 {
        PartSays(h, final, lo, hi, parts, k - 1, 0);
      }
    }
  }

  lemma BlamedPartsEarned(h: History, final: Origin, oldest: Option<nat>, minLine: nat, maxLine: nat)
    requires h.Valid()
    ensures forall p :: p in BlamedParts(h, final, oldest, minLine, maxLine) ==> Earned(h, oldest, p)
  {
    hide LikeGit, Good, Earned, History.Valid, History.LinesOf, BlamedParts;
    var p := FirstPart(final, |h.LinesOf(final)|, minLine, maxLine);
    BlamedPartsAre(h, final, oldest, minLine, maxLine);
    LikeGitEarned(h, final, p.lno, p.lno + p.numLines, Board([p], oldest, 0), oldest);
  }

  /** All lines of the hunk lie inside changes against the version in every parent of `q`, as asked for from question `n` on. */
  ghost predicate HunkDiffers(h: History, q: Origin, n: nat, hunk: Hunk) {
    forall l :: hunk.origStart - 1 <= l < hunk.origStart - 1 + hunk.lines ==> DiffersFromParents(h, q, n, l)
  }

  /**
    In such a history no hunk stops short: its lines differ from the version in every parent of
    the origin it names, or of one with the same content that it took over from, unless that is
    of a commit without parents or of the oldest one to go back to. A hunk is marked as boundary
    only for those, and always where there are no parents.
  */
  lemma HunksAreThorough(h: History, final: Origin, oldest: Option<nat>, minLine: nat, maxLine: nat, k: nat)
    requires h.Valid() && InFile(|h.LinesOf(final)|, minLine, maxLine)
    requires forall o :: |h.LinesOf(o)| < 0x1_0000
    ensures
      var hunks := HunksOf(BlamedParts(h, final, oldest, minLine, maxLine));
      k < |hunks| ==>
        exists q: Origin :: StandsFor(h, q, hunks[k].origin) &&
          if hunks[k].boundary then IsLast(h, oldest, q)
          else h.parents(q.commit) != [] && (oldest == Some(q.commit) || exists n: nat :: HunkDiffers(h, q, n, hunks[k]))
  {
    hide Lines, Good, History.Reaches, History.Valid, HunkOf, LineAt, BlamedParts, History.LinesOf, HunksOf,
         IsLast, DiffersFromParents, StandsFor;
    var first := FirstPart(final, |h.LinesOf(final)|, minLine, maxLine);
    var parts := BlamedParts(h, final, oldest, minLine, maxLine);
    if k < |parts| {
      PartSays(h, final, first.lno, first.lno + first.numLines, parts, k, 0);
      BlamedPartsEarned(h, final, oldest, minLine, maxLine);
      var p, hunk := parts[k], HunkOf(parts[k]);
      assert p in parts;
      var q: Origin :| StandsFor(h, q, p.suspect) && RightlyConvicted(h, oldest, q, p);
      if !p.isBoundary && oldest != Some(q.commit) {
        var n: nat :| LinesDiffer(h, q, n, p);
        assert HunkDiffers(h, q, n, hunk);
      }
    }
  }
}
