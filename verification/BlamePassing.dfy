/**
  Passing blame to parents: the edit script, the trimmed tail, whole files, and the
  main loop, with the argument that it ends.
*/
module BlamePassing {
  import opened Bytes
  import opened BlameRanges

  // ---------- the common tail ----------

  const BLOCK := 1024

  /** How many bytes at the end agree, in whole blocks. */
  function CommonBlocks(a: seq<byte>, b: seq<byte>, trimmed: nat): (t: nat)
    requires trimmed <= |a| && trimmed <= |b|
    ensures trimmed <= t <= |a| && t <= |b|
    decreases |a| - trimmed
  {
    if BLOCK + trimmed <= |a| && BLOCK + trimmed <= |b|
       && a[|a| - trimmed - BLOCK..|a| - trimmed] == b[|b| - trimmed - BLOCK..|b| - trimmed]
    then CommonBlocks(a, b, trimmed + BLOCK)
    else trimmed
  }

  /** How many bytes are trimmed: the common blocks, less what is left of the line they start in. */
  function TrimLength(a: seq<byte>, b: seq<byte>): (n: nat)
    ensures n <= |a| && n <= |b|
  {
    var t := CommonBlocks(a, b, 0);
    t - LineEnd(a[|a| - t..])
  }

  lemma {:induction false} CommonBlocksAgree(a: seq<byte>, b: seq<byte>, trimmed: nat)
    requires trimmed <= |a| && trimmed <= |b| && a[|a| - trimmed..] == b[|b| - trimmed..]
    ensures var t := CommonBlocks(a, b, trimmed); a[|a| - t..] == b[|b| - t..]
    decreases |a| - trimmed
  {
    var t := trimmed + BLOCK;
    if t <= |a| && t <= |b| && a[|a| - t..|a| - trimmed] == b[|b| - t..|b| - trimmed] {
      assert a[|a| - t..] == a[|a| - t..|a| - trimmed] + a[|a| - trimmed..];
      assert b[|b| - t..] == b[|b| - t..|b| - trimmed] + b[|b| - trimmed..];
      CommonBlocksAgree(a, b, t);
    }
  }

  // Before the last `t` bytes there are no two equal blocks.
  ghost predicate BlocksEnd(a: seq<byte>, b: seq<byte>, t: nat)
    requires t <= |a| && t <= |b|
  {
    t + 1024 > |a| || t + 1024 > |b| || a[|a| - t - 1024..|a| - t] != b[|b| - t - 1024..|b| - t]
  }

  lemma CommonBlocksUnfold(a: seq<byte>, b: seq<byte>, t: nat)
    requires t <= |a| && t <= |b|
    ensures if BlocksEnd(a, b, t) then CommonBlocks(a, b, t) == t
            else t + 1024 <= |a| && t + 1024 <= |b| && CommonBlocks(a, b, t) == CommonBlocks(a, b, t + 1024)
  {
  }

  /** Whole blocks of 1024 bytes are compared, until one differs or is not there on both sides. */
  lemma {:induction false} CommonBlocksEnd(a: seq<byte>, b: seq<byte>, trimmed: nat)
    requires trimmed <= |a| && trimmed <= |b| && trimmed % 1024 == 0
    ensures CommonBlocks(a, b, trimmed) % 1024 == 0 && BlocksEnd(a, b, CommonBlocks(a, b, trimmed))
    decreases |a| - trimmed
  {
    hide BlocksEnd, CommonBlocks;
    CommonBlocksUnfold(a, b, trimmed);
    if !BlocksEnd(a, b, trimmed) {
      CommonBlocksEnd(a, b, trimmed + 1024);
    }
  }

  ghost predicate EndsLine(b: seq<byte>) {
    b == [] || b[|b| - 1] == NEWLINE
  }

  lemma {:induction false} LineEndsLine(b: seq<byte>)
    ensures LineEnd(b) < |b| ==> b[LineEnd(b) - 1] == NEWLINE
    ensures forall k :: 0 <= k < LineEnd(b) - 1 ==> b[k] != NEWLINE
  {
    if b != [] && b[0] != NEWLINE {
      LineEndsLine(b[1..]);
    }
  }

  /** What is trimmed is the same on both sides and, if anything is, starts a line on both. */
  lemma TrimIsCommonLines(a: seq<byte>, b: seq<byte>)
    ensures var n := TrimLength(a, b);
            && a[|a| - n..] == b[|b| - n..]
            && (n > 0 ==> EndsLine(a[..|a| - n]) && EndsLine(b[..|b| - n]))
  {
    hide CommonBlocks, EndsLine, LineEnd;
    CommonBlocksAgree(a, b, 0);
    var t := CommonBlocks(a, b, 0);
    var ta, tb := a[|a| - t..], b[|b| - t..];
    var k := LineEnd(ta);
    LineEndsLine(ta);
    var n := t - k;
    assert a[|a| - n..] == ta[k..] && b[|b| - n..] == tb[k..];
    if n > 0 {
      CutEndsLine(a, t, k);
      CutEndsLine(b, t, k);
    }
  }

  lemma CutEndsLine(a: seq<byte>, t: nat, k: nat)
    requires 0 < k <= t <= |a| && a[|a| - t..][k - 1] == NEWLINE
    ensures EndsLine(a[..|a| - (t - k)])
  {
  }

  lemma {:induction false} LineEndConcat(x: seq<byte>, y: seq<byte>)
    requires x != [] && x[|x| - 1] == NEWLINE
    ensures LineEnd(x + y) == LineEnd(x)
    ensures EndsLine(x[LineEnd(x)..])
  {
    if x[0] != NEWLINE {
      assert (x + y)[1..] == x[1..] + y;
      LineEndConcat(x[1..], y);
      assert x[1..][LineEnd(x[1..])..] == x[LineEnd(x)..];
    }
  }

  /** Where one text ends a line, the lines of two texts are the lines of their concatenation. */
  lemma {:induction false} LinesConcat(x: seq<byte>, y: seq<byte>)
    requires EndsLine(x)
    ensures Lines(x + y) == Lines(x) + Lines(y)
    decreases |x|
  {
    hide Lines, LineEnd;
    if x == [] {
      assert x + y == y;
      LinesNil();
    } else {
      LineEndConcat(x, y);
      var n := LineEnd(x);
      LinesUnfold(x);
      LinesUnfold(x + y);
      assert (x + y)[..n] == x[..n] && (x + y)[n..] == x[n..] + y;
      LinesConcat(x[n..], y);
      ConcatAssociates([x[..n]], Lines(x[n..]), Lines(y));
    }
  }

  lemma LinesUnfold(b: seq<byte>)
    requires b != []
    ensures 0 < LineEnd(b) <= |b|
    ensures Lines(b) == [b[..LineEnd(b)]] + Lines(b[LineEnd(b)..])
  {
  }

  // ---------- one parent ----------

  datatype Position = Position(tlno: int, plno: int)

  /** Where the last unchanged region starts. */
  function EndOf(script: seq<Change>, at: Position): Position {
    if script == [] then at
    else EndOf(script[1..], Position(script[0].i2 + script[0].chg2, script[0].i1 + script[0].chg1))
  }

  /** Passes the regions before the changes of the script on to the parent, one after the other. */
  function AfterScript(parts: seq<Part>, script: seq<Change>, at: Position, target: Origin, parent: Origin): seq<Part>
    decreases |script|
  {
    if script == [] then parts
    else
      var c := script[0];
      AfterScript(Chunk(parts, at.tlno, at.plno, c.i2, target, parent), script[1..],
                  Position(c.i2 + c.chg2, c.i1 + c.chg1), target, parent)
  }

  /** The end of the last line the target is still suspected for, or -1. */
  function LastInTarget(parts: seq<Part>, target: Origin): int {
    if parts == [] then -1
    else
      var p, rest := parts[|parts| - 1], LastInTarget(parts[..|parts| - 1], target);
      if !p.guilty && p.suspect == target && rest < p.sLno + p.numLines then p.sLno + p.numLines else rest
  }

  function Script(h: History, target: Origin, parent: Origin): seq<Change> {
    var a, b := h.blob(parent), h.blob(target);
    var n := TrimLength(a, b);
    h.diff(a[..|a| - n], b[..|b| - n])
  }

  function PassToParent(h: History, parts: seq<Part>, target: Origin, parent: Origin): seq<Part> {
    var script := Script(h, target, parent);
    var end := EndOf(script, Position(0, 0));
    Chunk(AfterScript(parts, script, Position(0, 0), target, parent),
          end.tlno, end.plno, LastInTarget(parts, target), target, parent)
  }

  /** The region before a change is aligned, also in the files before trimming. */
  lemma RegionAligned(h: History, target: Origin, parent: Origin, a: seq<seq<byte>>, b: seq<seq<byte>>, tail: seq<seq<byte>>,
                      tlno: nat, plno: nat, i1: nat, i2: nat)
    requires h.LinesOf(parent) == a + tail && h.LinesOf(target) == b + tail
    requires plno <= i1 <= |a| && tlno <= i2 <= |b| && a[plno..i1] == b[tlno..i2]
    ensures Aligned(h, target, parent, tlno, plno, i2)
  {
    forall i | tlno <= i < i2
      ensures LineAt(h.LinesOf(target), i) == LineAt(h.LinesOf(parent), plno + (i - tlno))
    {
      assert b[tlno..i2][i - tlno] == a[plno..i1][i - tlno];
    }
  }

  /** After the last change the files agree to their ends, so any line is aligned, in the file or past it. */
  lemma RestAligned(h: History, target: Origin, parent: Origin, a: seq<seq<byte>>, b: seq<seq<byte>>, tail: seq<seq<byte>>,
                    tlno: nat, plno: nat, last: int)
    requires h.LinesOf(parent) == a + tail && h.LinesOf(target) == b + tail
    requires plno <= |a| && tlno <= |b| && a[plno..] == b[tlno..]
    ensures Aligned(h, target, parent, tlno, plno, last)
  {
    var d := |a| - plno;
    forall i | tlno <= i < last
      ensures LineAt(h.LinesOf(target), i) == LineAt(h.LinesOf(parent), plno + (i - tlno))
    {
      if i < tlno + d {
        assert b[tlno..][i - tlno] == a[plno..][i - tlno];
      }
    }
  }

  // ---------- what passing keeps ----------

  /** The invariant of the scoreboard. */
  ghost predicate Good(h: History, final: Origin, lo: int, hi: int, parts: seq<Part>) {
    && Tiles(parts, lo, hi) && NonEmpty(parts)
    && AllTrue(h, final, parts) && AllReachable(h, final, parts)
  }

  lemma ChunkKeepsGood(h: History, final: Origin, lo: int, hi: int, parts: seq<Part>,
                       tlno: int, plno: int, same: int, target: Origin, parent: Origin)
    requires Good(h, final, lo, hi, parts) && Aligned(h, target, parent, tlno, plno, same)
    requires h.Reaches(final.commit, parent.commit)
    ensures Good(h, final, lo, hi, Chunk(parts, tlno, plno, same, target, parent))
  {
    hide Aligned, AllTrue, AllReachable, Tiles, NonEmpty, Chunk, History.Reaches;
    ChunkKeepsShape(parts, lo, hi, tlno, plno, same, target, parent);
    ChunkKeepsTruth(h, final, parts, tlno, plno, same, target, parent);
    ChunkKeepsReachable(h, final, parts, tlno, plno, same, target, parent);
  }

  lemma {:induction false} ScriptKeepsGood(h: History, final: Origin, lo: int, hi: int, parts: seq<Part>,
                                           script: seq<Change>, tlno: nat, plno: nat, target: Origin, parent: Origin,
                                           a: seq<seq<byte>>, b: seq<seq<byte>>, tail: seq<seq<byte>>, last: int)
    requires Good(h, final, lo, hi, parts) && h.Reaches(final.commit, parent.commit)
    requires h.LinesOf(parent) == a + tail && h.LinesOf(target) == b + tail
    requires ValidScript(a, b, script, plno, tlno)
    ensures Good(h, final, lo, hi, AfterScript(parts, script, Position(tlno, plno), target, parent))
    ensures var end := EndOf(script, Position(tlno, plno)); Aligned(h, target, parent, end.tlno, end.plno, last)
    decreases |script|
  {
    hide Good, Aligned, Chunk, History.LinesOf, History.Reaches;
    if script == [] {
      RestAligned(h, target, parent, a, b, tail, tlno, plno, last);
    } else {
      var c := script[0];
      RegionAligned(h, target, parent, a, b, tail, tlno, plno, c.i1, c.i2);
      ChunkKeepsGood(h, final, lo, hi, parts, tlno, plno, c.i2, target, parent);
      ScriptKeepsGood(h, final, lo, hi, Chunk(parts, tlno, plno, c.i2, target, parent), script[1..],
                      c.i2 + c.chg2, c.i1 + c.chg1, target, parent, a, b, tail, last);
    }
  }

  /** Passing blame to a parent keeps the ranges tiling, true and reachable. */
  lemma PassToParentKeepsGood(h: History, final: Origin, lo: int, hi: int, parts: seq<Part>, target: Origin, parent: Origin)
    requires h.Valid() && Good(h, final, lo, hi, parts) && h.Reaches(final.commit, parent.commit)
    ensures Good(h, final, lo, hi, PassToParent(h, parts, target, parent))
  {
    hide Good, Aligned, Chunk, AfterScript, EndOf, ValidScript, Lines, History.Reaches;
    var a, b := h.blob(parent), h.blob(target);
    var n := TrimLength(a, b);
    TrimIsCommonLines(a, b);
    var a', b', tail := a[..|a| - n], b[..|b| - n], a[|a| - n..];
    assert a == a' + tail && b == b' + tail;
    if n == 0 {
      assert a' == a && b' == b && tail == [];
      LinesNil();
    } else {
      LinesConcat(a', tail);
      LinesConcat(b', tail);
    }
    var script := h.diff(a', b');
    var end := EndOf(script, Position(0, 0));
    ScriptKeepsGood(h, final, lo, hi, parts, script, 0, 0, target, parent, Lines(a'), Lines(b'), Lines(tail),
                    LastInTarget(parts, target));
    ChunkKeepsGood(h, final, lo, hi, AfterScript(parts, script, Position(0, 0), target, parent),
                   end.tlno, end.plno, LastInTarget(parts, target), target, parent);
  }

  lemma LinesNil()
    ensures Lines([]) == []
  {
  }

  // ---------- all parents ----------

  /** The same file in a parent: everything the suspect has is passed on, proven or not. */
  function PassWhole(parts: seq<Part>, origin: Origin, parent: Origin): (r: seq<Part>)
    ensures |r| == |parts| && forall i :: 0 <= i < |parts| ==> r[i] == Reassign(parts[i], origin, parent)
  {
    if parts == [] then [] else [Reassign(parts[0], origin, parent)] + PassWhole(parts[1..], origin, parent)
  }

  function Reassign(p: Part, origin: Origin, parent: Origin): Part {
    if p.suspect == origin then p.(suspect := parent) else p
  }

  /** The scoreboard: the ranges, the oldest commit so far, and how many origins have been asked for. */
  datatype Board = Board(parts: seq<Part>, oldest: Option<nat>, asked: nat)

  /** A version of the file with this content has been found in an earlier parent already. */
  function AlreadyFound(h: History, found: seq<Option<Origin>>, o: Origin): bool {
    exists j :: 0 <= j < |found| && found[j].Some? && h.blobId(found[j].value) == h.blobId(o)
  }

  /** Ask for the file in each parent; an identical file settles the matter at once. */
  function AskParents(h: History, b: Board, origin: Origin, parents: seq<nat>, found: seq<Option<Origin>>): Board
    requires |found| <= |parents|
    decreases |parents| - |found|
  {
    if |found| == |parents| then PassToEach(h, b, origin, found)
    else
      var o := h.findOrigin(b.asked, parents[|found|], origin);
      var b' := b.(asked := b.asked + 1);
      if o.None? then AskParents(h, b', origin, parents, found + [None])
      else if h.blobId(o.value) == h.blobId(origin) then b'.(parts := PassWhole(b.parts, origin, o.value))
      else AskParents(h, b', origin, parents, found + [if AlreadyFound(h, found, o.value) then None else o])
  }

  /** Pass blame to the parents in turn, as long as the origin is suspected for anything. */
  function PassToEach(h: History, b: Board, origin: Origin, found: seq<Option<Origin>>): Board
    decreases |found|
  {
    if found == [] then b
    else if found[0].None? then PassToEach(h, b, origin, found[1..])
    else if LastInTarget(b.parts, origin) < 0 then b
    else PassToEach(h, b.(parts := PassToParent(h, b.parts, origin, found[0].value)), origin, found[1..])
  }

  function ParentsToAsk(h: History, b: Board, origin: Origin): seq<nat> {
    if b.oldest == Some(origin.commit) then [] else h.parents(origin.commit)
  }

  function PassBlame(h: History, b: Board, origin: Origin): Board {
    var parents := ParentsToAsk(h, b, origin);
    if parents == [] then b.(oldest := Some(origin.commit)) else AskParents(h, b, origin, parents, [])
  }

  /** The suspect is guilty of what it still has. */
  function Convict(parts: seq<Part>, suspect: Origin, isBoundary: bool): (r: seq<Part>)
    ensures |r| == |parts| && forall i :: 0 <= i < |parts| ==> r[i] == ConvictOne(parts[i], suspect, isBoundary)
  {
    if parts == [] then [] else [ConvictOne(parts[0], suspect, isBoundary)] + Convict(parts[1..], suspect, isBoundary)
  }

  function ConvictOne(p: Part, suspect: Origin, isBoundary: bool): Part {
    if p.suspect == suspect then p.(guilty := true, isBoundary := isBoundary) else p
  }

  /** The suspect of the first range that nobody has been convicted for. */
  function FirstSuspect(parts: seq<Part>): Option<Origin> {
    if parts == [] then None
    else if !parts[0].guilty then Some(parts[0].suspect)
    else FirstSuspect(parts[1..])
  }

  /** One round of the main loop. */
  function Investigate(h: History, b: Board, suspect: Origin): Board {
    var b' := PassBlame(h, b, suspect);
    b'.(parts := Convict(b'.parts, suspect, b'.oldest == Some(suspect.commit)))
  }

  // ---------- invariants of a round ----------

  lemma {:induction false} PassWholeKeepsGood(h: History, final: Origin, lo: int, hi: int, parts: seq<Part>, origin: Origin, parent: Origin)
    requires Tiles(parts, lo, hi) && AllTrue(h, final, parts) && AllReachable(h, final, parts)
    requires h.LinesOf(origin) == h.LinesOf(parent) && h.Reaches(final.commit, parent.commit)
    ensures var r := PassWhole(parts, origin, parent);
            && Tiles(r, lo, hi) && AllTrue(h, final, r) && AllReachable(h, final, r)
            && |r| == |parts| && forall i :: 0 <= i < |r| ==> r[i].numLines == parts[i].numLines
    decreases |parts|
  {
    hide History.Reaches, History.LinesOf;
    if parts != [] {
      var e := parts[0];
      PassWholeKeepsGood(h, final, lo + e.numLines, hi, parts[1..], origin, parent);
      assert IsTrue(h, final, e);
      assert IsTrue(h, final, PassWhole(parts, origin, parent)[0]);
      hide IsTrue;
    }
  }

  lemma {:induction false} ConvictTiles(parts: seq<Part>, lo: int, hi: int, suspect: Origin, isBoundary: bool)
    requires Tiles(parts, lo, hi)
    ensures Tiles(Convict(parts, suspect, isBoundary), lo, hi)
    decreases |parts|
  {
    if parts != [] {
      ConvictTiles(parts[1..], lo + parts[0].numLines, hi, suspect, isBoundary);
    }
  }

  lemma ConvictKeepsGood(h: History, final: Origin, lo: int, hi: int, parts: seq<Part>, suspect: Origin, isBoundary: bool)
    requires Tiles(parts, lo, hi) && AllTrue(h, final, parts) && AllReachable(h, final, parts)
    ensures var r := Convict(parts, suspect, isBoundary);
            && Tiles(r, lo, hi) && AllTrue(h, final, r) && AllReachable(h, final, r)
            && |r| == |parts| && forall i :: 0 <= i < |r| ==> r[i].numLines == parts[i].numLines
  {
    hide History.Reaches, IsTrue, Tiles, Convict;
    ConvictTiles(parts, lo, hi, suspect, isBoundary);
    var r := Convict(parts, suspect, isBoundary);
    forall p | p in r ensures IsTrue(h, final, p) && h.Reaches(final.commit, p.suspect.commit) {
      var i :| 0 <= i < |r| && r[i] == p;
      assert parts[i] in parts;
      ConvictOneKeeps(h, final, parts[i], suspect, isBoundary);
    }
  }

  lemma ConvictOneKeeps(h: History, final: Origin, e: Part, suspect: Origin, isBoundary: bool)
    requires IsTrue(h, final, e)
    ensures IsTrue(h, final, ConvictOne(e, suspect, isBoundary))
  {
    hide History.LinesOf;
  }

  lemma SameSizesNonEmpty(a: seq<Part>, b: seq<Part>)
    requires NonEmpty(a) && |a| == |b| && forall i :: 0 <= i < |a| ==> a[i].numLines == b[i].numLines
    ensures NonEmpty(b)
  {
    if |a| != 1 {
      forall p | p in b ensures p.numLines >= 1 {
        var i :| 0 <= i < |b| && b[i] == p;
        assert a[i] in a;
      }
    }
  }

  /** A parent of a reachable commit is reachable. */
  lemma ReachesParent(h: History, c: nat, d: nat, e: nat)
    requires h.Reaches(c, d) && e in h.parents(d)
    ensures h.Reaches(c, e)
  {
    var path: seq<nat> :| h.IsPath(path) && path[0] == c && path[|path| - 1] == d;
    var path' := path + [e];
    forall i | 0 <= i < |path'| - 1 ensures path'[i + 1] in h.parents(path'[i]) {
      if i < |path| - 1 {
        assert path[i + 1] in h.parents(path[i]);
      }
    }
    assert h.IsPath(path') && path'[0] == c && path'[|path'| - 1] == e;
  }

  /** Every origin found so far belongs to one of the parents asked, all of them reachable and of lower rank. */
  ghost predicate FoundInParents(h: History, final: Origin, origin: Origin, found: seq<Option<Origin>>) {
    forall o :: o in found && o.Some? ==>
      h.Reaches(final.commit, o.value.commit) && h.rank(o.value.commit) < h.rank(origin.commit)
  }

  lemma {:induction false} PassToEachKeepsGood(h: History, final: Origin, lo: int, hi: int, b: Board, origin: Origin, found: seq<Option<Origin>>)
    requires h.Valid() && Good(h, final, lo, hi, b.parts) && FoundInParents(h, final, origin, found)
    ensures Good(h, final, lo, hi, PassToEach(h, b, origin, found).parts)
    decreases |found|
  {
    hide Good, PassToParent, History.Valid, History.Reaches, LastInTarget;
    if found != [] {
      assert FoundInParents(h, final, origin, found[1..]);
      if found[0].None? {
        PassToEachKeepsGood(h, final, lo, hi, b, origin, found[1..]);
      } else if LastInTarget(b.parts, origin) >= 0 {
        PassToParentKeepsGood(h, final, lo, hi, b.parts, origin, found[0].value);
        PassToEachKeepsGood(h, final, lo, hi, b.(parts := PassToParent(h, b.parts, origin, found[0].value)), origin, found[1..]);
      }
    }
  }

  lemma FoundOne(h: History, final: Origin, origin: Origin, found: seq<Option<Origin>>, o: Option<Origin>, parents: seq<nat>, n: nat)
    requires h.Valid() && FoundInParents(h, final, origin, found) && h.Reaches(final.commit, origin.commit)
    requires |found| < |parents| && parents == h.parents(origin.commit) && o == h.findOrigin(n, parents[|found|], origin)
    ensures FoundInParents(h, final, origin, found + [o]) && FoundInParents(h, final, origin, found + [None])
  {
    hide History.Reaches;
    if o.Some? {
      ReachesParent(h, final.commit, origin.commit, parents[|found|]);
    }
  }

  lemma {:induction false} AskParentsKeepsGood(h: History, final: Origin, lo: int, hi: int, b: Board, origin: Origin,
                                               parents: seq<nat>, found: seq<Option<Origin>>)
    requires h.Valid() && Good(h, final, lo, hi, b.parts) && FoundInParents(h, final, origin, found)
    requires |found| <= |parents| && parents == h.parents(origin.commit) && h.Reaches(final.commit, origin.commit)
    ensures Good(h, final, lo, hi, AskParents(h, b, origin, parents, found).parts)
    decreases |parents| - |found|
  {
    hide Tiles, AllTrue, AllReachable, NonEmpty, PassToEach, History.Reaches, History.LinesOf, AlreadyFound, PassWhole;
    if |found| == |parents| {
      PassToEachKeepsGood(h, final, lo, hi, b, origin, found);
    } else {
      var o := h.findOrigin(b.asked, parents[|found|], origin);
      var b' := b.(asked := b.asked + 1);
      FoundOne(h, final, origin, found, o, parents, b.asked);
      if o.None? {
        AskParentsKeepsGood(h, final, lo, hi, b', origin, parents, found + [None]);
      } else if h.blobId(o.value) == h.blobId(origin) {
        SameBlobSameLines(h, origin, o.value);
        assert (found + [o])[|found|] == o;
        PassWholeKeepsGood(h, final, lo, hi, b.parts, origin, o.value);
        SameSizesNonEmpty(b.parts, PassWhole(b.parts, origin, o.value));
      } else {
        AskParentsKeepsGood(h, final, lo, hi, b', origin, parents, found + [if AlreadyFound(h, found, o.value) then None else o]);
      }
    }
  }

  lemma SameBlobSameLines(h: History, o: Origin, o': Origin)
    requires h.Valid() && h.blobId(o) == h.blobId(o')
    ensures h.LinesOf(o) == h.LinesOf(o')
  {
  }

  /** A round keeps the scoreboard's invariant. */
  lemma InvestigateKeepsGood(h: History, final: Origin, lo: int, hi: int, b: Board, suspect: Origin)
    requires h.Valid() && Good(h, final, lo, hi, b.parts) && h.Reaches(final.commit, suspect.commit)
    ensures Good(h, final, lo, hi, Investigate(h, b, suspect).parts)
  {
    hide AskParents, Tiles, AllTrue, AllReachable, NonEmpty, Convict, History.Reaches, History.Valid;
    if ParentsToAsk(h, b, suspect) != [] {
      AskParentsKeepsGood(h, final, lo, hi, b, suspect, h.parents(suspect.commit), []);
    }
    var b' := PassBlame(h, b, suspect);
    var boundary := b'.oldest == Some(suspect.commit);
    ConvictKeepsGood(h, final, lo, hi, b'.parts, suspect, boundary);
    SameSizesNonEmpty(b'.parts, Convict(b'.parts, suspect, boundary));
  }

  // ---------- the main loop ends ----------

  function Size(p: Part): nat {
    if p.numLines < 1 then 1 else p.numLines
  }

  /** What unproven ranges still cost: each line may be passed on as often as its suspect has generations of ancestors. */
  function Debt(h: History, parts: seq<Part>): nat {
    if parts == [] then 0 else DebtOf(h, parts[0]) + Debt(h, parts[1..])
  }

  function DebtOf(h: History, p: Part): nat {
    if p.guilty then 0 else Size(p) * (h.rank(p.suspect.commit) + 1)
  }

  // What they cost once `s` has had its turn: its own ranges count one generation less.
  function Owed(h: History, parts: seq<Part>, s: Origin): nat {
    if parts == [] then 0 else OwedBy(h, parts[0], s) + Owed(h, parts[1..], s)
  }

  function OwedBy(h: History, p: Part, s: Origin): nat {
    if p.guilty then 0
    else Size(p) * if p.suspect == s then h.rank(s.commit) else h.rank(p.suspect.commit) + 1
  }

  lemma {:induction false} OwedConcat(h: History, a: seq<Part>, b: seq<Part>, s: Origin)
    ensures Owed(h, a + b, s) == Owed(h, a, s) + Owed(h, b, s)
  {
    hide OwedBy;
    if a == [] {
      assert a + b == b;
    } else {
      OwedConcat(h, a[1..], b, s);
      assert (a + b)[1..] == a[1..] + b;
    }
  }

  lemma OwedOne(h: History, p: Part, s: Origin)
    ensures Owed(h, [p], s) == OwedBy(h, p, s)
  {
    assert [p][1..] == [];
  }

  lemma ThreeShares(n1: nat, n2: nat, n3: nat, n: nat, r: nat, q: nat)
    requires n1 + n2 + n3 == n && q + 1 <= r
    ensures n1 * r + n2 * (q + 1) + n3 * r <= n * r
  {
    Product(n2, q + 1, r);
    assert n1 * r + n2 * r + n3 * r == (n1 + n2 + n3) * r;
  }

  lemma Product(n: nat, a: nat, b: nat)
    requires a <= b
    ensures n * a <= n * b
  {
  }

  lemma ChunkOneOwed(h: History, e: Part, tlno: int, plno: int, same: int, target: Origin, parent: Origin)
    requires h.rank(parent.commit) < h.rank(target.commit)
    ensures Owed(h, ChunkOne(e, tlno, plno, same, target, parent), target) <= OwedBy(h, e, target)
  {
    OwedOne(h, e, target);
    if Splits(e, tlno, plno, same, target, parent) {
      var s := SplitOverlap(e, tlno, plno, same, parent);
      var pre := if s.pre.Some? then [s.pre.value] else [];
      var post := if s.post.Some? then [s.post.value] else [];
      OwedConcat(h, pre + [s.mid], post, target);
      OwedConcat(h, pre, [s.mid], target);
      OwedOne(h, s.mid, target);
      if s.pre.Some? { OwedOne(h, s.pre.value, target); }
      if s.post.Some? { OwedOne(h, s.post.value, target); }
      var n1 := if s.pre.Some? then s.pre.value.numLines else 0;
      var n3 := if s.post.Some? then s.post.value.numLines else 0;
      ThreeShares(n1, s.mid.numLines, n3, e.numLines, h.rank(target.commit), h.rank(parent.commit));
    }
  }

  lemma {:induction false} ChunkOwed(h: History, parts: seq<Part>, tlno: int, plno: int, same: int, target: Origin, parent: Origin)
    requires h.rank(parent.commit) < h.rank(target.commit)
    ensures Owed(h, Chunk(parts, tlno, plno, same, target, parent), target) <= Owed(h, parts, target)
  {
    hide ChunkOne, OwedBy;
    if parts != [] {
      ChunkOneOwed(h, parts[0], tlno, plno, same, target, parent);
      ChunkOwed(h, parts[1..], tlno, plno, same, target, parent);
      OwedConcat(h, ChunkOne(parts[0], tlno, plno, same, target, parent), Chunk(parts[1..], tlno, plno, same, target, parent), target);
    }
  }

  lemma {:induction false} AfterScriptOwed(h: History, parts: seq<Part>, script: seq<Change>, at: Position, target: Origin, parent: Origin)
    requires h.rank(parent.commit) < h.rank(target.commit)
    ensures Owed(h, AfterScript(parts, script, at, target, parent), target) <= Owed(h, parts, target)
    decreases |script|
  {
    hide Chunk, Owed;
    if script != [] {
      var c := script[0];
      var parts' := Chunk(parts, at.tlno, at.plno, c.i2, target, parent);
      ChunkOwed(h, parts, at.tlno, at.plno, c.i2, target, parent);
      AfterScriptOwed(h, parts', script[1..], Position(c.i2 + c.chg2, c.i1 + c.chg1), target, parent);
    }
  }

  lemma {:induction false} PassToEachOwed(h: History, final: Origin, b: Board, origin: Origin, found: seq<Option<Origin>>)
    requires FoundInParents(h, final, origin, found)
    ensures Owed(h, PassToEach(h, b, origin, found).parts, origin) <= Owed(h, b.parts, origin)
    decreases |found|
  {
    hide Chunk, AfterScript, Owed, History.Reaches, LastInTarget, EndOf, Script;
    if found != [] {
      assert FoundInParents(h, final, origin, found[1..]);
      if found[0].None? {
        PassToEachOwed(h, final, b, origin, found[1..]);
      } else if LastInTarget(b.parts, origin) >= 0 {
        var parent := found[0].value;
        var script := Script(h, origin, parent);
        var end := EndOf(script, Position(0, 0));
        var after := AfterScript(b.parts, script, Position(0, 0), origin, parent);
        AfterScriptOwed(h, b.parts, script, Position(0, 0), origin, parent);
        ChunkOwed(h, after, end.tlno, end.plno, LastInTarget(b.parts, origin), origin, parent);
        PassToEachOwed(h, final, b.(parts := PassToParent(h, b.parts, origin, parent)), origin, found[1..]);
      }
    }
  }

  lemma {:induction false} PassWholeOwed(h: History, parts: seq<Part>, origin: Origin, parent: Origin)
    requires h.rank(parent.commit) < h.rank(origin.commit)
    ensures Owed(h, PassWhole(parts, origin, parent), origin) <= Owed(h, parts, origin)
  {
    if parts != [] {
      PassWholeOwed(h, parts[1..], origin, parent);
      Product(Size(parts[0]), h.rank(parent.commit) + 1, h.rank(origin.commit));
    }
  }

  lemma {:induction false} AskParentsOwed(h: History, final: Origin, b: Board, origin: Origin, parents: seq<nat>, found: seq<Option<Origin>>)
    requires h.Valid() && FoundInParents(h, final, origin, found) && h.Reaches(final.commit, origin.commit)
    requires |found| <= |parents| && parents == h.parents(origin.commit)
    ensures Owed(h, AskParents(h, b, origin, parents, found).parts, origin) <= Owed(h, b.parts, origin)
    decreases |parents| - |found|
  {
    hide Owed, PassToEach, History.Reaches, AlreadyFound, PassWhole;
    if |found| == |parents| {
      PassToEachOwed(h, final, b, origin, found);
    } else {
      var o := h.findOrigin(b.asked, parents[|found|], origin);
      var b' := b.(asked := b.asked + 1);
      FoundOne(h, final, origin, found, o, parents, b.asked);
      if o.None? {
        AskParentsOwed(h, final, b', origin, parents, found + [None]);
      } else if h.blobId(o.value) == h.blobId(origin) {
        assert (found + [o])[|found|] == o;
        PassWholeOwed(h, b.parts, origin, o.value);
      } else {
        AskParentsOwed(h, final, b', origin, parents, found + [if AlreadyFound(h, found, o.value) then None else o]);
      }
    }
  }

  lemma {:induction false} ConvictDebt(h: History, parts: seq<Part>, suspect: Origin, isBoundary: bool)
    ensures Debt(h, Convict(parts, suspect, isBoundary)) <= Owed(h, parts, suspect)
  {
    if parts != [] {
      ConvictDebt(h, parts[1..], suspect, isBoundary);
    }
  }

  lemma {:induction false} OwedLessThanDebt(h: History, parts: seq<Part>, s: Origin)
    ensures Owed(h, parts, s) <= Debt(h, parts)
    ensures FirstSuspect(parts) == Some(s) ==> Owed(h, parts, s) < Debt(h, parts)
  {
    if parts != [] {
      OwedLessThanDebt(h, parts[1..], s);
      var p := parts[0];
      assert Size(p) * (h.rank(p.suspect.commit) + 1) == Size(p) * h.rank(p.suspect.commit) + Size(p);
    }
  }

  /** Every round lowers the debt, so the main loop ends. */
  lemma InvestigateLowersDebt(h: History, final: Origin, b: Board, suspect: Origin)
    requires h.Valid() && FirstSuspect(b.parts) == Some(suspect) && h.Reaches(final.commit, suspect.commit)
    ensures Debt(h, Investigate(h, b, suspect).parts) < Debt(h, b.parts)
  {
    hide AskParents, Owed, Debt, Convict, History.Reaches, History.Valid;
    if ParentsToAsk(h, b, suspect) != [] {
      AskParentsOwed(h, final, b, suspect, h.parents(suspect.commit), []);
    }
    var b' := PassBlame(h, b, suspect);
    ConvictDebt(h, b'.parts, suspect, b'.oldest == Some(suspect.commit));
    OwedLessThanDebt(h, b.parts, suspect);
  }

  lemma {:induction false} FirstSuspectIn(parts: seq<Part>)
    ensures FirstSuspect(parts).Some? ==> exists p :: p in parts && !p.guilty && p.suspect == FirstSuspect(parts).value
    ensures FirstSuspect(parts).None? ==> forall p :: p in parts ==> p.guilty
  {
    if parts != [] {
      FirstSuspectIn(parts[1..]);
      assert parts[0] in parts;
    }
  }

  lemma SuspectReachable(h: History, final: Origin, lo: int, hi: int, parts: seq<Part>)
    requires Good(h, final, lo, hi, parts) && FirstSuspect(parts).Some?
    ensures h.Reaches(final.commit, FirstSuspect(parts).value.commit)
  {
    hide Tiles, AllTrue, NonEmpty, FirstSuspect, History.Reaches;
    FirstSuspectIn(parts);
  }

  /** The whole of blame: investigate the first suspect until there is none. */
  ghost function LikeGit(h: History, final: Origin, lo: int, hi: int, b: Board): (r: Board)
    requires h.Valid() && Good(h, final, lo, hi, b.parts)
    ensures Good(h, final, lo, hi, r.parts)
    ensures forall p :: p in r.parts ==> p.guilty
    decreases Debt(h, b.parts)
  {
    hide Good, Investigate, History.Valid, FirstSuspect, Debt, History.Reaches;
    FirstSuspectIn(b.parts);
    match FirstSuspect(b.parts)
    case None => b
    case Some(suspect) =>
      SuspectReachable(h, final, lo, hi, b.parts);
      InvestigateKeepsGood(h, final, lo, hi, b, suspect);
      InvestigateLowersDebt(h, final, b, suspect);
      LikeGit(h, final, lo, hi, Investigate(h, b, suspect))
  }
}
