/**
  Blame as a computation on lists of line ranges: what each step of the scoreboard
  does, and why lines are never lost, never blamed on a file that lacks them, and
  never passed on for ever. BlameScoreboard does the same on a linked list in place.
*/
module BlameRanges {
  import opened Bytes

  const NEWLINE: byte := 10

  /** A version of a file: the suspect for some lines. */
  datatype Origin = Origin(commit: nat, path: string)

  /** A range of final lines and the lines of the suspect's file they are known to come from. */
  datatype Part = Part(lno: int, numLines: int, suspect: Origin, guilty: bool, sLno: int, isBoundary: bool)

  /** One change of an edit script: `chg1` old lines from `i1` on became `chg2` new lines from `i2` on. */
  datatype Change = Change(i1: nat, chg1: nat, i2: nat, chg2: nat)

  // ---------- lines ----------

  /** Where the first line ends, newline included. */
  function LineEnd(b: seq<byte>): (n: nat)
    ensures b != [] ==> 0 < n <= |b|
    ensures b == [] ==> n == 0
  {
    if b == [] then 0 else if b[0] == NEWLINE then 1 else 1 + LineEnd(b[1..])
  }

  /** The lines of a file; the last one may lack its newline. */
  function Lines(b: seq<byte>): seq<seq<byte>> {
    if b == [] then [] else [b[..LineEnd(b)]] + Lines(b[LineEnd(b)..])
  }

  function LineAt(ls: seq<seq<byte>>, i: int): Option<seq<byte>> {
    if 0 <= i < |ls| then Some(ls[i]) else None
  }

  /** The script covers both files: the regions between its changes, and after them, are equal. */
  ghost predicate ValidScript(a: seq<seq<byte>>, b: seq<seq<byte>>, script: seq<Change>, plno: nat, tlno: nat) {
    if script == [] then
      plno <= |a| && tlno <= |b| && a[plno..] == b[tlno..]
    else
      var c := script[0];
      && plno <= c.i1 && tlno <= c.i2 && c.i1 + c.chg1 <= |a| && c.i2 + c.chg2 <= |b|
      && a[plno..c.i1] == b[tlno..c.i2]
      && ValidScript(a, b, script[1..], c.i1 + c.chg1, c.i2 + c.chg2)
  }

  // ---------- history ----------

  /**
    What blame asks of a repository. `findOrigin` is asked in turn, so its answers may
    depend on what was asked before; `diff` compares two files line by line.
  */
  datatype History = History(
    parents: nat -> seq<nat>,
    rank: nat -> nat,
    blob: Origin -> seq<byte>,
    blobId: Origin -> nat,
    findOrigin: (nat, nat, Origin) -> Option<Origin>,
    diff: (seq<byte>, seq<byte>) -> seq<Change>)
  {
    ghost predicate Valid() {
      && (forall c: nat, i: nat {:trigger parents(c)[i]} :: i < |parents(c)| ==> rank(parents(c)[i]) < rank(c))
      && (forall o, o' {:trigger blobId(o), blobId(o')} :: blobId(o) == blobId(o') ==> blob(o) == blob(o'))
      && (forall n: nat, c: nat, o {:trigger findOrigin(n, c, o)} ::
            findOrigin(n, c, o).Some? ==> findOrigin(n, c, o).value.commit == c)
      && (forall a, b {:trigger diff(a, b)} :: ValidScript(Lines(a), Lines(b), diff(a, b), 0, 0))
    }

    function LinesOf(o: Origin): seq<seq<byte>> {
      Lines(blob(o))
    }

    /** `d` is `c` or one of its ancestors. */
    ghost predicate Reaches(c: nat, d: nat) {
      exists path: seq<nat> :: IsPath(path) && path[0] == c && path[|path| - 1] == d
    }

    ghost predicate IsPath(path: seq<nat>) {
      path != [] && forall i :: 0 <= i < |path| - 1 ==> path[i + 1] in parents(path[i])
    }
  }

  /** The final lines of the range are, one by one, the lines of the suspect's file it points to. */
  ghost predicate IsTrue(h: History, final: Origin, p: Part) {
    forall i :: p.lno <= i < p.lno + p.numLines ==>
      LineAt(h.LinesOf(final), i) == LineAt(h.LinesOf(p.suspect), p.sLno + (i - p.lno))
  }

  ghost predicate AllTrue(h: History, final: Origin, parts: seq<Part>) {
    forall p :: p in parts ==> IsTrue(h, final, p)
  }

  ghost predicate AllReachable(h: History, final: Origin, parts: seq<Part>) {
    forall p :: p in parts ==> h.Reaches(final.commit, p.suspect.commit)
  }

  /** The ranges follow each other without gap or overlap from `lo` to `hi`. */
  ghost predicate Tiles(parts: seq<Part>, lo: int, hi: int) {
    if parts == [] then lo == hi else parts[0].lno == lo && Tiles(parts[1..], lo + parts[0].numLines, hi)
  }

  /** No range is empty, except that the only one may be when there is nothing to blame. */
  ghost predicate NonEmpty(parts: seq<Part>) {
    |parts| == 1 || forall p :: p in parts ==> p.numLines >= 1
  }

  // ---------- splitting a range ----------

  datatype Split = Split(pre: Option<Part>, mid: Part, post: Option<Part>)

  /**
    Target lines from `tlno` up to `same` are the parent's lines from `plno` on: what
    of the range `e` lies before, inside and after them.
  */
  function SplitOverlap(e: Part, tlno: int, plno: int, same: int, parent: Origin): Split {
    var end := e.sLno + e.numLines;
    var pre := if e.sLno < tlno then Some(Part(e.lno, tlno - e.sLno, e.suspect, false, e.sLno, false)) else None;
    var midLno := if e.sLno < tlno then e.lno + tlno - e.sLno else e.lno;
    var midSLno := if e.sLno < tlno then plno else plno + (e.sLno - tlno);
    var post := if same < end then Some(Part(e.lno + (same - e.sLno), end - same, e.suspect, false, same, false)) else None;
    var chunkEnd := if same < end then e.lno + (same - e.sLno) else e.lno + e.numLines;
    Split(pre, Part(midLno, chunkEnd - midLno, parent, false, midSLno, false), post)
  }

  function Pieces(s: Split): (r: seq<Part>)
    ensures |r| > 0
  {
    (if s.pre.Some? then [s.pre.value] else []) + [s.mid] + (if s.post.Some? then [s.post.value] else [])
  }

  /** Whether a chunk that ends at `same` and starts at `tlno` touches the range. */
  predicate Touches(e: Part, tlno: int, same: int, target: Origin) {
    !e.guilty && e.suspect == target && e.sLno < same && tlno < e.sLno + e.numLines
  }

  predicate Splits(e: Part, tlno: int, plno: int, same: int, target: Origin, parent: Origin) {
    Touches(e, tlno, same, target) && SplitOverlap(e, tlno, plno, same, parent).mid.numLines >= 1
  }

  function ChunkOne(e: Part, tlno: int, plno: int, same: int, target: Origin, parent: Origin): (r: seq<Part>)
    ensures |r| > 0
  {
    if Splits(e, tlno, plno, same, target, parent) then Pieces(SplitOverlap(e, tlno, plno, same, parent)) else [e]
  }

  /** Passes one chunk of unchanged lines on to the parent, in every range it touches. */
  function Chunk(parts: seq<Part>, tlno: int, plno: int, same: int, target: Origin, parent: Origin): seq<Part> {
    if parts == [] then []
    else ChunkOne(parts[0], tlno, plno, same, target, parent) + Chunk(parts[1..], tlno, plno, same, target, parent)
  }

  lemma {:induction false} ChunkConcat(a: seq<Part>, b: seq<Part>, tlno: int, plno: int, same: int, target: Origin, parent: Origin)
    ensures Chunk(a + b, tlno, plno, same, target, parent)
         == Chunk(a, tlno, plno, same, target, parent) + Chunk(b, tlno, plno, same, target, parent)
  {
    hide ChunkOne;
    if a == [] {
      assert a + b == b;
    } else {
      ChunkConcat(a[1..], b, tlno, plno, same, target, parent);
      assert (a + b)[0] == a[0] && (a + b)[1..] == a[1..] + b;
      ConcatAssociates(ChunkOne(a[0], tlno, plno, same, target, parent), Chunk(a[1..], tlno, plno, same, target, parent),
                       Chunk(b, tlno, plno, same, target, parent));
    }
  }

  /** The pieces of a split are not split again by the same chunk. */
  lemma PiecesStay(e: Part, tlno: int, plno: int, same: int, target: Origin, parent: Origin)
    requires target != parent && Splits(e, tlno, plno, same, target, parent)
    ensures forall p :: p in Pieces(SplitOverlap(e, tlno, plno, same, parent)) ==>
              ChunkOne(p, tlno, plno, same, target, parent) == [p]
  {
  }

  lemma {:induction false} ChunkStays(ps: seq<Part>, tlno: int, plno: int, same: int, target: Origin, parent: Origin)
    requires forall p :: p in ps ==> ChunkOne(p, tlno, plno, same, target, parent) == [p]
    ensures Chunk(ps, tlno, plno, same, target, parent) == ps
  {
    hide ChunkOne;
    if ps != [] {
      ChunkStays(ps[1..], tlno, plno, same, target, parent);
    }
  }

  // ---------- conservation ----------

  lemma {:induction false} TilesConcat(a: seq<Part>, b: seq<Part>, lo: int, mid: int, hi: int)
    requires Tiles(a, lo, mid)
    ensures Tiles(a + b, lo, hi) <==> Tiles(b, mid, hi)
  {
    if a == [] {
      assert a + b == b;
    } else {
      TilesConcat(a[1..], b, lo + a[0].numLines, mid, hi);
      assert (a + b)[1..] == a[1..] + b;
    }
  }

  lemma TilesOne(e: Part)
    ensures Tiles([e], e.lno, e.lno + e.numLines)
  {
    assert [e][1..] == [];
  }

  lemma PiecesTile(e: Part, tlno: int, plno: int, same: int, target: Origin, parent: Origin)
    requires Splits(e, tlno, plno, same, target, parent)
    ensures var ps := Pieces(SplitOverlap(e, tlno, plno, same, parent));
            Tiles(ps, e.lno, e.lno + e.numLines) && forall p :: p in ps ==> p.numLines >= 1
  {
    var s := SplitOverlap(e, tlno, plno, same, parent);
    var pre := if s.pre.Some? then [s.pre.value] else [];
    var post := if s.post.Some? then [s.post.value] else [];
    TilesOne(s.mid);
    if s.pre.Some? { TilesOne(s.pre.value); }
    if s.post.Some? { TilesOne(s.post.value); }
    TilesConcat(pre, [s.mid], e.lno, s.mid.lno, s.mid.lno + s.mid.numLines);
    TilesConcat(pre + [s.mid], post, e.lno, s.mid.lno + s.mid.numLines, e.lno + e.numLines);
  }

  lemma {:induction false} ChunkTiles(parts: seq<Part>, lo: int, hi: int, tlno: int, plno: int, same: int, target: Origin, parent: Origin)
    requires Tiles(parts, lo, hi)
    ensures Tiles(Chunk(parts, tlno, plno, same, target, parent), lo, hi)
    ensures (forall p :: p in parts ==> p.numLines >= 1) ==>
              forall p :: p in Chunk(parts, tlno, plno, same, target, parent) ==> p.numLines >= 1
  {
    hide Splits, SplitOverlap, Pieces;
    if parts != [] {
      var e := parts[0];
      var ps := ChunkOne(e, tlno, plno, same, target, parent);
      var rest := Chunk(parts[1..], tlno, plno, same, target, parent);
      ChunkTiles(parts[1..], lo + e.numLines, hi, tlno, plno, same, target, parent);
      if Splits(e, tlno, plno, same, target, parent) {
        PiecesTile(e, tlno, plno, same, target, parent);
      } else {
        assert Tiles([e], lo, lo + e.numLines) by { assert [e][1..] == []; }
      }
      TilesConcat(ps, rest, lo, lo + e.numLines, hi);
    }
  }

  /** A chunk keeps the ranges tiling and non-empty. */
  lemma ChunkKeepsShape(parts: seq<Part>, lo: int, hi: int, tlno: int, plno: int, same: int, target: Origin, parent: Origin)
    requires Tiles(parts, lo, hi) && NonEmpty(parts)
    ensures var r := Chunk(parts, tlno, plno, same, target, parent);
            Tiles(r, lo, hi) && NonEmpty(r)
  {
    ChunkTiles(parts, lo, hi, tlno, plno, same, target, parent);
    if |parts| == 1 && parts[0].numLines < 1 {
      assert !Splits(parts[0], tlno, plno, same, target, parent);
      assert Chunk(parts, tlno, plno, same, target, parent) == [parts[0]];
    }
  }

  // ---------- truth ----------

  /** Target lines from `tlno` up to `same` are the parent's lines from `plno` on. */
  ghost predicate Aligned(h: History, target: Origin, parent: Origin, tlno: int, plno: int, same: int) {
    forall i :: tlno <= i < same ==> LineAt(h.LinesOf(target), i) == LineAt(h.LinesOf(parent), plno + (i - tlno))
  }

  lemma ChunkOneKeepsTruth(h: History, final: Origin, e: Part, tlno: int, plno: int, same: int, target: Origin, parent: Origin)
    requires IsTrue(h, final, e) && Aligned(h, target, parent, tlno, plno, same)
    ensures AllTrue(h, final, ChunkOne(e, tlno, plno, same, target, parent))
  {
    hide LineAt, History.LinesOf;
  }

  /** Passing aligned lines on keeps every range true. */
  lemma {:induction false} ChunkKeepsTruth(h: History, final: Origin, parts: seq<Part>,
                                           tlno: int, plno: int, same: int, target: Origin, parent: Origin)
    requires AllTrue(h, final, parts) && Aligned(h, target, parent, tlno, plno, same)
    ensures AllTrue(h, final, Chunk(parts, tlno, plno, same, target, parent))
  {
    hide IsTrue, ChunkOne, Aligned;
    if parts != [] {
      ChunkOneKeepsTruth(h, final, parts[0], tlno, plno, same, target, parent);
      ChunkKeepsTruth(h, final, parts[1..], tlno, plno, same, target, parent);
    }
  }

  lemma {:induction false} ChunkKeepsReachable(h: History, final: Origin, parts: seq<Part>,
                                               tlno: int, plno: int, same: int, target: Origin, parent: Origin)
    requires AllReachable(h, final, parts) && h.Reaches(final.commit, parent.commit)
    ensures AllReachable(h, final, Chunk(parts, tlno, plno, same, target, parent))
  {
    hide History.Reaches;
    if parts != [] {
      ChunkKeepsReachable(h, final, parts[1..], tlno, plno, same, target, parent);
    }
  }

  // ---------- walking while splitting ----------

  /** In a tiling, entries start in order, and later ones start no earlier than an entry ends. */
  lemma {:induction false} TilesOrder(parts: seq<Part>, lo: int, hi: int, k: nat)
    requires Tiles(parts, lo, hi) && k < |parts|
    requires forall p :: p in parts ==> p.numLines >= 1
    ensures lo <= parts[k].lno
    ensures forall i :: 0 <= i < k ==> parts[i].lno < parts[k].lno
    ensures forall i :: k < i < |parts| ==> parts[i].lno >= parts[k].lno + parts[k].numLines
    decreases |parts|
  {
    var rest, lo' := parts[1..], lo + parts[0].numLines;
    if k > 0 {
      TilesOrder(rest, lo', hi, k - 1);
    } else {
      forall i | 0 < i < |parts| ensures parts[i].lno >= lo' {
        TilesOrder(rest, lo', hi, i - 1);
      }
    }
  }

  /** Replacing an entry by pieces that tile it. */
  lemma {:induction false} TilesReplace(parts: seq<Part>, lo: int, hi: int, k: nat, ps: seq<Part>)
    requires Tiles(parts, lo, hi) && k < |parts| && Tiles(ps, parts[k].lno, parts[k].lno + parts[k].numLines)
    ensures Tiles(parts[..k] + ps + parts[k + 1..], lo, hi)
    decreases k
  {
    if k == 0 {
      assert parts[..0] + ps + parts[1..] == ps + parts[1..];
      TilesConcat(ps, parts[1..], lo, lo + parts[0].numLines, hi);
    } else {
      TilesReplace(parts[1..], lo + parts[0].numLines, hi, k - 1, ps);
      var r := parts[..k] + ps + parts[k + 1..];
      assert r[0] == parts[0];
      assert r[1..] == parts[1..][..k - 1] + ps + parts[1..][k..];
    }
  }

  /** Splitting an entry keeps the list tiling and non-empty. */
  lemma SplitKeepsShape(parts: seq<Part>, lo: int, hi: int, k: nat, tlno: int, plno: int, same: int, target: Origin, parent: Origin)
    requires Tiles(parts, lo, hi) && NonEmpty(parts) && k < |parts|
    requires Splits(parts[k], tlno, plno, same, target, parent)
    ensures var r := parts[..k] + Pieces(SplitOverlap(parts[k], tlno, plno, same, parent)) + parts[k + 1..];
            Tiles(r, lo, hi) && NonEmpty(r)
    ensures forall i :: 0 <= i < k ==> parts[i].lno < parts[k].lno
    ensures forall i :: k < i < |parts| ==> parts[i].lno >= parts[k].lno + parts[k].numLines
  {
    assert parts[k].numLines >= 1;
    assert forall p :: p in parts ==> p.numLines >= 1;
    hide Splits, SplitOverlap, Pieces;
    PiecesTile(parts[k], tlno, plno, same, target, parent);
    TilesReplace(parts, lo, hi, k, Pieces(SplitOverlap(parts[k], tlno, plno, same, parent)));
    TilesOrder(parts, lo, hi, k);
  }

  /** Moving on past an entry that the chunk leaves alone. */
  lemma WalkPast(parts: seq<Part>, k: nat, tlno: int, plno: int, same: int, target: Origin, parent: Origin)
    requires k < |parts| && !Splits(parts[k], tlno, plno, same, target, parent)
    ensures parts[..k] + Chunk(parts[k..], tlno, plno, same, target, parent)
         == parts[..k + 1] + Chunk(parts[k + 1..], tlno, plno, same, target, parent)
    ensures |Chunk(parts[k + 1..], tlno, plno, same, target, parent)| < |Chunk(parts[k..], tlno, plno, same, target, parent)|
  {
    assert parts[k..][1..] == parts[k + 1..];
    hide Splits;
  }

  /** Splitting an entry and moving on to its second piece, if any. */
  lemma WalkSplit(parts: seq<Part>, k: nat, tlno: int, plno: int, same: int, target: Origin, parent: Origin)
    requires target != parent && k < |parts| && Splits(parts[k], tlno, plno, same, target, parent)
    ensures
      var r := parts[..k] + Pieces(SplitOverlap(parts[k], tlno, plno, same, parent)) + parts[k + 1..];
      && parts[..k] + Chunk(parts[k..], tlno, plno, same, target, parent)
         == r[..k + 1] + Chunk(r[k + 1..], tlno, plno, same, target, parent)
      && |Chunk(r[k + 1..], tlno, plno, same, target, parent)| < |Chunk(parts[k..], tlno, plno, same, target, parent)|
  {
    var e, rest := parts[k], parts[k + 1..];
    PiecesStay(e, tlno, plno, same, target, parent);
    hide SplitOverlap, Pieces, Chunk;
    var ps := Pieces(SplitOverlap(e, tlno, plno, same, parent));
    ChunkStays(ps[1..], tlno, plno, same, target, parent);
    ChunkConcat(ps[1..], rest, tlno, plno, same, target, parent);
    ChunkUnfold(parts[k..], tlno, plno, same, target, parent);
    SplitAt(parts, k, ps, Chunk(rest, tlno, plno, same, target, parent));
  }

  lemma ChunkUnfold(parts: seq<Part>, tlno: int, plno: int, same: int, target: Origin, parent: Origin)
    requires parts != []
    ensures Chunk(parts, tlno, plno, same, target, parent)
         == ChunkOne(parts[0], tlno, plno, same, target, parent) + Chunk(parts[1..], tlno, plno, same, target, parent)
  {
  }

  lemma SplitAt<T>(s: seq<T>, k: nat, ps: seq<T>, tail: seq<T>)
    requires k < |s| && ps != []
    ensures
      var r := s[..k] + ps + s[k + 1..];
      && s[k..][0] == s[k] && s[k..][1..] == s[k + 1..]
      && r[k + 1..] == ps[1..] + s[k + 1..] && s[..k] + (ps + tail) == r[..k + 1] + (ps[1..] + tail)
  {
  }
}
