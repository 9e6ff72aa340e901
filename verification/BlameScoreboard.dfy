/**
  The blame scoreboard as it is kept: a doubly linked list of entries that is split,
  re-attributed and inserted into while it is being walked.
*/
module BlameScoreboard {
  import opened Bytes
  import opened BlameRanges
  import opened BlamePassing

  class Entry {
    var prev: Entry?
    var next: Entry?
    var lno: int
    var numLines: int
    var suspect: Origin
    var guilty: bool
    var sLno: int
    var isBoundary: bool

    /** The range an entry stands for, its place in the list aside. */
    function Value(): Part
      reads this
    {
      Part(lno, numLines, suspect, guilty, sLno, isBoundary)
    }

    constructor (p: Part)
      ensures Value() == p && prev == null && next == null
    {
      prev, next := null, null;
      lno, numLines, suspect, guilty, sLno, isBoundary := p.lno, p.numLines, p.suspect, p.guilty, p.sLno, p.isBoundary;
    }

    /** Overwrites everything but the links. */
    method Assign(p: Part)
      modifies this
      ensures Value() == p && prev == old(prev) && next == old(next)
    {
      lno, numLines, suspect, guilty, sLno, isBoundary := p.lno, p.numLines, p.suspect, p.guilty, p.sLno, p.isBoundary;
    }
  }

  ghost function Values(ns: seq<Entry>): (r: seq<Part>)
    reads ns
    ensures |r| == |ns| && forall i :: 0 <= i < |ns| ==> r[i] == ns[i].Value()
  {
    if ns == [] then [] else Values(ns[..|ns| - 1]) + [ns[|ns| - 1].Value()]
  }

  lemma Splice2<T>(s: seq<T>, k: nat, a: T, b: T)
    requires k < |s|
    ensures s[k := a][..k + 1] + [b] + s[k := a][k + 1..] == s[..k] + ([a] + [b]) + s[k + 1..]
  {
  }

  lemma Splice3(s: seq<Part>, k: nat, a: Part, b: Part, c: Part)
    requires k < |s| && a.lno < b.lno < c.lno
    requires forall i :: 0 <= i < k ==> s[i].lno < a.lno
    requires forall i :: k < i < |s| ==> s[i].lno >= c.lno
    ensures
      var t := s[..k] + ([a] + [c]) + s[k + 1..];
      && t[..k + 1] + [b] + t[k + 1..] == s[..k] + ([a] + [b] + [c]) + s[k + 1..]
      && (forall i :: 0 <= i <= k ==> t[i].lno < b.lno)
      && (forall i :: k < i < |t| ==> t[i].lno >= b.lno)
  {
  }

  lemma PlaceIsUnique(parts: seq<Part>, k: nat, at: nat, line: int)
    requires k < |parts| && at <= |parts|
    requires forall i :: 0 <= i <= k ==> parts[i].lno < line
    requires forall i :: k < i < |parts| ==> parts[i].lno >= line
    requires forall i :: 0 <= i < at ==> parts[i].lno < line
    requires at < |parts| ==> parts[at].lno >= line
    ensures at == k + 1
  {
    var next := if k + 1 < |parts| then parts[k + 1].lno else line;
  }

  lemma Inserted<T>(s: seq<T>, x: T, k: nat)
    requires k <= |s|
    ensures
      var t := s[..k] + [x] + s[k..];
      && t[k] == x
      && (forall i :: 0 <= i < k ==> t[i] == s[i])
      && (forall i :: k < i < |t| ==> t[i] == s[i - 1])
  {
  }

  class Scoreboard {
    var ent: Entry?
    var oldest: Option<nat>
    var asked: nat
    ghost var nodes: seq<Entry>
    ghost var repr: set<Entry>

    /** The entries reached from `ent` are `nodes`, linked both ways. */
    ghost predicate Linked()
      reads this`ent, this`nodes, this`repr, repr
    {
      && (forall n :: n in nodes ==> n in repr)
      && (forall i, j :: 0 <= i < j < |nodes| ==> nodes[i] != nodes[j])
      && (ent == if nodes == [] then null else nodes[0])
      && (forall i {:trigger nodes[i].prev} :: 0 <= i < |nodes| ==> nodes[i].prev == if i == 0 then null else nodes[i - 1])
      && (forall i {:trigger nodes[i].next} :: 0 <= i < |nodes| ==> nodes[i].next == if i == |nodes| - 1 then null else nodes[i + 1])
    }

    ghost function Parts(): seq<Part>
      requires Linked()
      reads this`ent, this`nodes, this`repr, repr
    {
      Values(nodes)
    }

    ghost function View(): Board
      requires Linked()
      reads this, repr
    {
      Board(Parts(), oldest, asked)
    }

    constructor (e: Entry, oldestCommit: Option<nat>)
      requires e.prev == null && e.next == null
      ensures Linked() && fresh(repr - {e})
      ensures View() == Board([e.Value()], oldestCommit, 0)
    {
      ent, oldest, asked := e, oldestCommit, 0;
      nodes, repr := [e], {e};
    }

    /** The last entry that starts before line `line`, and how many do. */
    method PlaceFor(line: int) returns (before: Entry?, ghost k: nat)
      requires Linked()
      ensures if before == null then nodes == [] || nodes[0].lno >= line else before in nodes && before.lno < line
      ensures k <= |nodes| && before == if k == 0 then null else nodes[k - 1]
      ensures forall i :: 0 <= i < k ==> nodes[i].lno < line
      ensures k < |nodes| ==> nodes[k].lno >= line
    {
      var at := ent;
      before := null;
      k := 0;
      while at != null && at.lno < line
        invariant k <= |nodes|
        invariant at == if k == |nodes| then null else nodes[k]
        invariant before == if k == 0 then null else nodes[k - 1]
        invariant forall i :: 0 <= i < k ==> nodes[i].lno < line
        decreases |nodes| - k
      {
        before := at;
        at := at.next;
        k := k + 1;
      }
    }

    /** Links a new entry in front of the first one that does not start before it. */
    method AddEntry(e: Entry) returns (ghost k: nat)
      requires Linked() && e !in nodes && e !in repr
      modifies this`ent, this`nodes, this`repr, repr, e
      ensures Linked()
      ensures k <= |old(nodes)| && nodes == old(nodes)[..k] + [e] + old(nodes)[k..] && repr == old(repr) + {e}
      ensures forall i :: 0 <= i < k ==> old(Parts())[i].lno < old(e.lno)
      ensures k < |old(nodes)| ==> old(Parts())[k].lno >= old(e.lno)
      ensures Parts() == old(Parts())[..k] + [old(e.Value())] + old(Parts())[k..]
    {
      hide Values;
      var before;
      before, k := PlaceFor(e.lno);
      LinkAfter(before, e, k);
    }

    method LinkAfter(before: Entry?, e: Entry, ghost k: nat)
      requires Linked() && e !in nodes && e !in repr
      requires k <= |nodes| && before == if k == 0 then null else nodes[k - 1]
      modifies this`ent, this`nodes, this`repr, repr`prev, repr`next, e`prev, e`next
      ensures Linked()
      ensures nodes == old(nodes)[..k] + [e] + old(nodes)[k..] && repr == old(repr) + {e}
    {
      ghost var ns := nodes;
      e.prev := before;
      if before != null {
        e.next := before.next;
        before.next := e;
      } else {
        e.next := ent;
        ent := e;
      }
      if e.next != null {
        e.next.prev := e;
      }
      nodes := ns[..k] + [e] + ns[k..];
      repr := repr + {e};
      Inserted(ns, e, k);
    }

    /** A new entry for `p` lands right after entry `k` when that is where its line belongs. */
    method InsertAfter(p: Part, ghost k: nat)
      requires Linked() && k < |nodes|
      requires forall i :: 0 <= i <= k ==> Parts()[i].lno < p.lno
      requires forall i :: k < i < |nodes| ==> Parts()[i].lno >= p.lno
      modifies this`ent, this`nodes, this`repr, repr
      ensures Linked()
      ensures k < |nodes| && nodes[..k + 1] == old(nodes)[..k + 1]
      ensures fresh(repr - old(repr))
      ensures Parts() == old(Parts())[..k + 1] + [p] + old(Parts())[k + 1..]
    {
      hide Linked, Values;
      ghost var parts := Parts();
      var e := new Entry(p);
      assert Parts() == parts;
      var at := AddEntry(e);
      PlaceIsUnique(parts, k, at, p.lno);
    }

    /**
      Replaces an entry by the pieces it was split into: the first piece takes its place,
      the others are linked in, the last one first.
    */
    method SplitBlame(s: Split, e: Entry, ghost k: nat)
      requires Linked() && k < |nodes| && nodes[k] == e
      requires s.pre.Some? ==> s.pre.value.lno == e.lno < s.mid.lno
      requires s.pre.None? ==> s.mid.lno == e.lno
      requires s.post.Some? ==> s.mid.lno < s.post.value.lno
      requires forall i :: 0 <= i < k ==> Parts()[i].lno < e.lno
      requires forall i :: k < i < |nodes| ==> Parts()[i].lno >= s.mid.lno
      requires s.post.Some? ==> forall i :: k < i < |nodes| ==> Parts()[i].lno >= s.post.value.lno
      modifies this`ent, this`nodes, this`repr, repr
      ensures Linked()
      ensures k < |nodes| && nodes[..k + 1] == old(nodes)[..k + 1]
      ensures fresh(repr - old(repr))
      ensures Parts() == old(Parts())[..k] + Pieces(s) + old(Parts())[k + 1..]
    {
      hide Values;
      Listed(k);
      hide Linked;
      if s.pre.Some? && s.post.Some? {
        SplitInThree(e, k, s.pre.value, s.mid, s.post.value);
      } else if s.pre.None? && s.post.None? {
        assert Parts()[k := s.mid] == Parts()[..k] + [s.mid] + Parts()[k + 1..];
        Overwrite(e, k, s.mid);
      } else if s.pre.Some? {
        SplitInTwo(e, k, s.pre.value, s.mid);
      } else {
        SplitInTwo(e, k, s.mid, s.post.value);
      }
    }

    method SplitInTwo(e: Entry, ghost k: nat, a: Part, b: Part)
      requires Linked() && k < |nodes| && nodes[k] == e && a.lno == e.lno < b.lno
      requires forall i :: 0 <= i < k ==> Parts()[i].lno < e.lno
      requires forall i :: k < i < |nodes| ==> Parts()[i].lno >= b.lno
      modifies this`ent, this`nodes, this`repr, repr
      ensures Linked()
      ensures k < |nodes| && nodes[..k + 1] == old(nodes)[..k + 1]
      ensures fresh(repr - old(repr))
      ensures Parts() == old(Parts())[..k] + ([a] + [b]) + old(Parts())[k + 1..]
    {
      Listed(k);
      hide Values, Linked;
      Splice2(Parts(), k, a, b);
      Overwrite(e, k, a);
      InsertAfter(b, k);
    }

    method SplitInThree(e: Entry, ghost k: nat, a: Part, b: Part, c: Part)
      requires Linked() && k < |nodes| && nodes[k] == e && a.lno == e.lno < b.lno < c.lno
      requires forall i :: 0 <= i < k ==> Parts()[i].lno < e.lno
      requires forall i :: k < i < |nodes| ==> Parts()[i].lno >= c.lno
      modifies this`ent, this`nodes, this`repr, repr
      ensures Linked()
      ensures k < |nodes| && nodes[..k + 1] == old(nodes)[..k + 1]
      ensures fresh(repr - old(repr))
      ensures Parts() == old(Parts())[..k] + ([a] + [b] + [c]) + old(Parts())[k + 1..]
    {
      Listed(k);
      hide Values, Linked;
      Splice3(Parts(), k, a, b, c);
      SplitInTwo(e, k, a, c);
      InsertAfter(b, k);
    }

    lemma Listed(k: nat)
      requires Linked() && k < |nodes|
      ensures nodes[k] in repr && nodes[k].next == if k == |nodes| - 1 then null else nodes[k + 1]
    {
    }

    method Overwrite(e: Entry, ghost k: nat, p: Part)
      requires Linked() && k < |nodes| && nodes[k] == e
      modifies e
      ensures Linked() && nodes == old(nodes)
      ensures Parts() == old(Parts())[k := p]
    {
      hide Values;
      e.Assign(p);
    }

    /** Splits an entry that the chunk touches, if that leaves the parent anything. */
    method BlameOverlap(e: Entry, ghost k: nat, tlno: int, plno: int, same: int, target: Origin, parent: Origin, ghost lo: int, ghost hi: int)
      requires Linked() && k < |nodes| && nodes[k] == e && Touches(e.Value(), tlno, same, target)
      requires Tiles(Parts(), lo, hi) && NonEmpty(Parts())
      modifies this`ent, this`nodes, this`repr, repr
      ensures Linked() && fresh(repr - old(repr))
      ensures k < |nodes| && nodes[..k + 1] == old(nodes)[..k + 1]
      ensures Parts() == if Splits(old(e.Value()), tlno, plno, same, target, parent)
                         then old(Parts())[..k] + Pieces(SplitOverlap(old(e.Value()), tlno, plno, same, parent)) + old(Parts())[k + 1..]
                         else old(Parts())
      ensures Tiles(Parts(), lo, hi) && NonEmpty(Parts())
    {
      ghost var parts := Parts();
      var s := SplitOverlap(e.Value(), tlno, plno, same, parent);
      hide Linked, Values, Pieces, Tiles, NonEmpty;
      if s.mid.numLines >= 1 {
        SplitKeepsShape(parts, lo, hi, k, tlno, plno, same, target, parent);
        SplitBlame(s, e, k);
      }
    }

    /** Passes one chunk on to the parent, walking the list that it splits. */
    method BlameChunk(tlno: int, plno: int, same: int, target: Origin, parent: Origin, ghost lo: int, ghost hi: int)
      requires Linked() && target != parent && Tiles(Parts(), lo, hi) && NonEmpty(Parts())
      modifies this`ent, this`nodes, this`repr, repr
      ensures Linked() && fresh(repr - old(repr))
      ensures Parts() == Chunk(old(Parts()), tlno, plno, same, target, parent)
    {
      hide Values, Tiles, NonEmpty, Chunk, SplitOverlap, Pieces, Linked;
      ghost var result := Chunk(Parts(), tlno, plno, same, target, parent);
      ghost var k: nat := 0;
      var e := ent;
      AtFirst();
      assert Parts()[..0] == [] && Parts()[0..] == Parts();
      while e != null
        invariant Linked() && fresh(repr - old(repr))
        invariant k <= |nodes| && e == if k == |nodes| then null else nodes[k]
        invariant Tiles(Parts(), lo, hi) && NonEmpty(Parts())
        invariant Parts()[..k] + Chunk(Parts()[k..], tlno, plno, same, target, parent) == result
        decreases |Chunk(Parts()[k..], tlno, plno, same, target, parent)|
      {
        ghost var parts := Parts();
        if !e.guilty && e.suspect == target && same > e.sLno && tlno < e.sLno + e.numLines {
          BlameOverlap(e, k, tlno, plno, same, target, parent, lo, hi);
        }
        if Splits(parts[k], tlno, plno, same, target, parent) {
          WalkSplit(parts, k, tlno, plno, same, target, parent);
        } else {
          WalkPast(parts, k, tlno, plno, same, target, parent);
        }
        Listed(k);
        e := e.next;
        k := k + 1;
      }
      assert Parts()[..k] == Parts() && Parts()[k..] == [];
      ChunkNil(tlno, plno, same, target, parent);
    }

    lemma AtFirst()
      requires Linked()
      ensures ent == if nodes == [] then null else nodes[0]
    {
    }

    lemma ChunkNil(tlno: int, plno: int, same: int, target: Origin, parent: Origin)
      ensures Chunk([], tlno, plno, same, target, parent) == []
    {
    }

    method FindLastInTarget(target: Origin) returns (last: int)
      requires Linked()
      ensures last == LastInTarget(Parts(), target)
    {
      hide Values, Linked;
      last := -1;
      ghost var k: nat := 0;
      var e := ent;
      AtFirst();
      while e != null
        invariant k <= |nodes| && e == if k == |nodes| then null else nodes[k]
        invariant last == LastInTarget(Parts()[..k], target)
        decreases |nodes| - k
      {
        LastInTargetNext(Parts(), k, target);
        if !e.guilty && e.suspect == target && last < e.sLno + e.numLines {
          last := e.sLno + e.numLines;
        }
        Listed(k);
        e := e.next;
        k := k + 1;
      }
      assert Parts()[..k] == Parts();
    }

    /** Passes the region before each change of the script on; returns where the last region starts. */
    method EmitChanges(script: seq<Change>, target: Origin, parent: Origin, ghost lo: int, ghost hi: int)
      returns (tlno: int, plno: int)
      requires Linked() && target != parent && Tiles(Parts(), lo, hi) && NonEmpty(Parts())
      modifies this`ent, this`nodes, this`repr, repr
      ensures Linked() && fresh(repr - old(repr)) && Tiles(Parts(), lo, hi) && NonEmpty(Parts())
      ensures Position(tlno, plno) == EndOf(script, Position(0, 0))
      ensures Parts() == AfterScript(old(Parts()), script, Position(0, 0), target, parent)
    {
      hide Values, Linked, Tiles, NonEmpty, Chunk;
      ghost var before := Parts();
      tlno, plno := 0, 0;
      var i := 0;
      while i < |script|
        invariant 0 <= i <= |script|
        invariant Linked() && fresh(repr - old(repr)) && Tiles(Parts(), lo, hi) && NonEmpty(Parts())
        invariant EndOf(script[i..], Position(tlno, plno)) == EndOf(script, Position(0, 0))
        invariant AfterScript(Parts(), script[i..], Position(tlno, plno), target, parent)
               == AfterScript(before, script, Position(0, 0), target, parent)
      {
        var c := script[i];
        assert script[i..][0] == c && script[i..][1..] == script[i + 1..];
        ChunkKeepsShape(Parts(), lo, hi, tlno, plno, c.i2, target, parent);
        BlameChunk(tlno, plno, c.i2, target, parent, lo, hi);
        plno := c.i1 + c.chg1;
        tlno := c.i2 + c.chg2;
        i := i + 1;
      }
    }

    /** Passes what the parent's version accounts for; true when the target is suspected for nothing. */
    method PassBlameToParent(h: History, target: Origin, parent: Origin, ghost lo: int, ghost hi: int) returns (nothing: bool)
      requires Linked() && target != parent && Tiles(Parts(), lo, hi) && NonEmpty(Parts())
      modifies this`ent, this`nodes, this`repr, repr
      ensures Linked() && fresh(repr - old(repr))
      ensures nothing <==> LastInTarget(old(Parts()), target) < 0
      ensures Parts() == if nothing then old(Parts()) else PassToParent(h, old(Parts()), target, parent)
    {
      hide Values, Linked, Tiles, NonEmpty, Chunk, AfterScript, EndOf, LastInTarget;
      var last := FindLastInTarget(target);
      if last < 0 {
        return true;
      }
      var a, b := TrimCommonTail(h.blob(parent), h.blob(target));
      var tlno, plno := EmitChanges(h.diff(a, b), target, parent, lo, hi);
      BlameChunk(tlno, plno, last, target, parent, lo, hi);
      return false;
    }

    /** Hands everything the origin is suspected for to an identical version. */
    method PassWholeBlame(origin: Origin, parent: Origin)
      requires Linked()
      modifies repr`suspect
      ensures Linked()
      ensures Parts() == PassWhole(old(Parts()), origin, parent)
    {
      hide Values, PassWhole;
      ghost var before := Parts();
      ghost var k: nat := 0;
      var e := ent;
      while e != null
        invariant Linked()
        invariant k <= |nodes| && e == if k == |nodes| then null else nodes[k]
        invariant |Parts()| == |before|
        invariant forall i :: 0 <= i < k ==> Parts()[i] == Reassign(before[i], origin, parent)
        invariant forall i :: k <= i < |before| ==> Parts()[i] == before[i]
        decreases |nodes| - k
      {
        if e.suspect == origin {
          e.suspect := parent;
        }
        e := e.next;
        k := k + 1;
      }
    }

    /** The suspect is guilty of what it still has. */
    method ConvictRemaining(suspect: Origin, isBoundary: bool)
      requires Linked()
      modifies repr`guilty, repr`isBoundary
      ensures Linked()
      ensures Parts() == Convict(old(Parts()), suspect, isBoundary)
    {
      hide Values, Convict;
      ghost var before := Parts();
      ghost var k: nat := 0;
      var e := ent;
      while e != null
        invariant Linked()
        invariant k <= |nodes| && e == if k == |nodes| then null else nodes[k]
        invariant |Parts()| == |before|
        invariant forall i :: 0 <= i < k ==> Parts()[i] == ConvictOne(before[i], suspect, isBoundary)
        invariant forall i :: k <= i < |before| ==> Parts()[i] == before[i]
        decreases |nodes| - k
      {
        if e.suspect == suspect {
          e.guilty := true;
          e.isBoundary := isBoundary;
        }
        e := e.next;
        k := k + 1;
      }
    }

    /** The suspect of the first entry that nobody has been convicted for. */
    method FindSuspect() returns (suspect: Option<Origin>)
      requires Linked()
      ensures suspect == FirstSuspect(Parts())
    {
      hide Values, Linked;
      suspect := None;
      ghost var k: nat := 0;
      var e := ent;
      AtFirst();
      assert Parts()[0..] == Parts();
      while suspect.None? && e != null
        invariant k <= |nodes|
        invariant suspect.None? ==> e == if k == |nodes| then null else nodes[k]
        invariant FirstSuspect(Parts()) == if suspect.Some? then suspect else FirstSuspect(Parts()[k..])
        decreases |nodes| - k
      {
        assert Parts()[k..][0] == e.Value() && Parts()[k..][1..] == Parts()[k + 1..];
        if !e.guilty {
          suspect := Some(e.suspect);
        }
        Listed(k);
        e := e.next;
        k := k + 1;
      }
    }

    /** Finds the file in each parent, and passes blame to the versions found. */
    method PassBlameOn(h: History, origin: Origin, ghost final: Origin, ghost lo: int, ghost hi: int)
      requires Linked() && h.Valid() && Good(h, final, lo, hi, Parts()) && h.Reaches(final.commit, origin.commit)
      modifies this`ent, this`nodes, this`repr, this`oldest, this`asked, repr
      ensures Linked() && fresh(repr - old(repr))
      ensures View() == PassBlame(h, old(View()), origin)
    {
      hide Linked, Values, History.Valid, History.Reaches, Good, AskParents, PassWhole;
      ghost var result := PassBlame(h, View(), origin);
      var parents := if oldest == Some(origin.commit) then [] else h.parents(origin.commit);
      if parents == [] {
        oldest := Some(origin.commit);
        return;
      }
      var found: seq<Option<Origin>> := [];
      var settled := false;
      while |found| < |parents|
        invariant Linked() && repr == old(repr) && Good(h, final, lo, hi, Parts())
        invariant |found| <= |parents| && FoundInParents(h, final, origin, found)
        invariant AskParents(h, View(), origin, parents, found) == result
        decreases |parents| - |found|
      {
        var o := h.findOrigin(asked, parents[|found|], origin);
        FoundOne(h, final, origin, found, o, parents, asked);
        AskUnfold(h, View(), origin, parents, found);
        asked := asked + 1;
        if o.None? {
          found := found + [None];
        } else if h.blobId(o.value) == h.blobId(origin) {
          PassWholeBlame(origin, o.value);
          return;
        } else {
          var j := 0;
          while j < |found| && !(found[j].Some? && h.blobId(found[j].value) == h.blobId(o.value))
            invariant 0 <= j <= |found|
            invariant forall i :: 0 <= i < j ==> !(found[i].Some? && h.blobId(found[i].value) == h.blobId(o.value))
          {
            j := j + 1;
          }
          found := found + [if j < |found| then None else o];
        }
      }
      AskUnfold(h, View(), origin, parents, found);
      PassToFound(h, origin, found, final, lo, hi);
    }

    /** Standard blame: the versions found, one after the other. */
    method PassToFound(h: History, origin: Origin, found: seq<Option<Origin>>, ghost final: Origin, ghost lo: int, ghost hi: int)
      requires Linked() && h.Valid() && Good(h, final, lo, hi, Parts()) && FoundInParents(h, final, origin, found)
      modifies this`ent, this`nodes, this`repr, repr
      ensures Linked() && fresh(repr - old(repr))
      ensures View() == PassToEach(h, old(View()), origin, found)
    {
      hide Linked, Values, History.Valid, History.Reaches, PassToParent, LastInTarget, Tiles, NonEmpty, AllTrue, AllReachable,
           PassToEach, FoundInParents;
      ghost var result := PassToEach(h, View(), origin, found);
      var i := 0;
      assert found[0..] == found;
      while i < |found|
        invariant 0 <= i <= |found|
        invariant Linked() && fresh(repr - old(repr)) && Good(h, final, lo, hi, Parts())
        invariant PassToEach(h, View(), origin, found[i..]) == result
      {
        PassToNext(h, View(), origin, found, i);
        if found[i].Some? {
          var parent := found[i].value;
          FoundAt(h, final, origin, found, i);
          PassToParentKeepsGood(h, final, lo, hi, Parts(), origin, parent);
          var nothing := PassBlameToParent(h, origin, parent, lo, hi);
          if nothing {
            return;
          }
        }
        i := i + 1;
      }
      PassToNext(h, View(), origin, found, |found|);
    }

    /** The main loop: investigate the first suspect until there is none. */
    method Run(h: History, ghost final: Origin, ghost lo: int, ghost hi: int)
      requires Linked() && h.Valid() && Good(h, final, lo, hi, Parts())
      modifies this`ent, this`nodes, this`repr, this`oldest, this`asked, repr
      ensures Linked() && fresh(repr - old(repr))
      ensures View() == LikeGit(h, final, lo, hi, old(View()))
    {
      hide Linked, Values, History.Valid, History.Reaches, Good, PassBlame, Convict, FirstSuspect, Debt;
      ghost var result := LikeGit(h, final, lo, hi, View());
      while true
        invariant Linked() && fresh(repr - old(repr)) && Good(h, final, lo, hi, Parts())
        invariant LikeGit(h, final, lo, hi, View()) == result
        decreases Debt(h, Parts())
      {
        var found := FindSuspect();
        if found.None? {
          return;
        }
        var suspect := found.value;
        SuspectReachable(h, final, lo, hi, Parts());
        InvestigateKeepsGood(h, final, lo, hi, View(), suspect);
        InvestigateLowersDebt(h, final, View(), suspect);
        PassBlameOn(h, suspect, final, lo, hi);
        ConvictRemaining(suspect, oldest == Some(suspect.commit));
      }
    }
  }

  lemma AskUnfold(h: History, b: Board, origin: Origin, parents: seq<nat>, found: seq<Option<Origin>>)
    requires |found| <= |parents|
    ensures
      AskParents(h, b, origin, parents, found)
      == if |found| == |parents| then PassToEach(h, b, origin, found)
         else
           var o := h.findOrigin(b.asked, parents[|found|], origin);
           var b' := b.(asked := b.asked + 1);
           if o.None? then AskParents(h, b', origin, parents, found + [None])
           else if h.blobId(o.value) == h.blobId(origin) then b'.(parts := PassWhole(b.parts, origin, o.value))
           else AskParents(h, b', origin, parents, found + [if AlreadyFound(h, found, o.value) then None else o])
  {
  }

  lemma PassToNext(h: History, b: Board, origin: Origin, found: seq<Option<Origin>>, i: nat)
    requires i <= |found|
    ensures PassToEach(h, b, origin, found[i..])
         == if i == |found| then b
            else if found[i].None? then PassToEach(h, b, origin, found[i + 1..])
            else if LastInTarget(b.parts, origin) < 0 then b
            else PassToEach(h, b.(parts := PassToParent(h, b.parts, origin, found[i].value)), origin, found[i + 1..])
  {
    hide PassToParent, LastInTarget;
    if i < |found| {
      assert found[i..][0] == found[i] && found[i..][1..] == found[i + 1..];
    }
  }

  lemma FoundAt(h: History, final: Origin, origin: Origin, found: seq<Option<Origin>>, i: nat)
    requires FoundInParents(h, final, origin, found) && i < |found| && found[i].Some?
    ensures h.Reaches(final.commit, found[i].value.commit) && found[i].value != origin
  {
  }

  lemma LastInTargetNext(parts: seq<Part>, k: nat, target: Origin)
    requires k < |parts|
    ensures
      var rest := LastInTarget(parts[..k], target);
      LastInTarget(parts[..k + 1], target)
      == if !parts[k].guilty && parts[k].suspect == target && rest < parts[k].sLno + parts[k].numLines
         then parts[k].sLno + parts[k].numLines else rest
  {
    assert parts[..k + 1][..k] == parts[..k];
  }

  /** Trims the common tail: whole blocks from the end, then forward again to the start of a line. */
  method TrimCommonTail(a: seq<byte>, b: seq<byte>) returns (a': seq<byte>, b': seq<byte>)
    ensures a' == a[..|a| - TrimLength(a, b)] && b' == b[..|b| - TrimLength(a, b)]
  {
    hide LineEnd;
    var trimmed: nat, recovered: nat := 0, 0;
    var smaller := if |a| < |b| then |a| else |b|;
    while BLOCK + trimmed <= smaller
          && a[|a| - trimmed - BLOCK..|a| - trimmed] == b[|b| - trimmed - BLOCK..|b| - trimmed]
      invariant trimmed <= smaller
      invariant CommonBlocks(a, b, trimmed) == CommonBlocks(a, b, 0)
      decreases smaller - trimmed
    {
      trimmed := trimmed + BLOCK;
    }
    recovered := RestOfLine(a[|a| - trimmed..]);
    a' := a[..|a| - (trimmed - recovered)];
    b' := b[..|b| - (trimmed - recovered)];
  }

  /** Looks for the end of the first line. */
  method RestOfLine(tail: seq<byte>) returns (recovered: nat)
    ensures recovered == LineEnd(tail)
  {
    recovered := 0;
    assert tail[0..] == tail;
    while recovered < |tail|
      invariant recovered <= |tail| && LineEnd(tail) == recovered + LineEnd(tail[recovered..])
    {
      assert tail[recovered..][1..] == tail[recovered + 1..];
      recovered := recovered + 1;
      if tail[recovered - 1] == NEWLINE {
        break;
      }
    }
  }
}
