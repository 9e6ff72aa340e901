/**
  Blame passes on all it can: what is left with a suspect after its turn are lines inside the
  changes against every version of the file that was found in its parents, and nothing else.
*/
module BlameCompleteness {
  import opened Bytes
  import opened BlameRanges
  import opened BlamePassing

  /** Line `i` of the origin's file is in a range it is still suspected for. */
  ghost predicate Suspected(parts: seq<Part>, origin: Origin, i: int) {
    exists p :: p in parts && HasLine(p, origin, i)
  }

  predicate HasLine(p: Part, origin: Origin, i: int) {
    !p.guilty && p.suspect == origin && p.sLno <= i < p.sLno + p.numLines
  }

  /** Line `i` of the newer file lies inside a change. */
  ghost predicate InChange(script: seq<Change>, i: int) {
    exists c :: c in script && c.i2 <= i < c.i2 + c.chg2
  }

  // ---- one parent -----------------------------------------------------------

  lemma SuspectedConcat(a: seq<Part>, b: seq<Part>, origin: Origin, i: int)
    ensures Suspected(a + b, origin, i) <==> Suspected(a, origin, i) || Suspected(b, origin, i)
  {
    hide HasLine;
    assert forall p :: p in a + b <==> p in a || p in b;
  }

  lemma SuspectedOne(p: Part, origin: Origin, i: int)
    ensures Suspected([p], origin, i) <==> HasLine(p, origin, i)
  {
    hide HasLine;
    assert p in [p];
  }

  lemma ChunkOneSuspects(e: Part, tlno: int, plno: int, same: int, target: Origin, parent: Origin, i: int)
    requires target != parent
    ensures Suspected(ChunkOne(e, tlno, plno, same, target, parent), target, i)
       <==> HasLine(e, target, i) && !(tlno <= i < same)
  {
    SuspectedOne(e, target, i);
    if Splits(e, tlno, plno, same, target, parent) {
      var s := SplitOverlap(e, tlno, plno, same, parent);
      var pre := if s.pre.Some? then [s.pre.value] else [];
      var post := if s.post.Some? then [s.post.value] else [];
      SuspectedConcat(pre + [s.mid], post, target, i);
      SuspectedConcat(pre, [s.mid], target, i);
      SuspectedOne(s.mid, target, i);
      if s.pre.Some? { SuspectedOne(s.pre.value, target, i); }
      if s.post.Some? { SuspectedOne(s.post.value, target, i); }
      hide Suspected;
    }
  }

  /** A chunk takes exactly its lines from the target. */
  lemma {:induction false} ChunkSuspects(parts: seq<Part>, tlno: int, plno: int, same: int, target: Origin, parent: Origin, i: int)
    requires target != parent
    ensures Suspected(Chunk(parts, tlno, plno, same, target, parent), target, i)
       <==> Suspected(parts, target, i) && !(tlno <= i < same)
  {
    if parts != [] {
      hide ChunkOne, HasLine, Suspected;
      var one, rest := ChunkOne(parts[0], tlno, plno, same, target, parent), Chunk(parts[1..], tlno, plno, same, target, parent);
      ChunkOneSuspects(parts[0], tlno, plno, same, target, parent, i);
      ChunkSuspects(parts[1..], tlno, plno, same, target, parent, i);
      SuspectedConcat(one, rest, target, i);
      SuspectedConcat([parts[0]], parts[1..], target, i);
      SuspectedOne(parts[0], target, i);
      assert parts == [parts[0]] + parts[1..];
    }
  }

  lemma InChangeFirst(script: seq<Change>, i: int)
    requires script != []
    ensures InChange(script, i) <==> script[0].i2 <= i < script[0].i2 + script[0].chg2 || InChange(script[1..], i)
  {
    assert script == [script[0]] + script[1..];
  }

  /** Of the lines before the last unchanged region, those inside changes stay and no others. */
  lemma {:induction false} ScriptSuspects(parts: seq<Part>, script: seq<Change>, plno: nat, tlno: nat, target: Origin, parent: Origin,
                                          a: seq<seq<byte>>, b: seq<seq<byte>>, i: int)
    requires target != parent && ValidScript(a, b, script, plno, tlno) && tlno <= i
    ensures var end := EndOf(script, Position(tlno, plno)).tlno;
            && tlno <= end
            && (InChange(script, i) ==> i < end)
            && (Suspected(AfterScript(parts, script, Position(tlno, plno), target, parent), target, i)
                <==> Suspected(parts, target, i) && (InChange(script, i) || end <= i))
    decreases |script|
  {
    hide Chunk, Suspected;
    if script != [] {
      var c := script[0];
      var parts' := Chunk(parts, tlno, plno, c.i2, target, parent);
      hide InChange;
      InChangeFirst(script, i);
      ChunkSuspects(parts, tlno, plno, c.i2, target, parent, i);
      if c.i2 + c.chg2 <= i {
        ScriptSuspects(parts', script[1..], c.i1 + c.chg1, c.i2 + c.chg2, target, parent, a, b, i);
      } else {
        ScriptBefore(parts', script[1..], c.i1 + c.chg1, c.i2 + c.chg2, target, parent, a, b, i);
      }
    }
  }

  // Lines before the rest of the script are left alone.
  lemma {:induction false} ScriptBefore(parts: seq<Part>, script: seq<Change>, plno: nat, tlno: nat, target: Origin, parent: Origin,
                                        a: seq<seq<byte>>, b: seq<seq<byte>>, i: int)
    requires target != parent && ValidScript(a, b, script, plno, tlno) && i < tlno
    ensures tlno <= EndOf(script, Position(tlno, plno)).tlno && !InChange(script, i)
    ensures Suspected(AfterScript(parts, script, Position(tlno, plno), target, parent), target, i) <==> Suspected(parts, target, i)
    decreases |script|
  {
    hide Chunk, Suspected;
    if script != [] {
      var c := script[0];
      hide InChange;
      InChangeFirst(script, i);
      ChunkSuspects(parts, tlno, plno, c.i2, target, parent, i);
      ScriptBefore(Chunk(parts, tlno, plno, c.i2, target, parent), script[1..], c.i1 + c.chg1, c.i2 + c.chg2, target, parent, a, b, i);
    }
  }

  lemma {:induction false} LastIsAfter(parts: seq<Part>, target: Origin, i: int)
    requires Suspected(parts, target, i)
    ensures i < LastInTarget(parts, target)
  {
    var n := |parts| - 1;
    var p :| p in parts && HasLine(p, target, i);
    assert parts == parts[..n] + [parts[n]];
    if p in parts[..n] {
      LastIsAfter(parts[..n], target, i);
    }
  }

  /** After one parent, exactly the lines inside the changes against it are left of those the target was suspected for. */
  lemma PassToParentSuspects(h: History, parts: seq<Part>, target: Origin, parent: Origin, i: int)
    requires h.Valid() && target != parent && 0 <= i
    ensures Suspected(PassToParent(h, parts, target, parent), target, i)
       <==> Suspected(parts, target, i) && InChange(Script(h, target, parent), i)
  {
    hide Suspected, InChange, Chunk, AfterScript, EndOf, ValidScript, Lines, LastInTarget;
    var a, b := h.blob(parent), h.blob(target);
    var n := TrimLength(a, b);
    var script := Script(h, target, parent);
    var end := EndOf(script, Position(0, 0));
    ScriptSuspects(parts, script, 0, 0, target, parent, Lines(a[..|a| - n]), Lines(b[..|b| - n]), i);
    ChunkSuspects(AfterScript(parts, script, Position(0, 0), target, parent), end.tlno, end.plno, LastInTarget(parts, target),
                  target, parent, i);
    if Suspected(parts, target, i) {
      LastIsAfter(parts, target, i);
    }
  }

  // ---- all parents ----------------------------------------------------------

  /** This version, if there is one, is a different one and line `i` of the origin's file lies inside a change against it. */
  ghost predicate Differs(h: History, origin: Origin, found: Option<Origin>, i: int) {
    found.Some? ==> h.blobId(found.value) != h.blobId(origin) && InChange(Script(h, origin, found.value), i)
  }

  ghost predicate AllDiffer(h: History, origin: Origin, found: seq<Option<Origin>>, i: int) {
    forall o :: o in found ==> Differs(h, origin, o, i)
  }

  // None of the versions found is the same file.
  ghost predicate NoneSame(h: History, found: seq<Option<Origin>>, origin: Origin) {
    forall o :: o in found && o.Some? ==> h.blobId(o.value) != h.blobId(origin)
  }

  lemma {:induction false} NoneSuspected(parts: seq<Part>, origin: Origin, i: int)
    requires LastInTarget(parts, origin) < 0 && 0 <= i
    ensures !Suspected(parts, origin, i)
  {
    if Suspected(parts, origin, i) {
      LastIsAfter(parts, origin, i);
    }
  }

  /** After all versions found, exactly the lines are left that differ from every one of them. */
  lemma {:induction false} PassToEachSuspects(h: History, b: Board, origin: Origin, found: seq<Option<Origin>>, i: int)
    requires h.Valid() && NoneSame(h, found, origin) && 0 <= i
    ensures Suspected(PassToEach(h, b, origin, found).parts, origin, i)
       <==> Suspected(b.parts, origin, i) && AllDiffer(h, origin, found, i)
    decreases |found|
  {
    hide Suspected, History.Valid, PassToParent, LastInTarget, Differs;
    if found != [] {
      assert found == [found[0]] + found[1..];
      if found[0].None? {
        NothingDiffers(h, origin, i);
        PassToEachSuspects(h, b, origin, found[1..], i);
      } else if LastInTarget(b.parts, origin) < 0 {
        NoneSuspected(b.parts, origin, i);
      } else {
        var parts := PassToParent(h, b.parts, origin, found[0].value);
        PassToParentSuspects(h, b.parts, origin, found[0].value, i);
        SomeDiffers(h, origin, found[0].value, i);
        PassToEachSuspects(h, b.(parts := parts), origin, found[1..], i);
      }
    }
  }

  lemma NothingDiffers(h: History, origin: Origin, i: int)
    ensures Differs(h, origin, None, i)
  {
  }

  lemma SomeDiffers(h: History, origin: Origin, o: Origin, i: int)
    requires h.blobId(o) != h.blobId(origin)
    ensures Differs(h, origin, Some(o), i) <==> InChange(Script(h, origin, o), i)
  {
  }

  // A version with the content of one found before makes no difference.
  lemma SameDiffers(h: History, origin: Origin, found: seq<Option<Origin>>, o: Origin, i: int)
    requires h.Valid() && AlreadyFound(h, found, o) && AllDiffer(h, origin, found, i)
    ensures Differs(h, origin, Some(o), i)
  {
    hide InChange;
    var j :| 0 <= j < |found| && found[j].Some? && h.blobId(found[j].value) == h.blobId(o);
    assert found[j] in found;
  }

  /** The answer that the version in parent `j` of the origin gets, if asking starts with question `n`. */
  function Answer(h: History, origin: Origin, n: nat, j: nat): Option<Origin>
    requires j < |h.parents(origin.commit)|
  {
    h.findOrigin(n + j, h.parents(origin.commit)[j], origin)
  }

  ghost predicate DifferFrom(h: History, origin: Origin, n: nat, k: nat, i: int) {
    forall j: nat :: k <= j < |h.parents(origin.commit)| ==> Differs(h, origin, Answer(h, origin, n, j), i)
  }

  /** Line `i` lies inside a change against the version in every parent that has one. */
  ghost predicate DiffersFromParents(h: History, origin: Origin, n: nat, i: int) {
    DifferFrom(h, origin, n, 0, i)
  }

  lemma DifferFirst(h: History, origin: Origin, n: nat, k: nat, i: int)
    requires k < |h.parents(origin.commit)|
    ensures DifferFrom(h, origin, n, k, i) <==> Differs(h, origin, Answer(h, origin, n, k), i) && DifferFrom(h, origin, n, k + 1, i)
  {
    hide Differs, Answer;
  }

  lemma WholeSuspects(parts: seq<Part>, origin: Origin, parent: Origin, i: int)
    requires origin != parent
    ensures !Suspected(PassWhole(parts, origin, parent), origin, i)
  {
  }

  lemma AllDifferMore(h: History, origin: Origin, found: seq<Option<Origin>>, o: Option<Origin>, i: int)
    ensures AllDiffer(h, origin, found + [o], i) <==> AllDiffer(h, origin, found, i) && Differs(h, origin, o, i)
  {
    hide Differs;
    assert forall x :: x in found + [o] <==> x in found || x == o;
  }

  lemma ParentIsOther(h: History, origin: Origin, n: nat, j: nat)
    requires h.Valid() && j < |h.parents(origin.commit)|
    ensures Answer(h, origin, n, j).Some? ==> Answer(h, origin, n, j).value != origin
  {
  }

  lemma {:induction false} AskParentsSuspects(h: History, b: Board, origin: Origin, found: seq<Option<Origin>>, n: nat, i: int)
    requires h.Valid() && 0 <= i && NoneSame(h, found, origin)
    requires |found| <= |h.parents(origin.commit)| && b.asked == n + |found|
    ensures Suspected(AskParents(h, b, origin, h.parents(origin.commit), found).parts, origin, i)
       <==> Suspected(b.parts, origin, i) && AllDiffer(h, origin, found, i) && DifferFrom(h, origin, n, |found|, i)
    decreases |h.parents(origin.commit)| - |found|
  {
    hide Suspected, PassToEach, Differs, AlreadyFound, PassWhole, AllDiffer, DifferFrom, History.Valid;
    var parents := h.parents(origin.commit);
    if |found| == |parents| {
      PassToEachSuspects(h, b, origin, found, i);
      NoneLeft(h, origin, n, |found|, i);
    } else {
      var o := Answer(h, origin, n, |found|);
      var b' := b.(asked := b.asked + 1);
      DifferFirst(h, origin, n, |found|, i);
      if o.None? {
        NothingDiffers(h, origin, i);
        AllDifferMore(h, origin, found, None, i);
        AskParentsSuspects(h, b', origin, found + [None], n, i);
      } else if h.blobId(o.value) == h.blobId(origin) {
        ParentIsOther(h, origin, n, |found|);
        WholeSuspects(b.parts, origin, o.value, i);
        SameFile(h, origin, o.value, i);
      } else if AlreadyFound(h, found, o.value) {
        NothingDiffers(h, origin, i);
        AllDifferMore(h, origin, found, None, i);
        AskParentsSuspects(h, b', origin, found + [None], n, i);
        if AllDiffer(h, origin, found, i) {
          SameDiffers(h, origin, found, o.value, i);
        }
      } else {
        AllDifferMore(h, origin, found, o, i);
        AskParentsSuspects(h, b', origin, found + [o], n, i);
      }
    }
  }

  lemma NoneLeft(h: History, origin: Origin, n: nat, k: nat, i: int)
    requires k >= |h.parents(origin.commit)|
    ensures DifferFrom(h, origin, n, k, i)
  {
  }

  lemma SameFile(h: History, origin: Origin, o: Origin, i: int)
    requires h.blobId(o) == h.blobId(origin)
    ensures !Differs(h, origin, Some(o), i)
  {
  }

  /** Whether a suspect may not ask its parents: it has none, or it is the oldest commit to go back to. */
  predicate IsLast(h: History, oldest: Option<nat>, origin: Origin) {
    oldest == Some(origin.commit) || h.parents(origin.commit) == []
  }

  /**
    A suspect that may ask keeps exactly the lines that lie inside a change against the
    version in every parent; one that may not keeps all.
  */
  lemma PassBlameSuspects(h: History, b: Board, origin: Origin, i: int)
    requires h.Valid() && 0 <= i
    ensures Suspected(PassBlame(h, b, origin).parts, origin, i)
       <==> Suspected(b.parts, origin, i) && (IsLast(h, b.oldest, origin) || DiffersFromParents(h, origin, b.asked, i))
  {
    hide Suspected, AskParents, Differs, DifferFrom, History.Valid;
    if !IsLast(h, b.oldest, origin) {
      AskParentsSuspects(h, b, origin, [], b.asked, i);
    }
  }

  // ---- the whole run --------------------------------------------------------

  /**
    Origin `q` was rightly convicted of the lines of `p`: as a boundary, being a last one, or
    because they differ from the versions in its parents.
  */
  ghost predicate RightlyConvicted(h: History, oldest: Option<nat>, q: Origin, p: Part) {
    if p.isBoundary then IsLast(h, oldest, q)
    else h.parents(q.commit) != [] && (oldest == Some(q.commit) || exists n: nat :: LinesDiffer(h, q, n, p))
  }

  ghost predicate LinesDiffer(h: History, q: Origin, n: nat, p: Part) {
    forall i :: 0 <= i && p.sLno <= i < p.sLno + p.numLines ==> DiffersFromParents(h, q, n, i)
  }

  /** The suspect named, or a version with the same content that it took over from, was rightly convicted. */
  ghost predicate Earned(h: History, oldest: Option<nat>, p: Part) {
    exists q: Origin :: StandsFor(h, q, p.suspect) && RightlyConvicted(h, oldest, q, p)
  }

  // `o` is `q`, or has the same content and took over from `q`, which had parents to pass it to.
  ghost predicate StandsFor(h: History, q: Origin, o: Origin) {
    q == o || (h.blobId(q) == h.blobId(o) && h.parents(q.commit) != [])
  }

  ghost predicate AllEarned(h: History, oldest: Option<nat>, parts: seq<Part>) {
    forall p :: p in parts && p.guilty ==> Earned(h, oldest, p)
  }

  // The oldest commit is the one given, or one that has no parents anyway.
  ghost predicate OldestIs(h: History, oldest: Option<nat>, now: Option<nat>) {
    now == oldest || (now.Some? && h.parents(now.value) == [])
  }

  lemma {:induction false} ChunkGuilty(parts: seq<Part>, tlno: int, plno: int, same: int, target: Origin, parent: Origin)
    ensures forall p :: p in Chunk(parts, tlno, plno, same, target, parent) && p.guilty ==> p in parts
  {
    if parts != [] {
      ChunkGuilty(parts[1..], tlno, plno, same, target, parent);
      assert parts == [parts[0]] + parts[1..];
    }
  }

  lemma {:induction false} ScriptGuilty(parts: seq<Part>, script: seq<Change>, at: Position, target: Origin, parent: Origin)
    ensures forall p :: p in AfterScript(parts, script, at, target, parent) && p.guilty ==> p in parts
    decreases |script|
  {
    hide Chunk;
    if script != [] {
      var c := script[0];
      ChunkGuilty(parts, at.tlno, at.plno, c.i2, target, parent);
      ScriptGuilty(Chunk(parts, at.tlno, at.plno, c.i2, target, parent), script[1..],
                   Position(c.i2 + c.chg2, c.i1 + c.chg1), target, parent);
    }
  }

  lemma PassToParentGuilty(h: History, parts: seq<Part>, target: Origin, parent: Origin)
    ensures forall p :: p in PassToParent(h, parts, target, parent) && p.guilty ==> p in parts
  {
    hide Chunk, AfterScript, EndOf, Script, LastInTarget;
    var script := Script(h, target, parent);
    var end := EndOf(script, Position(0, 0));
    ScriptGuilty(parts, script, Position(0, 0), target, parent);
    ChunkGuilty(AfterScript(parts, script, Position(0, 0), target, parent), end.tlno, end.plno, LastInTarget(parts, target),
                target, parent);
  }

  lemma {:induction false} PassToEachGuilty(h: History, b: Board, origin: Origin, found: seq<Option<Origin>>)
    ensures forall p :: p in PassToEach(h, b, origin, found).parts && p.guilty ==> p in b.parts
    ensures PassToEach(h, b, origin, found).oldest == b.oldest
    decreases |found|
  {
    hide PassToParent, LastInTarget;
    if found != [] {
      if found[0].None? {
        PassToEachGuilty(h, b, origin, found[1..]);
      } else if LastInTarget(b.parts, origin) >= 0 {
        PassToParentGuilty(h, b.parts, origin, found[0].value);
        PassToEachGuilty(h, b.(parts := PassToParent(h, b.parts, origin, found[0].value)), origin, found[1..]);
      }
    }
  }

  lemma SameLinesDiffer(h: History, q: Origin, n: nat, p: Part, p': Part)
    requires LinesDiffer(h, q, n, p) && p'.sLno == p.sLno && p'.numLines == p.numLines
    ensures LinesDiffer(h, q, n, p')
  {
    hide DiffersFromParents;
  }

  // Taken over by an origin with the same content, or given another boundary mark for good reason.
  lemma EarnedBySame(h: History, oldest: Option<nat>, p: Part, p': Part)
    requires Earned(h, oldest, p) && p'.sLno == p.sLno && p'.numLines == p.numLines
    requires
      || (p'.isBoundary == p.isBoundary && p'.suspect == p.suspect)
      || (p'.isBoundary == p.isBoundary && h.parents(p.suspect.commit) != [] && h.blobId(p.suspect) == h.blobId(p'.suspect))
      || (p'.suspect == p.suspect && p'.isBoundary && IsLast(h, oldest, p.suspect))
      || (p'.suspect == p.suspect && !p'.isBoundary && h.parents(p.suspect.commit) != [])
    ensures Earned(h, oldest, p')
  {
    hide LinesDiffer;
    var q: Origin :| StandsFor(h, q, p.suspect) && RightlyConvicted(h, oldest, q, p);
    if p'.suspect == p.suspect && p'.isBoundary && IsLast(h, oldest, p.suspect) {
      assert StandsFor(h, p.suspect, p'.suspect) && RightlyConvicted(h, oldest, p.suspect, p');
    } else {
      if !p.isBoundary && oldest != Some(q.commit) {
        var n: nat :| LinesDiffer(h, q, n, p);
        SameLinesDiffer(h, q, n, p, p');
      }
      assert StandsFor(h, q, p'.suspect) && RightlyConvicted(h, oldest, q, p');
    }
  }

  lemma WholeEarned(h: History, oldest: Option<nat>, parts: seq<Part>, origin: Origin, parent: Origin)
    requires AllEarned(h, oldest, parts) && h.blobId(origin) == h.blobId(parent) && h.parents(origin.commit) != []
    ensures AllEarned(h, oldest, PassWhole(parts, origin, parent))
  {
    hide Earned;
    var r := PassWhole(parts, origin, parent);
    forall p | p in r && p.guilty ensures Earned(h, oldest, p) {
      var i :| 0 <= i < |r| && r[i] == p;
      assert parts[i] in parts;
      EarnedBySame(h, oldest, parts[i], p);
    }
  }

  lemma {:induction false} AskParentsEarned(h: History, oldest: Option<nat>, b: Board, origin: Origin, parents: seq<nat>,
                                            found: seq<Option<Origin>>)
    requires |found| <= |parents| && AllEarned(h, oldest, b.parts) && h.parents(origin.commit) != []
    ensures AllEarned(h, oldest, AskParents(h, b, origin, parents, found).parts)
    ensures AskParents(h, b, origin, parents, found).oldest == b.oldest
    decreases |parents| - |found|
  {
    hide Earned, PassToEach, PassWhole, AlreadyFound;
    if |found| == |parents| {
      PassToEachGuilty(h, b, origin, found);
    } else {
      var o := h.findOrigin(b.asked, parents[|found|], origin);
      var b' := b.(asked := b.asked + 1);
      if o.None? {
        AskParentsEarned(h, oldest, b', origin, parents, found + [None]);
      } else if h.blobId(o.value) == h.blobId(origin) {
        WholeEarned(h, oldest, b.parts, origin, o.value);
      } else {
        AskParentsEarned(h, oldest, b', origin, parents, found + [if AlreadyFound(h, found, o.value) then None else o]);
      }
    }
  }

  lemma PassBlameEarned(h: History, oldest: Option<nat>, b: Board, origin: Origin)
    requires AllEarned(h, oldest, b.parts) && OldestIs(h, oldest, b.oldest)
    ensures AllEarned(h, oldest, PassBlame(h, b, origin).parts)
    ensures OldestIs(h, oldest, PassBlame(h, b, origin).oldest)
  {
    hide AllEarned, AskParents;
    if !IsLast(h, b.oldest, origin) {
      AskParentsEarned(h, oldest, b, origin, h.parents(origin.commit), []);
    }
  }

  // After its turn a suspect counts as the oldest commit exactly when it was not to ask.
  lemma BoundaryIsLast(h: History, oldest: Option<nat>, b: Board, suspect: Origin)
    requires OldestIs(h, oldest, b.oldest)
    ensures PassBlame(h, b, suspect).oldest == Some(suspect.commit) <==> IsLast(h, b.oldest, suspect)
    ensures IsLast(h, b.oldest, suspect) ==> IsLast(h, oldest, suspect)
  {
    hide AskParents;
    if !IsLast(h, b.oldest, suspect) {
      AskedOldest(h, b, suspect, h.parents(suspect.commit), []);
    }
  }

  lemma {:induction false} AskedOldest(h: History, b: Board, origin: Origin, parents: seq<nat>, found: seq<Option<Origin>>)
    requires |found| <= |parents|
    ensures AskParents(h, b, origin, parents, found).oldest == b.oldest
    decreases |parents| - |found|
  {
    hide PassToEach, PassWhole, AlreadyFound;
    if |found| == |parents| {
      PassToEachGuilty(h, b, origin, found);
    } else {
      var o := h.findOrigin(b.asked, parents[|found|], origin);
      var b' := b.(asked := b.asked + 1);
      AskedOldest(h, b', origin, parents, found + [if o.None? || AlreadyFound(h, found, o.value) then None else o]);
    }
  }

  // What is left with the suspect after its turn is rightly left.
  lemma LeftIsEarned(h: History, oldest: Option<nat>, b: Board, suspect: Origin, p: Part, p': Part)
    requires h.Valid() && OldestIs(h, oldest, b.oldest)
    requires p in PassBlame(h, b, suspect).parts && !p.guilty && p.suspect == suspect
    requires p' == ConvictOne(p, suspect, PassBlame(h, b, suspect).oldest == Some(suspect.commit))
    ensures Earned(h, oldest, p')
  {
    hide PassBlame, DiffersFromParents, History.Valid, OldestIs;
    BoundaryIsLast(h, oldest, b, suspect);
    if !p'.isBoundary {
      forall i | 0 <= i && p'.sLno <= i < p'.sLno + p'.numLines ensures DiffersFromParents(h, suspect, b.asked, i) {
        assert HasLine(p, suspect, i);
        PassBlameSuspects(h, b, suspect, i);
      }
      assert LinesDiffer(h, suspect, b.asked, p');
    }
    assert StandsFor(h, suspect, p'.suspect) && RightlyConvicted(h, oldest, suspect, p');
  }

  lemma InvestigateEarned(h: History, oldest: Option<nat>, b: Board, suspect: Origin)
    requires h.Valid() && AllEarned(h, oldest, b.parts) && OldestIs(h, oldest, b.oldest)
    ensures AllEarned(h, oldest, Investigate(h, b, suspect).parts)
    ensures OldestIs(h, oldest, Investigate(h, b, suspect).oldest)
  {
    hide PassBlame, Convict, Earned, History.Valid, OldestIs;
    var b' := PassBlame(h, b, suspect);
    PassBlameEarned(h, oldest, b, suspect);
    BoundaryIsLast(h, oldest, b, suspect);
    var r := Investigate(h, b, suspect).parts;
    forall p | p in r && p.guilty ensures Earned(h, oldest, p) {
      var k :| 0 <= k < |r| && r[k] == p;
      var p0 := b'.parts[k];
      assert p0 in b'.parts;
      if p0.suspect == suspect && !p0.guilty {
        LeftIsEarned(h, oldest, b, suspect, p0, p);
      } else {
        EarnedBySame(h, oldest, p0, p);
      }
    }
  }

  /**
    At the end of the whole run every range was rightly convicted: its lines lie inside changes
    against the version in every parent of the suspect, unless it is marked as a boundary; then
    the suspect has no parents or is the oldest commit to go back to.
  */
  lemma {:induction false} LikeGitEarned(h: History, final: Origin, lo: int, hi: int, b: Board, oldest: Option<nat>)
    requires h.Valid() && Good(h, final, lo, hi, b.parts)
    requires AllEarned(h, oldest, b.parts) && OldestIs(h, oldest, b.oldest)
    ensures forall p :: p in LikeGit(h, final, lo, hi, b).parts ==> Earned(h, oldest, p)
    decreases Debt(h, b.parts)
  {
    hide Good, Investigate, History.Valid, FirstSuspect, Debt, History.Reaches, OldestIs, Earned;
    FirstSuspectIn(b.parts);
    match FirstSuspect(b.parts)
    case None =>
    case Some(suspect) =>
      SuspectReachable(h, final, lo, hi, b.parts);
      InvestigateKeepsGood(h, final, lo, hi, b, suspect);
      InvestigateLowersDebt(h, final, b, suspect);
      InvestigateEarned(h, oldest, b, suspect);
      LikeGitEarned(h, final, lo, hi, Investigate(h, b, suspect), oldest);
  }
}
