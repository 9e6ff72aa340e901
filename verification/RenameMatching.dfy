/**
  Rename detection: matching deleted or modified files (sources) with new ones
  (targets) by similarity. A better match ejects the matches it conflicts with, and
  the whole matching is redone until a pass ejects nothing.
*/
module RenameMatching {

  /** What is left of a diff for the matching: which deltas may be sources and targets, and how alike they are. */
  datatype Problem = Problem(isSource: seq<bool>, isTarget: seq<bool>, measure: (nat, nat) -> int, renameLimit: nat) {
    ghost predicate Valid() {
      |isSource| == |isTarget| && forall s: nat, t: nat :: measure(s, t) <= 0xffff
    }

    /** A pair whose similarity is measured: a source, a target, not the same delta, and comparable. */
    predicate Candidate(s: nat, t: nat) {
      s < |isSource| && t < |isTarget| && isSource[s] && isTarget[t] && s != t && measure(s, t) >= 0
    }

    /** The candidates for `t` among the first `n` deltas. */
    function Tried(t: nat, n: nat): nat {
      if n == 0 then 0 else Tried(t, n - 1) + if Candidate(n - 1, t) then 1 else 0
    }

    /** A pair that a pass looks at: per target, no more than `renameLimit + 1` candidates are looked at. */
    predicate Examined(s: nat, t: nat) {
      Candidate(s, t) && Tried(t, s) <= renameLimit
    }
  }

  datatype Match = Match(idx: nat, similarity: nat)

  const UNMATCHED := Match(0, 0)

  function Count(flags: seq<bool>, n: nat): nat
    requires n <= |flags|
  {
    if n == 0 then 0 else Count(flags, n - 1) + if flags[n - 1] then 1 else 0
  }

  // ---------- matchings ----------

  /** Every match of `a` is a pair looked at, with its similarity, and is recorded in `b` the other way round. */
  ghost predicate Mirrors(a: seq<Match>, b: seq<Match>) {
    forall i {:trigger a[i]} :: 0 <= i < |a| && a[i].similarity > 0 ==>
      a[i].idx < |b| && b[a[i].idx] == Match(i, a[i].similarity)
  }

  ghost predicate IsReal(p: Problem, tgt2src: seq<Match>) {
    forall t {:trigger tgt2src[t]} :: 0 <= t < |tgt2src| && tgt2src[t].similarity > 0 ==>
      p.Examined(tgt2src[t].idx, t) && tgt2src[t].similarity == p.measure(tgt2src[t].idx, t)
  }

  /** The two tables are the two directions of one matching of pairs that were looked at. */
  ghost predicate IsMatching(p: Problem, tgt2src: seq<Match>, src2tgt: seq<Match>) {
    && |tgt2src| == |src2tgt| == |p.isSource|
    && Mirrors(tgt2src, src2tgt) && Mirrors(src2tgt, tgt2src) && IsReal(p, tgt2src)
  }

  /** Source and target are more alike than either is to what it is matched with. */
  predicate Blocking(p: Problem, tgt2src: seq<Match>, src2tgt: seq<Match>, s: nat, t: nat)
    requires s < |src2tgt| && t < |tgt2src|
  {
    tgt2src[t].similarity < p.measure(s, t) && src2tgt[s].similarity < p.measure(s, t)
  }

  /** No pair that was looked at is blocking. */
  ghost predicate Stable(p: Problem, tgt2src: seq<Match>, src2tgt: seq<Match>)
    requires |tgt2src| == |src2tgt| == |p.isSource|
    requires |p.isSource| == |p.isTarget|
  {
    forall s, t :: p.Examined(s, t) ==> !Blocking(p, tgt2src, src2tgt, s, t)
  }

  // ---------- ejecting and rematching makes progress ----------

  function Pow3(n: nat): nat {
    if n == 0 then 1 else 3 * Pow3(n - 1)
  }

  function Weight(m: Match): nat {
    if m.similarity == 0 then 0 else Pow3(m.similarity)
  }

  function Potential(ms: seq<Match>): nat {
    if ms == [] then 0 else Potential(ms[..|ms| - 1]) + Weight(ms[|ms| - 1])
  }

  lemma {:induction false} Pow3Monotone(m: nat, n: nat)
    requires m <= n
    ensures 0 < Pow3(m) <= Pow3(n)
    decreases n
  {
    if m < n {
      Pow3Monotone(m, n - 1);
    } else if n > 0 {
      Pow3Monotone(m - 1, n - 1);
    }
  }

  lemma {:induction false} PotentialUpdate(ms: seq<Match>, i: nat, m: Match)
    requires i < |ms|
    ensures Potential(ms[i := m]) == Potential(ms) - Weight(ms[i]) + Weight(m)
  {
    var last := |ms| - 1;
    if i == last {
      assert ms[i := m][..last] == ms[..last];
    } else {
      assert ms[i := m][..last] == ms[..last][i := m];
      PotentialUpdate(ms[..last], i, m);
    }
  }

  lemma {:induction false} PotentialBound(ms: seq<Match>, top: nat)
    requires forall i :: 0 <= i < |ms| ==> ms[i].similarity <= top
    ensures Potential(ms) <= |ms| * Pow3(top)
  {
    if ms != [] {
      PotentialBound(ms[..|ms| - 1], top);
      Pow3Monotone(ms[|ms| - 1].similarity, top);
      assert |ms| * Pow3(top) == (|ms| - 1) * Pow3(top) + Pow3(top);
    }
  }

  /** The tables after ejecting what `s` and `t` were matched with and matching them with each other. */
  function Eject(ms: seq<Match>, prev: Match): seq<Match>
    requires prev.similarity > 0 ==> prev.idx < |ms|
  {
    if prev.similarity > 0 then ms[prev.idx := ms[prev.idx].(similarity := 0)] else ms
  }

  function Rematched(ms: seq<Match>, prev: Match, i: nat, m: Match): seq<Match>
    requires prev.similarity > 0 ==> prev.idx < |ms|
    requires i < |ms|
  {
    Eject(ms, prev)[i := m]
  }

  lemma RematchKeepsMatching(p: Problem, tgt2src: seq<Match>, src2tgt: seq<Match>, s: nat, t: nat)
    requires IsMatching(p, tgt2src, src2tgt)
    requires p.Valid() && p.Examined(s, t) && Blocking(p, tgt2src, src2tgt, s, t)
    ensures IsMatching(p, Rematched(tgt2src, src2tgt[s], t, Match(s, p.measure(s, t))),
                          Rematched(src2tgt, tgt2src[t], s, Match(t, p.measure(s, t))))
  {
    hide Problem.Examined, Problem.Valid, Problem.Candidate;
    CandidateInRange(p, s, t);
  }

  lemma CandidateInRange(p: Problem, s: nat, t: nat)
    requires p.Valid() && p.Examined(s, t)
    ensures s < |p.isSource| && t < |p.isSource| && s != t && p.measure(s, t) >= 0
  {
  }

  /** Each rematch strictly raises the sum of 3^similarity over the matched targets. */
  lemma RematchRaisesPotential(tgt2src: seq<Match>, src2tgt: seq<Match>, s: nat, t: nat, similarity: nat)
    requires |tgt2src| == |src2tgt| && s < |tgt2src| && t < |tgt2src|
    requires Mirrors(src2tgt, tgt2src)
    requires tgt2src[t].similarity < similarity && src2tgt[s].similarity < similarity
    ensures src2tgt[s].similarity > 0 ==> src2tgt[s].idx < |tgt2src|
    ensures Potential(Rematched(tgt2src, src2tgt[s], t, Match(s, similarity))) > Potential(tgt2src)
  {
    hide Potential, Pow3;
    var prev := src2tgt[s];
    var ejected := Eject(tgt2src, prev);
    if prev.similarity > 0 {
      PotentialUpdate(tgt2src, prev.idx, tgt2src[prev.idx].(similarity := 0));
    }
    PotentialUpdate(ejected, t, Match(s, similarity));
    Pow3Monotone(tgt2src[t].similarity, similarity - 1);
    Pow3Monotone(prev.similarity, similarity - 1);
    Pow3Unfold(similarity);
  }

  lemma Pow3Unfold(n: nat)
    requires n > 0
    ensures Pow3(n) == 3 * Pow3(n - 1)
  {
  }

  // ---------- counting candidates ----------

  lemma {:induction false} TriedMonotone(p: Problem, t: nat, m: nat, n: nat)
    requires m <= n
    ensures p.Tried(t, m) <= p.Tried(t, n)
    decreases n
  {
    hide Problem.Candidate;
    if m < n {
      TriedMonotone(p, t, m, n - 1);
    }
  }

  lemma {:induction false} TriedAreSources(p: Problem, t: nat, n: nat)
    requires n <= |p.isSource|
    ensures p.Tried(t, n) <= Count(p.isSource, n)
  {
    if n > 0 {
      TriedAreSources(p, t, n - 1);
    }
  }

  lemma {:induction false} CountMonotone(flags: seq<bool>, m: nat, n: nat)
    requires m <= n <= |flags|
    ensures Count(flags, m) <= Count(flags, n)
    ensures forall i :: m <= i < n && flags[i] ==> Count(flags, m) < Count(flags, n)
    decreases n
  {
    if m < n {
      CountMonotone(flags, m, n - 1);
    }
  }

  /** When the inner loop stops early, no later source would have been looked at for this target. */
  lemma NothingLeft(p: Problem, t: nat, n: nat)
    requires p.Valid() && n <= |p.isSource|
    requires p.Tried(t, n) >= Count(p.isSource, |p.isSource|) || p.Tried(t, n) > p.renameLimit
    ensures forall s :: s >= n ==> !p.Examined(s, t)
  {
    forall s | s >= n && p.Candidate(s, t)
      ensures !p.Examined(s, t)
    {
      TriedMonotone(p, t, n, s);
      TriedAreSources(p, t, n);
      CountMonotone(p.isSource, n, |p.isSource|);
    }
  }

  // ---------- the loops ----------

  /** Entries only grew, so what was not blocking still is not. */
  ghost predicate Raised(before: seq<Match>, after: seq<Match>) {
    |before| == |after| && forall i :: 0 <= i < |before| ==> before[i].similarity <= after[i].similarity
  }

  /** Tries the pair (`s`, `t`): when it is blocking, ejects and rematches. Returns how many matches were ejected. */
  method TryPair(p: Problem, s: nat, t: nat, similarity: nat, tgt2src: array<Match>, src2tgt: array<Match>)
    returns (ejected: nat)
    requires p.Valid() && p.Examined(s, t) && p.measure(s, t) == similarity
    requires tgt2src != src2tgt && IsMatching(p, tgt2src[..], src2tgt[..])
    requires s < src2tgt.Length && t < tgt2src.Length
    modifies tgt2src, src2tgt
    ensures IsMatching(p, tgt2src[..], src2tgt[..])
    ensures !Blocking(p, tgt2src[..], src2tgt[..], s, t)
    ensures Potential(tgt2src[..]) >= old(Potential(tgt2src[..]))
    ensures ejected > 0 ==> Potential(tgt2src[..]) > old(Potential(tgt2src[..]))
    ensures ejected == 0 ==> Raised(old(tgt2src[..]), tgt2src[..]) && Raised(old(src2tgt[..]), src2tgt[..])
    ensures !old(Blocking(p, tgt2src[..], src2tgt[..], s, t)) ==>
              tgt2src[..] == old(tgt2src[..]) && src2tgt[..] == old(src2tgt[..])
    ensures old(Blocking(p, tgt2src[..], src2tgt[..], s, t)) ==>
              tgt2src[t] == Match(s, similarity) && src2tgt[s] == Match(t, similarity)
  {
    hide IsReal, Potential, Problem.Examined, Problem.Valid;
    ejected := 0;
    ghost var a, b := tgt2src[..], src2tgt[..];
    if tgt2src[t].similarity < similarity && src2tgt[s].similarity < similarity {
      RematchKeepsMatching(p, a, b, s, t);
      RematchRaisesPotential(a, b, s, t, similarity);
      if src2tgt[s].similarity > 0 {
        tgt2src[src2tgt[s].idx] := tgt2src[src2tgt[s].idx].(similarity := 0);
        ejected := ejected + 1;
      }
      if tgt2src[t].similarity > 0 {
        src2tgt[tgt2src[t].idx] := src2tgt[tgt2src[t].idx].(similarity := 0);
        ejected := ejected + 1;
      }
      tgt2src[t] := Match(s, similarity);
      src2tgt[s] := Match(t, similarity);
      assert tgt2src[..] == Rematched(a, b[s], t, Match(s, similarity));
      assert src2tgt[..] == Rematched(b, a[t], s, Match(t, similarity));
    }
  }

  /** No pair for `t` among the first `n` sources that was looked at is blocking. */
  ghost predicate SettledFor(p: Problem, tgt2src: seq<Match>, src2tgt: seq<Match>, t: nat, n: nat)
    requires |tgt2src| == |src2tgt| && t < |tgt2src|
  {
    forall s: nat :: s < n && s < |src2tgt| && p.Examined(s, t) ==> !Blocking(p, tgt2src, src2tgt, s, t)
  }

  lemma RaisedStaysSettled(p: Problem, a: seq<Match>, b: seq<Match>, a': seq<Match>, b': seq<Match>, t: nat, n: nat)
    requires |a| == |b| && t < |a| && SettledFor(p, a, b, t, n)
    requires Raised(a, a') && Raised(b, b')
    ensures SettledFor(p, a', b', t, n)
  {
    hide Problem.Examined;
  }

  /** A best copy among the first `n` sources that were looked at. */
  ghost predicate BestCopyUpTo(p: Problem, copy: Match, t: nat, n: nat) {
    && (forall s: nat :: s < n && p.Examined(s, t) ==> p.measure(s, t) <= copy.similarity)
    && (copy.similarity > 0 ==> p.Examined(copy.idx, t) && p.measure(copy.idx, t) == copy.similarity)
  }

  lemma RaisedRefl(a: seq<Match>)
    ensures Raised(a, a)
  {
  }

  lemma RaisedTrans(a: seq<Match>, b: seq<Match>, c: seq<Match>)
    requires Raised(a, b) && Raised(b, c)
    ensures Raised(a, c)
  {
  }

  lemma TriedNone(p: Problem, t: nat)
    ensures p.Tried(t, 0) == 0
  {
  }

  lemma SettledNone(p: Problem, a: seq<Match>, b: seq<Match>, t: nat)
    requires |a| == |b| && t < |a|
    ensures SettledFor(p, a, b, t, 0)
  {
  }

  lemma SettledNext(p: Problem, a: seq<Match>, b: seq<Match>, t: nat, n: nat)
    requires |a| == |b| && t < |a| && SettledFor(p, a, b, t, n)
    requires n < |b| && p.Examined(n, t) ==> !Blocking(p, a, b, n, t)
    ensures SettledFor(p, a, b, t, n + 1)
  {
    hide Problem.Examined;
  }

  // Nothing later is looked at, so settled so far is settled altogether.
  lemma SettledAll(p: Problem, a: seq<Match>, b: seq<Match>, t: nat, n: nat, all: nat)
    requires |a| == |b| && t < |a| && SettledFor(p, a, b, t, n)
    requires forall s :: n <= s < all ==> !p.Examined(s, t)
    ensures SettledFor(p, a, b, t, all)
  {
  }

  lemma BestCopyNext(p: Problem, copy: Match, t: nat, n: nat)
    requires BestCopyUpTo(p, copy, t, n)
    ensures !p.Examined(n, t) || p.measure(n, t) <= copy.similarity ==> BestCopyUpTo(p, copy, t, n + 1)
    ensures p.Examined(n, t) && copy.similarity < p.measure(n, t) ==>
              BestCopyUpTo(p, Match(n, p.measure(n, t)), t, n + 1)
  {
    hide Problem.Examined;
  }

  lemma BestCopyAll(p: Problem, copy: Match, t: nat, n: nat, all: nat)
    requires BestCopyUpTo(p, copy, t, n)
    requires forall s :: n <= s < all ==> !p.Examined(s, t)
    ensures BestCopyUpTo(p, copy, t, all)
  {
  }

  /** The inner loop: tries the sources in turn for one target. */
  method MatchTarget(p: Problem, t: nat, numSrcs: nat, tgt2src: array<Match>, src2tgt: array<Match>, copies: array?<Match>)
    returns (ejected: nat)
    requires p.Valid() && t < |p.isTarget| && p.isTarget[t] && numSrcs == Count(p.isSource, |p.isSource|)
    requires tgt2src.Length == src2tgt.Length == |p.isSource|
    requires tgt2src != src2tgt && IsMatching(p, tgt2src[..], src2tgt[..])
    requires copies != null ==> copies != tgt2src && copies != src2tgt && copies.Length == |p.isTarget|
    requires copies != null ==> BestCopyUpTo(p, copies[t], t, 0)
    modifies tgt2src, src2tgt
    modifies if copies == null then {} else {copies}
    ensures IsMatching(p, tgt2src[..], src2tgt[..])
    ensures Potential(tgt2src[..]) >= old(Potential(tgt2src[..]))
    ensures ejected > 0 ==> Potential(tgt2src[..]) > old(Potential(tgt2src[..]))
    ensures ejected == 0 ==> Raised(old(tgt2src[..]), tgt2src[..]) && Raised(old(src2tgt[..]), src2tgt[..])
    ensures ejected == 0 ==> SettledFor(p, tgt2src[..], src2tgt[..], t, |p.isSource|)
    ensures copies != null ==> BestCopyUpTo(p, copies[t], t, |p.isSource|)
    ensures copies != null ==> forall i :: 0 <= i < copies.Length && i != t ==> copies[i] == old(copies[i])
  {
    hide Potential, Problem.Examined, Problem.Candidate, Problem.Tried, IsMatching, Blocking, SettledFor, BestCopyUpTo, Raised, Count;
    ghost var size := |p.isSource|;
    var tried := 0;
    var s: nat := 0;
    ghost var seen: nat := 0;
    ejected := 0;
    RaisedRefl(tgt2src[..]);
    RaisedRefl(src2tgt[..]);
    TriedNone(p, t);
    SettledNone(p, tgt2src[..], src2tgt[..], t);
    while s < |p.isSource|
      invariant s <= size && seen == s && tried == p.Tried(t, s) <= p.renameLimit
      invariant IsMatching(p, tgt2src[..], src2tgt[..])
      invariant Potential(tgt2src[..]) >= old(Potential(tgt2src[..]))
      invariant ejected > 0 ==> Potential(tgt2src[..]) > old(Potential(tgt2src[..]))
      invariant ejected == 0 ==> Raised(old(tgt2src[..]), tgt2src[..]) && Raised(old(src2tgt[..]), src2tgt[..])
      invariant ejected == 0 ==> SettledFor(p, tgt2src[..], src2tgt[..], t, seen)
      invariant copies != null ==> BestCopyUpTo(p, copies[t], t, seen)
      invariant copies != null ==> forall i :: 0 <= i < copies.Length && i != t ==> copies[i] == old(copies[i])
    {
      Look(p, s, t);
      if p.isSource[s] {
        var result := if s == t then -1 else p.measure(s, t);
        if result >= 0 {
          ghost var a, b := tgt2src[..], src2tgt[..];
          var n := TryPair(p, s, t, result, tgt2src, src2tgt);
          ejected := ejected + n;
          if ejected == 0 {
            RaisedTrans(old(tgt2src[..]), a, tgt2src[..]);
            RaisedTrans(old(src2tgt[..]), b, src2tgt[..]);
            RaisedStaysSettled(p, a, b, tgt2src[..], src2tgt[..], t, s);
            SettledNext(p, tgt2src[..], src2tgt[..], t, s);
          }
          if copies != null {
            BestCopyNext(p, copies[t], t, s);
            if copies[t].similarity < result {
              copies[t] := Match(s, result);
            }
          }
          tried := tried + 1;
          seen := s + 1;
          if tried >= numSrcs || tried > p.renameLimit {
            NothingLeft(p, t, seen);
            break;
          }
        }
      }
      if seen == s {
        if ejected == 0 {
          SettledNext(p, tgt2src[..], src2tgt[..], t, s);
        }
        if copies != null {
          BestCopyNext(p, copies[t], t, s);
        }
      }
      s := s + 1;
      seen := s;
    }
    if ejected == 0 {
      SettledAll(p, tgt2src[..], src2tgt[..], t, seen, size);
    }
    if copies != null {
      BestCopyAll(p, copies[t], t, seen, size);
    }
  }

  // What the guards of the inner loop decide about the pair (s, t).
  lemma Look(p: Problem, s: nat, t: nat)
    requires p.Valid() && s < |p.isSource| && t < |p.isTarget| && p.isTarget[t]
    ensures p.Candidate(s, t) <==> p.isSource[s] && s != t && p.measure(s, t) >= 0
    ensures p.Tried(t, s + 1) == p.Tried(t, s) + if p.Candidate(s, t) then 1 else 0
    ensures p.Examined(s, t) <==> p.Candidate(s, t) && p.Tried(t, s) <= p.renameLimit
  {
  }

  /** No pair for one of the first `n` targets that was looked at is blocking. */
  ghost predicate SettledTargets(p: Problem, tgt2src: seq<Match>, src2tgt: seq<Match>, n: nat)
    requires |tgt2src| == |src2tgt|
  {
    forall t: nat :: t < n && t < |tgt2src| && t < |p.isTarget| && p.isTarget[t] ==>
      SettledFor(p, tgt2src, src2tgt, t, |p.isSource|)
  }

  lemma RaisedStaysSettledTargets(p: Problem, a: seq<Match>, b: seq<Match>, a': seq<Match>, b': seq<Match>, n: nat)
    requires |a| == |b| && SettledTargets(p, a, b, n) && Raised(a, a') && Raised(b, b')
    ensures SettledTargets(p, a', b', n)
  {
    hide SettledFor;
    forall t: nat | t < n && t < |a'| && t < |p.isTarget| && p.isTarget[t]
      ensures SettledFor(p, a', b', t, |p.isSource|)
    {
      RaisedStaysSettled(p, a, b, a', b', t, |p.isSource|);
    }
  }

  lemma SettledTargetsNext(p: Problem, a: seq<Match>, b: seq<Match>, t: nat)
    requires |a| == |b| && SettledTargets(p, a, b, t)
    requires t < |a| && t < |p.isTarget| && p.isTarget[t] ==> SettledFor(p, a, b, t, |p.isSource|)
    ensures SettledTargets(p, a, b, t + 1)
  {
    hide SettledFor;
  }

  lemma SettledTargetsAll(p: Problem, a: seq<Match>, b: seq<Match>, n: nat, all: nat)
    requires |a| == |b| && SettledTargets(p, a, b, n) && n <= all <= |p.isTarget|
    requires forall t :: n <= t < all ==> !p.isTarget[t]
    ensures SettledTargets(p, a, b, all)
  {
    hide SettledFor;
  }

  lemma SettledTargetsNone(p: Problem, a: seq<Match>, b: seq<Match>)
    requires |a| == |b|
    ensures SettledTargets(p, a, b, 0)
  {
  }

  /** Every copy entry is sound, and best among the sources looked at for the first `n` targets. */
  ghost predicate CopiesUpTo(p: Problem, copies: seq<Match>, n: nat) {
    forall t: nat :: t < |copies| && t < |p.isTarget| && p.isTarget[t] ==>
      BestCopyUpTo(p, copies[t], t, if t < n then |p.isSource| else 0)
  }

  lemma CopiesNext(p: Problem, a: seq<Match>, b: seq<Match>, t: nat)
    requires CopiesUpTo(p, a, t) && |a| == |b| && t < |a| && t < |p.isTarget|
    requires forall i :: 0 <= i < |a| && i != t ==> a[i] == b[i]
    requires p.isTarget[t] ==> BestCopyUpTo(p, b[t], t, |p.isSource|)
    ensures CopiesUpTo(p, b, t + 1)
  {
    hide BestCopyUpTo;
  }

  lemma CopiesAll(p: Problem, a: seq<Match>, n: nat, all: nat)
    requires CopiesUpTo(p, a, n) && n <= all <= |p.isTarget|
    requires forall t :: n <= t < all ==> !p.isTarget[t]
    ensures CopiesUpTo(p, a, all)
  {
    hide BestCopyUpTo;
  }

  lemma CopyAt(p: Problem, a: seq<Match>, n: nat, t: nat)
    requires CopiesUpTo(p, a, n) && t < |a| && t < |p.isTarget| && p.isTarget[t]
    ensures BestCopyUpTo(p, a[t], t, 0)
  {
  }

  // A pass may start over with copy entries that are already best.
  lemma CopiesRestart(p: Problem, a: seq<Match>, n: nat)
    requires CopiesUpTo(p, a, n)
    ensures CopiesUpTo(p, a, 0)
  {
  }

  lemma NoTargetLeft(flags: seq<bool>, n: nat)
    requires n <= |flags| && Count(flags, n) >= Count(flags, |flags|)
    ensures forall t :: n <= t < |flags| ==> !flags[t]
  {
    CountMonotone(flags, n, |flags|);
  }

  lemma CountNext(flags: seq<bool>, n: nat)
    requires n < |flags|
    ensures Count(flags, n + 1) == Count(flags, n) + if flags[n] then 1 else 0
  {
  }

  /** One pass over all targets; returns how many matches were ejected. */
  method OnePass(p: Problem, numSrcs: nat, numTgts: nat, tgt2src: array<Match>, src2tgt: array<Match>, copies: array?<Match>)
    returns (bumped: nat)
    requires p.Valid() && numSrcs == Count(p.isSource, |p.isSource|) && numTgts == Count(p.isTarget, |p.isTarget|)
    requires tgt2src.Length == src2tgt.Length == |p.isSource| == |p.isTarget|
    requires tgt2src != src2tgt && IsMatching(p, tgt2src[..], src2tgt[..])
    requires copies != null ==> copies != tgt2src && copies != src2tgt && copies.Length == |p.isTarget|
    requires copies != null ==> CopiesUpTo(p, copies[..], 0)
    modifies tgt2src, src2tgt
    modifies if copies == null then {} else {copies}
    ensures IsMatching(p, tgt2src[..], src2tgt[..])
    ensures bumped > 0 ==> Potential(tgt2src[..]) > old(Potential(tgt2src[..]))
    ensures bumped == 0 ==> SettledTargets(p, tgt2src[..], src2tgt[..], |p.isTarget|)
    ensures copies != null ==> CopiesUpTo(p, copies[..], |p.isTarget|)
  {
    hide Potential, Problem.Examined, Problem.Valid, IsMatching, SettledTargets, SettledFor, CopiesUpTo, BestCopyUpTo, Raised, Count;
    var tried: nat := 0;
    var t: nat := 0;
    bumped := 0;
    SettledTargetsNone(p, tgt2src[..], src2tgt[..]);
    CountNone(p.isTarget);
    while t < |p.isTarget|
      invariant t <= |p.isTarget| && tried == Count(p.isTarget, t)
      invariant IsMatching(p, tgt2src[..], src2tgt[..])
      invariant Potential(tgt2src[..]) >= old(Potential(tgt2src[..]))
      invariant bumped > 0 ==> Potential(tgt2src[..]) > old(Potential(tgt2src[..]))
      invariant bumped == 0 ==> SettledTargets(p, tgt2src[..], src2tgt[..], t)
      invariant copies != null ==> CopiesUpTo(p, copies[..], t)
    {
      ghost var a, b := tgt2src[..], src2tgt[..];
      ghost var c := if copies == null then [] else copies[..];
      CountNext(p.isTarget, t);
      if p.isTarget[t] {
        if copies != null {
          CopyAt(p, c, t, t);
        }
        var n := MatchTarget(p, t, numSrcs, tgt2src, src2tgt, copies);
        bumped := bumped + n;
        tried := tried + 1;
        if bumped == 0 {
          RaisedStaysSettledTargets(p, a, b, tgt2src[..], src2tgt[..], t);
        }
      }
      if bumped == 0 {
        SettledTargetsNext(p, tgt2src[..], src2tgt[..], t);
      }
      if copies != null {
        CopiesNext(p, c, copies[..], t);
      }
      t := t + 1;
      if p.isTarget[t - 1] && tried >= numTgts {
        NoTargetLeft(p.isTarget, t);
        break;
      }
    }
    if bumped == 0 {
      SettledTargetsAll(p, tgt2src[..], src2tgt[..], t, |p.isTarget|);
    }
    if copies != null {
      CopiesAll(p, copies[..], t, |p.isTarget|);
    }
  }

  lemma CountNone(flags: seq<bool>)
    ensures Count(flags, 0) == 0
  {
  }

  /** The result of the matching: a stable matching of what was looked at, and for copies a best source each. */
  method FindBestMatches(p: Problem, findCopies: bool) returns (tgt2src: array<Match>, src2tgt: array<Match>, copies: array?<Match>)
    requires p.Valid()
    ensures IsMatching(p, tgt2src[..], src2tgt[..]) && Stable(p, tgt2src[..], src2tgt[..])
    ensures copies != null <==> findCopies
    ensures copies != null ==> copies.Length == |p.isTarget| && CopiesUpTo(p, copies[..], |p.isTarget|)
  {
    hide Potential, Problem.Examined, Problem.Candidate, IsMatching, SettledTargets, CopiesUpTo, Count, Stable;
    var n := |p.isSource|;
    var numSrcs, numTgts := 0, 0;
    CountNone(p.isSource);
    CountNone(p.isTarget);
    for i := 0 to n
      invariant numSrcs == Count(p.isSource, i) && numTgts == Count(p.isTarget, i)
    {
      CountNext(p.isSource, i);
      CountNext(p.isTarget, i);
      if p.isSource[i] {
        numSrcs := numSrcs + 1;
      }
      if p.isTarget[i] {
        numTgts := numTgts + 1;
      }
    }
    src2tgt := new Match[n](_ => UNMATCHED);
    tgt2src := new Match[n](_ => UNMATCHED);
    copies := null;
    if findCopies {
      copies := new Match[n](_ => UNMATCHED);
      NoCopies(p, copies[..]);
    }
    NothingMatched(p, tgt2src[..], src2tgt[..]);
    if numSrcs == 0 || numTgts == 0 {
      NothingToMatch(p, tgt2src[..], src2tgt[..], copies);
      return;
    }
    while true
      invariant IsMatching(p, tgt2src[..], src2tgt[..])
      invariant copies != null ==> CopiesUpTo(p, copies[..], 0)
      decreases n * Pow3(0xffff) - Potential(tgt2src[..])
    {
      MatchingBound(p, tgt2src[..], src2tgt[..]);
      var bumped := OnePass(p, numSrcs, numTgts, tgt2src, src2tgt, copies);
      MatchingBound(p, tgt2src[..], src2tgt[..]);
      if bumped == 0 {
        SettledIsStable(p, tgt2src[..], src2tgt[..]);
        return;
      }
      if copies != null {
        CopiesRestart(p, copies[..], n);
      }
    }
  }

  lemma NothingToMatch(p: Problem, a: seq<Match>, b: seq<Match>, copies: array?<Match>)
    requires p.Valid() && |a| == |b| == |p.isSource|
    requires Count(p.isSource, |p.isSource|) == 0 || Count(p.isTarget, |p.isTarget|) == 0
    requires copies != null ==> CopiesUpTo(p, copies[..], 0)
    ensures Stable(p, a, b)
    ensures copies != null ==> CopiesUpTo(p, copies[..], |p.isTarget|)
  {
    CountMonotone(p.isSource, 0, |p.isSource|);
    CountMonotone(p.isTarget, 0, |p.isTarget|);
  }

  lemma NothingMatched(p: Problem, a: seq<Match>, b: seq<Match>)
    requires p.Valid() && |a| == |b| == |p.isSource|
    requires forall i :: 0 <= i < |a| ==> a[i] == b[i] == UNMATCHED
    ensures IsMatching(p, a, b)
  {
  }

  lemma NoCopies(p: Problem, a: seq<Match>)
    requires forall i :: 0 <= i < |a| ==> a[i] == UNMATCHED
    ensures CopiesUpTo(p, a, 0)
  {
  }

  lemma MatchingBound(p: Problem, a: seq<Match>, b: seq<Match>)
    requires p.Valid() && IsMatching(p, a, b)
    ensures Potential(a) <= |a| * Pow3(0xffff)
  {
    hide Problem.Examined, Pow3;
    forall i | 0 <= i < |a| ensures a[i].similarity <= 0xffff {
      if a[i].similarity > 0 {
        assert a[i].similarity == p.measure(a[i].idx, i);
      }
    }
    PotentialBound(a, 0xffff);
  }

  lemma SettledIsStable(p: Problem, a: seq<Match>, b: seq<Match>)
    requires p.Valid() && |a| == |b| == |p.isSource| && SettledTargets(p, a, b, |p.isTarget|)
    ensures Stable(p, a, b)
  {
    forall s, t | p.Examined(s, t)
      ensures !Blocking(p, a, b, s, t)
    {
      assert SettledFor(p, a, b, t, |p.isSource|);
    }
  }

  // ---------- what stability means ----------

  /** With no more candidates than the limit allows, every comparable pair is looked at. */
  lemma AllExamined(p: Problem, s: nat, t: nat)
    requires p.Valid() && Count(p.isSource, |p.isSource|) <= p.renameLimit + 1 && p.Candidate(s, t)
    ensures p.Examined(s, t)
  {
    TriedAreSources(p, t, s + 1);
    CountMonotone(p.isSource, s + 1, |p.isSource|);
    Look(p, s, t);
  }

  /** Different pairs that were looked at are never equally similar, unless not similar at all. */
  ghost predicate Distinct(p: Problem) {
    forall s, t, s', t' :: p.Examined(s, t) && p.Examined(s', t') && p.measure(s, t) == p.measure(s', t') > 0 ==>
      s == s' && t == t'
  }

  /** When similarities are distinct, there is one stable matching: the order of the deltas does not matter. */
  lemma StableIsUnique(p: Problem, a: seq<Match>, b: seq<Match>, a': seq<Match>, b': seq<Match>)
    requires p.Valid() && Distinct(p)
    requires IsMatching(p, a, b) && Stable(p, a, b) && IsMatching(p, a', b') && Stable(p, a', b')
    ensures forall t :: 0 <= t < |a| && a[t].similarity > 0 ==> a'[t] == a[t]
    ensures forall t :: 0 <= t < |a| && a[t].similarity == 0 ==> a'[t].similarity == 0
  {
    forall t | 0 <= t < |a| && a[t].similarity > 0 ensures a'[t] == a[t] {
      MatchedInBoth(p, a, b, a', b', t);
    }
    forall t | 0 <= t < |a| && a'[t].similarity > 0 ensures a'[t] == a[t] {
      MatchedInBoth(p, a', b', a, b, t);
    }
  }

  // By going down the similarities: a match of one matching is a match of the other.
  lemma {:induction false} MatchedInBoth(p: Problem, a: seq<Match>, b: seq<Match>, a': seq<Match>, b': seq<Match>, t: nat)
    requires p.Valid() && Distinct(p)
    requires IsMatching(p, a, b) && Stable(p, a, b) && IsMatching(p, a', b') && Stable(p, a', b')
    requires t < |a| && a[t].similarity > 0
    ensures a'[t] == a[t]
    decreases 0xffff - a[t].similarity
  {
    hide Problem.Examined;
    var s, k := a[t].idx, a[t].similarity;
    assert !Blocking(p, a', b', s, t);
    assert b[s] == Match(t, k);
    assert k == p.measure(s, t);
    if a'[t].similarity >= k {
      var s' := a'[t].idx;
      if a'[t].similarity > k {
        assert a'[t].similarity == p.measure(s', t);
        MatchedInBoth(p, a', b', a, b, t);
      }
    } else {
      var t' := b'[s].idx;
      assert a'[t'] == Match(s, b'[s].similarity);
      if b'[s].similarity > k {
        assert a'[t'].similarity == p.measure(s, t');
        MatchedInBoth(p, a', b', a, b, t');
      }
    }
  }
}
