/**
  Searching a bucket for the longest match: a definition that looks at every block
  with the right hash, and the loop, which stops as soon as no later block can win.
*/
module DeltaSearch {
  import opened Bytes
  import opened RabinHash
  import opened DeltaBlocks
  import opened DeltaIndexing

  // A match of this size ends the search.
  const GOOD_ENOUGH := 4096

  /** `size` bytes of the source from `off` on that occur at the current target position. */
  datatype Match = Match(off: nat, size: nat)

  /** How many bytes agree between the source from `p` on and the target from `q` on. */
  function Common(src: seq<byte>, p: nat, trg: seq<byte>, q: nat): (n: nat)
    requires p <= |src| && q <= |trg|
    ensures p + n <= |src| && q + n <= |trg|
    decreases |src| - p
  {
    if p < |src| && q < |trg| && src[p] == trg[q] then 1 + Common(src, p + 1, trg, q + 1) else 0
  }

  /** The common stretch is equal, and cannot be extended. */
  lemma {:induction false} CommonIsMaximal(src: seq<byte>, p: nat, trg: seq<byte>, q: nat)
    requires p <= |src| && q <= |trg|
    ensures var n := Common(src, p, trg, q);
            && src[p..p + n] == trg[q..q + n]
            && (p + n == |src| || q + n == |trg| || src[p + n] != trg[q + n])
    decreases |src| - p
  {
    if p < |src| && q < |trg| && src[p] == trg[q] {
      var n := Common(src, p + 1, trg, q + 1);
      CommonIsMaximal(src, p + 1, trg, q + 1);
      assert src[p..p + 1 + n] == [src[p]] + src[p + 1..p + 1 + n];
      assert trg[q..q + 1 + n] == [trg[q]] + trg[q + 1..q + 1 + n];
    }
  }

  ghost predicate Inside(src: seq<byte>, bs: seq<Block>) {
    forall x :: x in bs ==> x.ptr < |src|
  }

  /** The best match among `bs` and `m`: the first of the longest, or the first that is good enough. */
  ghost function Best(src: seq<byte>, trg: seq<byte>, data: nat, val: hash, bs: seq<Block>, m: Match): Match
    requires data <= |trg| && Inside(src, bs)
  {
    if bs == [] then m
    else
      var n := if bs[0].val == val then Common(src, bs[0].ptr, trg, data) else 0;
      if n <= m.size then Best(src, trg, data, val, bs[1..], m)
      else if n >= GOOD_ENOUGH then Match(bs[0].ptr, n)
      else Best(src, trg, data, val, bs[1..], Match(bs[0].ptr, n))
  }

  /** The search ends with a match that is good enough, or at least as long as every candidate. */
  lemma {:induction false} BestIsLongest(src: seq<byte>, trg: seq<byte>, data: nat, val: hash, bs: seq<Block>, m: Match)
    requires data <= |trg| && Inside(src, bs)
    ensures var r := Best(src, trg, data, val, bs, m);
            && r.size >= m.size
            && (r.size >= GOOD_ENOUGH || forall x :: x in bs && x.val == val ==> Common(src, x.ptr, trg, data) <= r.size)
            && (r == m || exists x :: x in bs && x.val == val && r == Match(x.ptr, Common(src, x.ptr, trg, data)))
  {
    hide Common;
    if bs != [] {
      var n := if bs[0].val == val then Common(src, bs[0].ptr, trg, data) else 0;
      assert bs == [bs[0]] + bs[1..];
      if n <= m.size {
        BestIsLongest(src, trg, data, val, bs[1..], m);
      } else if n < GOOD_ENOUGH {
        BestIsLongest(src, trg, data, val, bs[1..], Match(bs[0].ptr, n));
      }
    }
  }

  // How much of the target a block gives: nothing if its hash is another one.
  ghost function Gain(src: seq<byte>, trg: seq<byte>, data: nat, val: hash, x: Block): nat
    requires data <= |trg| && x.ptr < |src|
  {
    if x.val == val then Common(src, x.ptr, trg, data) else 0
  }

  /** Block `k` is the first that gives `n` bytes: more than any before it, none of which gave 4096. */
  ghost predicate IsFirst(src: seq<byte>, trg: seq<byte>, data: nat, val: hash, bs: seq<Block>, k: nat, n: nat)
    requires data <= |trg| && Inside(src, bs) && k < |bs|
  {
    && n == Gain(src, trg, data, val, bs[k]) && bs[k].val == val
    && forall j :: 0 <= j < k ==> Gain(src, trg, data, val, bs[j]) < n && Gain(src, trg, data, val, bs[j]) < 4096
  }

  /** Which match it is: the one in hand, or the first of the longest, or the first of 4096 bytes or more. */
  lemma {:induction false} BestIsFirst(src: seq<byte>, trg: seq<byte>, data: nat, val: hash, bs: seq<Block>, m: Match)
    requires data <= |trg| && Inside(src, bs) && m.size < 4096
    ensures
      var r := Best(src, trg, data, val, bs, m);
      || (r == m && forall j :: 0 <= j < |bs| ==> Gain(src, trg, data, val, bs[j]) <= m.size)
      || exists k: nat ::
           && k < |bs| && IsFirst(src, trg, data, val, bs, k, r.size) && r.off == bs[k].ptr && r.size > m.size
           && (r.size >= 4096 || forall j :: 0 <= j < |bs| ==> Gain(src, trg, data, val, bs[j]) <= r.size)
  {
    hide Common;
    if bs != [] {
      var n := Gain(src, trg, data, val, bs[0]);
      var rest := bs[1..];
      assert Inside(src, rest);
      assert forall j :: 0 <= j < |rest| ==> rest[j] == bs[j + 1];
      hide Gain;
      var r := Best(src, trg, data, val, bs, m);
      if n <= m.size {
        BestIsFirst(src, trg, data, val, rest, m);
        FirstBehind(src, trg, data, val, bs, r, m.size);
      } else if n >= GOOD_ENOUGH {
        assert IsFirst(src, trg, data, val, bs, 0, r.size);
      } else {
        BestIsFirst(src, trg, data, val, rest, Match(bs[0].ptr, n));
        if r == Match(bs[0].ptr, n) && forall j :: 0 <= j < |rest| ==> Gain(src, trg, data, val, rest[j]) <= n {
          assert IsFirst(src, trg, data, val, bs, 0, n);
          assert forall j :: 0 <= j < |bs| ==> j == 0 || bs[j] == rest[j - 1];
        } else {
          FirstBehind(src, trg, data, val, bs, r, n);
        }
      }
    }
  }

  // What is first among the rest is first of all if the head gives less.
  lemma FirstBehind(src: seq<byte>, trg: seq<byte>, data: nat, val: hash, bs: seq<Block>, r: Match, size: nat)
    requires data <= |trg| && Inside(src, bs) && bs != [] && Inside(src, bs[1..])
    requires Gain(src, trg, data, val, bs[0]) <= size < 4096
    ensures
      (exists k: nat ::
         && k < |bs[1..]| && IsFirst(src, trg, data, val, bs[1..], k, r.size) && r.off == bs[1..][k].ptr && r.size > size
         && (r.size >= 4096 || forall j :: 0 <= j < |bs[1..]| ==> Gain(src, trg, data, val, bs[1..][j]) <= r.size))
      ==>
      exists k: nat ::
        && k < |bs| && IsFirst(src, trg, data, val, bs, k, r.size) && r.off == bs[k].ptr && r.size > size
        && (r.size >= 4096 || forall j :: 0 <= j < |bs| ==> Gain(src, trg, data, val, bs[j]) <= r.size)
  {
    hide Gain;
    var rest := bs[1..];
    if k: nat :|
      && k < |rest| && IsFirst(src, trg, data, val, rest, k, r.size) && r.off == rest[k].ptr && r.size > size
      && (r.size >= 4096 || forall j :: 0 <= j < |rest| ==> Gain(src, trg, data, val, rest[j]) <= r.size)
    {
      assert forall j :: 0 <= j < |bs| ==> j == 0 || bs[j] == rest[j - 1];
      assert IsFirst(src, trg, data, val, bs, k + 1, r.size);
    }
  }

  /** Once the room behind a block is no larger than the match in hand, no later block of the bucket matters. */
  lemma {:induction false} BestStops(src: seq<byte>, trg: seq<byte>, data: nat, val: hash, bs: seq<Block>, m: Match)
    requires data <= |trg| && Inside(src, bs) && Ascending(bs)
    requires bs != [] ==> |src| - bs[0].ptr <= m.size || |trg| - data <= m.size
    ensures Best(src, trg, data, val, bs, m) == m
  {
    hide Common;
    if bs != [] {
      BestStops(src, trg, data, val, bs[1..], m);
    }
  }

  method CommonLength(src: seq<byte>, p: nat, trg: seq<byte>, q: nat) returns (n: nat)
    requires p <= |src| && q <= |trg|
    ensures n == Common(src, p, trg, q)
  {
    n := 0;
    var room := if |src| - p > |trg| - q then |trg| - q else |src| - p;
    while room > 0 && src[p + n] == trg[q + n]
      invariant room >= 0
      invariant room + n == if |src| - p > |trg| - q then |trg| - q else |src| - p
      invariant Common(src, p, trg, q) == n + Common(src, p + n, trg, q + n)
      decreases room
    {
      n := n + 1;
      room := room - 1;
    }
  }

  /** The search loop: walks the bucket of `val` and finds what looking at every block would find. */
  method FindMatch(ix: DeltaIndex, trg: seq<byte>, data: nat, val: hash, start: Match) returns (m: Match)
    requires ix.Valid() && data <= |trg|
    ensures Inside(ix.src, BucketList(ix.src, Bucket(val, ix.heads.Length), ix.heads.Length))
    ensures m == Best(ix.src, trg, data, val, BucketList(ix.src, Bucket(val, ix.heads.Length), ix.heads.Length), start)
  {
    hide Bucket, Common, BucketList, Best, Ascending, Inside, View, ChainsAre;
    var src, hsize := ix.src, ix.heads.Length;
    var i := Bucket(val, hsize);
    var entry := ix.heads[i];
    ghost var es, all := ix.entries[..ix.used], BucketList(src, i, hsize);
    BucketOfIndex(ix, i);
    m := start;
    while entry != NONE
      invariant Linked(es) && NONE <= entry < |es|
      invariant Ascending(View(es, entry)) && Inside(src, View(es, entry))
      invariant Best(src, trg, data, val, View(es, entry), m) == Best(src, trg, data, val, all, start)
      decreases entry
    {
      var e := ix.entries[entry];
      ViewUnfold(src, es, entry);
      BestUnfold(src, trg, data, val, View(es, entry), m);
      if e.val == val {
        var room := if |src| - e.ptr > |trg| - data then |trg| - data else |src| - e.ptr;
        if room <= m.size {
          BestStops(src, trg, data, val, View(es, entry), m);
          return;
        }
        var n := CommonLength(src, e.ptr, trg, data);
        if m.size < n {
          m := Match(e.ptr, n);
          if m.size >= GOOD_ENOUGH {
            return;
          }
        }
      }
      entry := e.next;
    }
    BestEmpty(src, trg, data, val, es, m);
  }

  lemma BucketOfIndex(ix: DeltaIndex, i: nat)
    requires ix.Valid() && i < ix.heads.Length
    ensures var es := ix.entries[..ix.used];
            && Linked(es) && NONE <= ix.heads[i] < |es|
            && View(es, ix.heads[i]) == BucketList(ix.src, i, ix.heads.Length)
    ensures Ascending(BucketList(ix.src, i, ix.heads.Length)) && Inside(ix.src, BucketList(ix.src, i, ix.heads.Length))
  {
    hide Select, Blocks, Cull, View, Hash, Bucket;
    BucketListIsSound(ix.src, i, ix.heads.Length);
  }

  lemma ViewUnfold(src: seq<byte>, es: seq<IndexEntry>, entry: int)
    requires Linked(es) && 0 <= entry < |es|
    requires Ascending(View(es, entry)) && Inside(src, View(es, entry))
    ensures var v, rest := View(es, entry), View(es, es[entry].next);
            && v != [] && v[0] == BlockOf(es[entry]) && v[1..] == rest
            && Ascending(rest) && Inside(src, rest) && es[entry].ptr < |src|
  {
    var v, rest := View(es, entry), View(es, es[entry].next);
    assert v == [BlockOf(es[entry])] + rest;
    hide View;
    assert v[0] in v;
    assert forall k :: 0 <= k < |rest| ==> rest[k] == v[k + 1];
  }

  lemma BestUnfold(src: seq<byte>, trg: seq<byte>, data: nat, val: hash, bs: seq<Block>, m: Match)
    requires data <= |trg| && Inside(src, bs) && bs != []
    ensures bs[0].ptr < |src| && Inside(src, bs[1..])
    ensures
      var n := if bs[0].val == val then Common(src, bs[0].ptr, trg, data) else 0;
      Best(src, trg, data, val, bs, m)
      == if n <= m.size then Best(src, trg, data, val, bs[1..], m)
         else if n >= GOOD_ENOUGH then Match(bs[0].ptr, n)
         else Best(src, trg, data, val, bs[1..], Match(bs[0].ptr, n))
  {
    hide Common;
  }

  lemma BestEmpty(src: seq<byte>, trg: seq<byte>, data: nat, val: hash, es: seq<IndexEntry>, m: Match)
    requires data <= |trg| && Linked(es)
    ensures Inside(src, View(es, NONE)) && Best(src, trg, data, val, View(es, NONE), m) == m
  {
  }
}
