/**
  The delta index as it is built: an array of entries linked into bucket chains
  through `next`, populated from the end of the source towards its beginning and
  then culled in place.
*/
module DeltaIndexing {
  import opened Bytes
  import opened RabinHash
  import opened DeltaBlocks

  /** An entry of the index. Entries live in one array, so a link is an index into it; -1 is no entry. */
  datatype IndexEntry = IndexEntry(ptr: nat, val: hash, next: int)

  const NONE := -1

  // The initial value of `prev_val`, which no hash equals.
  const NO_HASH: bv32 := 0xffff_ffff

  // ---------- chains ----------

  /** Links point to earlier entries, so every chain ends. */
  ghost predicate Linked(es: seq<IndexEntry>) {
    forall k :: 0 <= k < |es| ==> NONE <= es[k].next < k
  }

  function BlockOf(e: IndexEntry): Block {
    Block(e.ptr, e.val)
  }

  /** The blocks on the chain from `h` on. */
  ghost function View(es: seq<IndexEntry>, h: int): seq<Block>
    requires Linked(es) && NONE <= h < |es|
    decreases h + 1
  {
    if h == NONE then [] else [BlockOf(es[h])] + View(es, es[h].next)
  }

  lemma {:induction false} ViewFrame(es: seq<IndexEntry>, es': seq<IndexEntry>, h: int)
    requires Linked(es) && Linked(es')
    requires NONE <= h < |es| && h < |es'|
    requires forall k :: 0 <= k <= h ==> es[k] == es'[k]
    ensures View(es, h) == View(es', h)
    decreases h + 1
  {
    if h != NONE {
      ViewFrame(es, es', es[h].next);
    }
  }

  // A chain that holds only blocks of one bucket does not notice changes to other buckets.
  lemma {:induction false} ViewFrameBucket(es: seq<IndexEntry>, es': seq<IndexEntry>, h: int, i: nat, hsize: nat)
    requires Linked(es) && Linked(es') && |es| == |es'| && hsize > 0
    requires NONE <= h < |es|
    requires forall x :: x in View(es, h) ==> Bucket(x.val, hsize) == i
    requires forall k :: 0 <= k < |es| && Bucket(es[k].val, hsize) == i ==> es[k] == es'[k]
    ensures View(es, h) == View(es', h)
    decreases h + 1
  {
    hide Bucket;
    if h != NONE {
      assert View(es, h)[0] == BlockOf(es[h]);
      assert View(es, h)[1..] == View(es, es[h].next);
      ViewFrameBucket(es, es', es[h].next, i, hsize);
    }
  }

  // ---------- population ----------

  method WindowHash(src: seq<byte>, start: nat) returns (val: hash)
    requires start + RABIN_WINDOW < |src|
    ensures val == Hash(src[start + 1..start + 1 + RABIN_WINDOW])
  {
    hide Step;
    val := 0;
    for i := 1 to RABIN_WINDOW + 1
      invariant val == Hash(src[start + 1..start + i])
    {
      var s := src[start + 1..start + i + 1];
      assert s[..|s| - 1] == src[start + 1..start + i];
      val := Step(val, Widen(src[start + i]));
    }
  }

  lemma SelectCons(x: Block, bs: seq<Block>, i: nat, hsize: nat)
    requires hsize > 0
    ensures Select([x] + bs, i, hsize)
         == (if Bucket(x.val, hsize) == i then [x] else []) + Select(bs, i, hsize)
  {
    assert ([x] + bs)[1..] == bs;
  }

  /** The state of the index after the blocks `bs` have been entered into the first `n` entries. */
  ghost predicate Populated(es: seq<IndexEntry>, heads: seq<int>, counts: seq<nat>, bs: seq<Block>) {
    && |heads| == |counts| > 0
    && Linked(es)
    && (forall i :: 0 <= i < |heads| ==> NONE <= heads[i] < |es|)
    && (forall i :: 0 <= i < |heads| ==> View(es, heads[i]) == Select(bs, i, |heads|) && counts[i] == |Select(bs, i, |heads|)|)
    && (|es| > 0 <==> bs != [])
    && (bs != [] ==> BlockOf(es[|es| - 1]) == bs[0] && heads[Bucket(bs[0].val, |heads|)] == |es| - 1)
  }

  // A new run: push an entry on its bucket's chain.
  lemma PushKeeps(es: seq<IndexEntry>, heads: seq<int>, counts: seq<nat>, bs: seq<Block>, x: Block)
    requires Populated(es, heads, counts, bs)
    ensures
      var i := Bucket(x.val, |heads|);
      Populated(es + [IndexEntry(x.ptr, x.val, heads[i])], heads[i := |es|], counts[i := counts[i] + 1], [x] + bs)
  {
    hide Bucket, Select;
    var hsize := |heads|;
    var i := Bucket(x.val, hsize);
    var es' := es + [IndexEntry(x.ptr, x.val, heads[i])];
    forall j | 0 <= j < hsize
      ensures View(es', if j == i then |es| else heads[j]) == Select([x] + bs, j, hsize)
      ensures |Select([x] + bs, j, hsize)| == |Select(bs, j, hsize)| + if j == i then 1 else 0
    {
      SelectCons(x, bs, j, hsize);
      ViewFrame(es, es', heads[j]);
    }
  }

  // A block like the one before it: the newest entry moves down to it.
  lemma LowerKeeps(es: seq<IndexEntry>, heads: seq<int>, counts: seq<nat>, bs: seq<Block>, x: Block)
    requires Populated(es, heads, counts, bs)
    requires bs != [] && bs[0].val == x.val
    ensures Populated(es[|es| - 1 := es[|es| - 1].(ptr := x.ptr)], heads, counts, [x] + bs[1..])
  {
    hide Bucket, Select;
    var hsize := |heads|;
    var last := |es| - 1;
    var i := Bucket(x.val, hsize);
    var es' := es[last := es[last].(ptr := x.ptr)];
    forall j | 0 <= j < hsize
      ensures View(es', heads[j]) == Select([x] + bs[1..], j, hsize)
      ensures |Select([x] + bs[1..], j, hsize)| == |Select(bs, j, hsize)|
    {
      SelectCons(x, bs[1..], j, hsize);
      assert bs == [bs[0]] + bs[1..];
      SelectCons(bs[0], bs[1..], j, hsize);
      if j == i {
        ViewFrame(es, es', es[last].next);
        assert View(es, last)[1..] == View(es, es[last].next);
        assert View(es, last)[1..] == Select(bs[1..], i, hsize);
      } else {
        SelectKeeps(bs, j, hsize);
        ViewFrame(es, es', heads[j]);
      }
    }
  }

  /** Enters the blocks of `src`, last to first; returns the number of entries used. */
  method Populate(src: seq<byte>, entries: array<IndexEntry>, heads: array<int>, counts: array<nat>) returns (n: nat)
    requires entries.Length == BlockCount(|src|) && heads.Length == counts.Length > 0 && |src| > 0
    requires forall i :: 0 <= i < heads.Length ==> heads[i] == NONE && counts[i] == 0
    modifies entries, heads, counts
    ensures n <= entries.Length
    ensures Populated(entries[..n], heads[..], counts[..], Blocks(src, 0))
  {
    hide BlockHash, Bucket, Blocks, BlockAt, Populated, Hash;
    n := 0;
    var hsize := heads.Length;
    var prevVal := NO_HASH;
    var b: nat := BlockCount(|src|);
    InitiallyPopulated(src, heads[..], counts[..]);
    while b > 0
      invariant b <= BlockCount(|src|) && n <= BlockCount(|src|) - b
      invariant Populated(entries[..n], heads[..], counts[..], Blocks(src, b))
      invariant if n == 0 then prevVal == NO_HASH else prevVal == entries[n - 1].val
    {
      b := b - 1;
      var val := WindowHash(src, RABIN_WINDOW * b);
      BlocksUnfold(src, b);
      BlockAtIs(src, b);
      PopulatedFirst(entries[..n], heads[..], counts[..], Blocks(src, b + 1));
      ghost var es, hs, cs := entries[..n], heads[..], counts[..];
      if val == prevVal {
        LowerKeeps(es, hs, cs, Blocks(src, b + 1), Block(RABIN_WINDOW * b + RABIN_WINDOW, val));
        entries[n - 1] := entries[n - 1].(ptr := RABIN_WINDOW * b + RABIN_WINDOW);
        assert entries[..n] == es[n - 1 := es[n - 1].(ptr := RABIN_WINDOW * b + RABIN_WINDOW)];
      } else {
        prevVal := val;
        var i := Bucket(val, hsize);
        PushKeeps(es, hs, cs, Blocks(src, b + 1), Block(RABIN_WINDOW * b + RABIN_WINDOW, val));
        entries[n] := IndexEntry(RABIN_WINDOW * b + RABIN_WINDOW, val, heads[i]);
        heads[i] := n;
        counts[i] := counts[i] + 1;
        n := n + 1;
        assert entries[..n] == es + [IndexEntry(RABIN_WINDOW * b + RABIN_WINDOW, val, hs[i])];
        assert heads[..] == hs[i := |es|];
        assert counts[..] == cs[i := cs[i] + 1];
      }
    }
  }

  lemma BlockAtIs(src: seq<byte>, b: nat)
    requires b < BlockCount(|src|)
    ensures BlockAt(src, b)
         == Block(RABIN_WINDOW * b + RABIN_WINDOW, Hash(src[RABIN_WINDOW * b + 1..RABIN_WINDOW * b + 1 + RABIN_WINDOW]))
  {
    hide Hash;
  }

  lemma InitiallyPopulated(src: seq<byte>, heads: seq<int>, counts: seq<nat>)
    requires |heads| == |counts| > 0
    requires forall i :: 0 <= i < |heads| ==> heads[i] == NONE && counts[i] == 0
    ensures Populated([], heads, counts, Blocks(src, BlockCount(|src|)))
  {
  }

  lemma PopulatedFirst(es: seq<IndexEntry>, heads: seq<int>, counts: seq<nat>, bs: seq<Block>)
    requires Populated(es, heads, counts, bs)
    ensures if es == [] then bs == [] else bs != [] && bs[0].val == es[|es| - 1].val
  {
    hide Select;
  }

  // ---------- culling ----------

  // The stretch of a chain from `from` up to, and not including, `to`.
  ghost predicate Path(es: seq<IndexEntry>, from: int, to: int)
    requires Linked(es) && NONE <= from < |es|
    decreases from + 1
  {
    from == to || (from > to && from != NONE && Path(es, es[from].next, to))
  }

  ghost function Stretch(es: seq<IndexEntry>, from: int, to: int): seq<Block>
    requires Linked(es) && NONE <= from < |es| && Path(es, from, to)
    decreases from + 1
  {
    if from == to then [] else [BlockOf(es[from])] + Stretch(es, es[from].next, to)
  }

  lemma {:induction false} StretchToEnd(es: seq<IndexEntry>, from: int)
    requires Linked(es) && NONE <= from < |es|
    ensures Path(es, from, NONE) && Stretch(es, from, NONE) == View(es, from)
    decreases from + 1
  {
    if from != NONE {
      StretchToEnd(es, es[from].next);
    }
  }

  // Redirecting the link at `keep` makes `keep` the last entry of the stretch before its new successor.
  lemma {:induction false} StretchRedirect(es: seq<IndexEntry>, from: int, keep: int, next: int)
    requires Linked(es) && NONE <= from < |es| && 0 <= keep < |es| && NONE <= next < keep
    requires Path(es, from, keep)
    ensures
      var es' := es[keep := es[keep].(next := next)];
      Linked(es') && Path(es', from, next)
      && Stretch(es', from, next) == Stretch(es, from, keep) + [BlockOf(es[keep])]
    decreases from + 1
  {
    var es' := es[keep := es[keep].(next := next)];
    if from != keep {
      StretchRedirect(es, es[from].next, keep, next);
      assert Stretch(es, from, keep) == [BlockOf(es[from])] + Stretch(es, es[from].next, keep);
    }
  }

  /**
    Culls the chain of one bucket: keeps its head, walks `skip` entries on, links the
    head to where that leads, and goes on from there. A `skip` of zero is counted
    down past zero and never stops the walk.
  */
  method CullChain(entries: array<IndexEntry>, n: nat, head: int, i: nat, hsize: nat, count: nat)
    requires n <= entries.Length && hsize > 0
    requires Linked(entries[..n]) && 0 <= head < n
    requires count == |View(entries[..n], head)| >= HASH_LIMIT
    requires forall x :: x in View(entries[..n], head) ==> Bucket(x.val, hsize) == i
    modifies entries
    ensures Linked(entries[..n])
    ensures View(entries[..n], head) == old(Cull(View(entries[..n], head)))
    ensures forall k :: 0 <= k < n && Bucket(old(entries[k].val), hsize) != i ==> entries[k] == old(entries[k])
    ensures forall k :: 0 <= k < n ==> entries[k].val == old(entries[k].val)
  {
    hide Bucket, Thin, Stretch, Path, View, AfterSkip;
    var skip := count / HASH_LIMIT / 2;
    StretchStart(entries[..n], head);
    ghost var es0 := entries[..n];
    var entry := head;
    ghost var kept: seq<Block> := [];
    while entry != NONE
      invariant NONE <= entry < n
      invariant Linked(entries[..n]) && Path(entries[..n], head, entry)
      invariant Stretch(entries[..n], head, entry) == kept
      invariant forall k :: 0 <= k <= entry ==> entries[k] == es0[k]
      invariant kept + Thin(View(es0, entry), skip) == Thin(View(es0, head), skip)
      invariant forall k :: 0 <= k < n && Bucket(es0[k].val, hsize) != i ==> entries[k] == es0[k]
      invariant forall k :: 0 <= k < n ==> entries[k].val == es0[k].val
      invariant forall x :: x in View(es0, entry) ==> Bucket(x.val, hsize) == i
      decreases entry
    {
      ghost var es := entries[..n];
      var keep := entry;
      ViewFrame(es, es0, keep);
      entry := SkipOn(entries, n, keep, skip);
      ViewFrame(es, es0, entry);
      StretchRedirect(es, head, keep, entry);
      ThinUnfold(es0, keep, skip);
      assert BlockOf(es0[keep]).val == es0[keep].val;
      entries[keep] := entries[keep].(next := entry);
      assert entries[..n] == es[keep := es[keep].(next := entry)];
      kept := kept + [BlockOf(es0[keep])];
    }
    StretchToEnd(entries[..n], head);
    ThinEnd(es0, skip);
    assert kept + [] == kept;
  }

  lemma StretchStart(es: seq<IndexEntry>, h: int)
    requires Linked(es) && NONE <= h < |es|
    ensures Path(es, h, h) && Stretch(es, h, h) == []
  {
  }

  lemma ThinEnd(es: seq<IndexEntry>, skip: nat)
    requires Linked(es)
    ensures Thin(View(es, NONE), skip) == []
  {
  }

  lemma ThinUnfold(es: seq<IndexEntry>, keep: int, skip: nat)
    requires Linked(es) && 0 <= keep < |es|
    ensures View(es, keep) != []
    ensures Thin(View(es, keep), skip) == [BlockOf(es[keep])] + Thin(AfterSkip(View(es, keep), skip), skip)
    ensures BlockOf(es[keep]) in View(es, keep)
    ensures forall x :: x in AfterSkip(View(es, keep), skip) ==> x in View(es, keep)
  {
  }

  /** Walks from `keep` along its chain, `skip` steps or to the end; from a `skip` of zero, to the end. */
  method SkipOn(entries: array<IndexEntry>, n: nat, keep: int, skip: nat) returns (entry: int)
    requires n <= entries.Length && 0 <= keep < n && Linked(entries[..n])
    ensures NONE <= entry < keep
    ensures View(entries[..n], keep) != []
    ensures View(entries[..n], entry) == AfterSkip(View(entries[..n], keep), skip)
  {
    ghost var es := entries[..n];
    ghost var all := View(es, keep);
    entry := entries[keep].next;
    var left := skip - 1;
    while left != 0 && entry != NONE
      invariant NONE <= entry < keep
      invariant left < skip && (skip == 0 || left >= 0)
      invariant skip - left <= |all| && View(es, entry) == all[skip - left..]
      decreases entry
    {
      entry := entries[entry].next;
      left := left - 1;
    }
  }

  /** Every bucket's chain holds what it should: culled below `upTo`, complete from there on. */
  ghost predicate ChainsAre(es: seq<IndexEntry>, heads: seq<int>, src: seq<byte>, upTo: nat) {
    && Linked(es)
    && (forall j :: 0 <= j < |heads| ==> NONE <= heads[j] < |es|)
    && (forall j :: 0 <= j < |heads| ==>
          var all := Select(Blocks(src, 0), j, |heads|);
          View(es, heads[j]) == if j < upTo then Cull(all) else all)
  }

  // Culling one bucket leaves the others alone.
  lemma CullStep(es: seq<IndexEntry>, es': seq<IndexEntry>, heads: seq<int>, src: seq<byte>, i: nat)
    requires i < |heads| && |es| == |es'| && ChainsAre(es, heads, src, i) && Linked(es')
    requires View(es', heads[i]) == Cull(View(es, heads[i]))
    requires forall k :: 0 <= k < |es| && Bucket(es[k].val, |heads|) != i ==> es'[k] == es[k]
    ensures ChainsAre(es', heads, src, i + 1)
  {
    hide Bucket, Select, Blocks, View, Cull;
    forall j | 0 <= j < |heads| && j != i
      ensures View(es', heads[j]) == View(es, heads[j])
    {
      SelectKeeps(Blocks(src, 0), j, |heads|);
      CullKeeps(Select(Blocks(src, 0), j, |heads|));
      ViewFrameBucket(es, es', heads[j], j, |heads|);
    }
  }

  lemma CullKeeps(bs: seq<Block>)
    ensures forall x :: x in Cull(bs) ==> x in bs
  {
    ThinKeeps(bs, Spacing(bs));
  }

  /** The number of buckets: the least power of two, from 16 to 2^31, that is at least a quarter of `entries`. */
  method TableSize(entries: nat) returns (hsize: nat)
    ensures exists e :: 4 <= e <= 31 && hsize == Exp2(e)
    ensures 16 <= hsize <= 0x8000_0000
    ensures hsize >= entries / 4 || hsize == 0x8000_0000
    ensures hsize == 16 || hsize / 2 < entries / 4
  {
    var i := 4;
    hsize := 16;
    while i < 31 && hsize < entries / 4
      invariant 4 <= i <= 31 && hsize == Exp2(i)
      invariant hsize == 16 || hsize / 2 < entries / 4
    {
      i := i + 1;
      hsize := 2 * hsize;
    }
    Exp2Range(i);
  }

  function Exp2(n: nat): nat {
    if n == 0 then 1 else 2 * Exp2(n - 1)
  }

  lemma Exp2Range(n: nat)
    requires 4 <= n <= 31
    ensures 16 <= Exp2(n) <= 0x8000_0000 && (n == 31 ==> Exp2(n) == 0x8000_0000)
  {
    assert Exp2(10) == 0x400;
    assert Exp2(20) == 0x10_0000;
    assert Exp2(30) == 0x4000_0000;
    assert Exp2(31) == 0x8000_0000;
    Exp2Monotone(4, n);
    Exp2Monotone(n, 31);
  }

  lemma {:induction false} Exp2Monotone(m: nat, n: nat)
    requires m <= n
    ensures Exp2(m) <= Exp2(n)
    decreases n
  {
    if m < n {
      Exp2Monotone(m, n - 1);
    }
  }

  /** Culls every bucket that has HASH_LIMIT entries or more. */
  method CullAll(ghost src: seq<byte>, entries: array<IndexEntry>, n: nat, heads: array<int>, counts: array<nat>)
    requires n <= entries.Length && heads.Length == counts.Length
    requires ChainsAre(entries[..n], heads[..], src, 0)
    requires forall j :: 0 <= j < heads.Length ==> counts[j] == |Select(Blocks(src, 0), j, heads.Length)|
    modifies entries
    ensures ChainsAre(entries[..n], heads[..], src, heads.Length)
  {
    hide ChainsAre, Blocks, Select, View, Bucket, Cull;
    for i := 0 to heads.Length
      invariant ChainsAre(entries[..n], heads[..], src, i)
    {
      ghost var es := entries[..n];
      ChainFacts(es, heads[..], src, i);
      if counts[i] >= HASH_LIMIT {
        CullChain(entries, n, heads[i], i, heads.Length, counts[i]);
        CullStep(es, entries[..n], heads[..], src, i);
      } else {
        SmallChain(es, heads[..], src, i);
      }
    }
  }

  lemma ChainFacts(es: seq<IndexEntry>, heads: seq<int>, src: seq<byte>, i: nat)
    requires i < |heads| && ChainsAre(es, heads, src, i)
    ensures Linked(es) && NONE <= heads[i] < |es|
    ensures View(es, heads[i]) == Select(Blocks(src, 0), i, |heads|)
    ensures View(es, heads[i]) != [] ==> heads[i] != NONE
    ensures forall x :: x in View(es, heads[i]) ==> Bucket(x.val, |heads|) == i
  {
    hide Blocks, Select, Bucket;
    SelectKeeps(Blocks(src, 0), i, |heads|);
  }

  /** The index of a source: its blocks, chained into buckets. */
  class DeltaIndex {
    const src: seq<byte>
    const entries: array<IndexEntry>
    const heads: array<int>
    ghost const used: nat

    ghost predicate Valid()
      reads this, entries, heads
    {
      && 0 < |src|
      && used <= entries.Length
      && 0 < heads.Length
      && ChainsAre(entries[..used], heads[..], src, heads.Length)
    }

    /** The blocks in bucket `i`, in the order the encoder meets them. */
    ghost function Chain(i: nat): seq<Block>
      requires Valid() && i < heads.Length
      reads this, entries, heads
    {
      View(entries[..used], heads[i])
    }

    constructor (source: seq<byte>)
      requires source != []
      ensures Valid() && fresh(entries) && fresh(heads)
      ensures src == source
      ensures forall i :: 0 <= i < heads.Length ==> Chain(i) == BucketList(source, i, heads.Length)
    {
      var n := BlockCount(|source|);
      var hsize := TableSize(n);
      var es := new IndexEntry[n](_ => IndexEntry(0, 0, NONE));
      var hs := new int[hsize](_ => NONE);
      var counts := new nat[hsize](_ => 0);
      var filled := Populate(source, es, hs, counts);
      PopulatedChains(es[..filled], hs[..], counts[..], source);
      CullAll(source, es, filled, hs, counts);
      src := source;
      entries := es;
      heads := hs;
      used := filled;
    }
  }

  lemma PopulatedChains(es: seq<IndexEntry>, heads: seq<int>, counts: seq<nat>, src: seq<byte>)
    requires Populated(es, heads, counts, Blocks(src, 0))
    ensures ChainsAre(es, heads, src, 0)
    ensures forall j :: 0 <= j < |heads| ==> counts[j] == |Select(Blocks(src, 0), j, |heads|)|
  {
    hide Blocks, Select, View;
  }

  lemma SmallChain(es: seq<IndexEntry>, heads: seq<int>, src: seq<byte>, i: nat)
    requires i < |heads| && ChainsAre(es, heads, src, i)
    requires |Select(Blocks(src, 0), i, |heads|)| < HASH_LIMIT
    ensures ChainsAre(es, heads, src, i + 1)
  {
    hide Blocks, Select, View;
  }
}
