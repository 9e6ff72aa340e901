/**
  What the delta index holds: the blocks of the source, one for each run of blocks
  with the same hash, sorted into buckets, long buckets thinned out.
*/
module DeltaBlocks {
  import opened Bytes
  import opened RabinHash

  const HASH_LIMIT := 64

  /** An indexed block: the position of the last byte of its window, and the hash of the window. */
  datatype Block = Block(ptr: nat, val: hash)

  /** How many blocks of a source of `size` bytes are indexed. */
  function BlockCount(size: nat): (n: nat)
    ensures size > 0 ==> RABIN_WINDOW * n < size
  {
    if size >= 0xffff_ffff then 0xffff_fffe / RABIN_WINDOW
    else if size == 0 then 0
    else (size - 1) / RABIN_WINDOW
  }

  /** The hash of block `b`, which starts after the first byte of the source. */
  function BlockHash(src: seq<byte>, b: nat): hash
    requires b < BlockCount(|src|)
  {
    Hash(src[RABIN_WINDOW * b + 1..RABIN_WINDOW * b + 1 + RABIN_WINDOW])
  }

  function BlockAt(src: seq<byte>, b: nat): Block
    requires b < BlockCount(|src|)
  {
    Block(RABIN_WINDOW * b + RABIN_WINDOW, BlockHash(src, b))
  }

  /** The blocks from `b` on, with only the first block of each run of equal hashes. */
  function Blocks(src: seq<byte>, b: nat): seq<Block>
    requires b <= BlockCount(|src|)
    decreases BlockCount(|src|) - b
  {
    if b == BlockCount(|src|) then []
    else
      var rest := Blocks(src, b + 1);
      if rest != [] && rest[0].val == BlockHash(src, b) then [BlockAt(src, b)] + rest[1..]
      else [BlockAt(src, b)] + rest
  }

  function Bucket(val: hash, hsize: nat): (i: nat)
    requires hsize > 0
    ensures i < hsize
  {
    (val as int) % hsize
  }

  /** The blocks that fall into bucket `i`, in order. */
  function Select(bs: seq<Block>, i: nat, hsize: nat): seq<Block>
    requires hsize > 0
  {
    if bs == [] then []
    else (if Bucket(bs[0].val, hsize) == i then [bs[0]] else []) + Select(bs[1..], i, hsize)
  }

  // What is left of a bucket after skipping; a skip of zero runs off the end.
  function AfterSkip(bs: seq<Block>, skip: nat): (r: seq<Block>)
    requires bs != []
    ensures |r| < |bs|
  {
    if skip == 0 || skip >= |bs| then [] else bs[skip..]
  }

  /** Keep the head, skip, and go on from what is left. */
  function Thin(bs: seq<Block>, skip: nat): seq<Block>
    decreases |bs|
  {
    if bs == [] then [] else [bs[0]] + Thin(AfterSkip(bs, skip), skip)
  }

  // How far apart the blocks of a long bucket are that stay; zero below 2 * HASH_LIMIT.
  function Spacing(bs: seq<Block>): nat {
    |bs| / HASH_LIMIT / 2
  }

  /** Buckets of HASH_LIMIT blocks or more are thinned out. */
  function Cull(bs: seq<Block>): seq<Block> {
    if |bs| < HASH_LIMIT then bs else Thin(bs, Spacing(bs))
  }

  /** What bucket `i` of the index of `src` holds. */
  function BucketList(src: seq<byte>, i: nat, hsize: nat): seq<Block>
    requires hsize > 0
  {
    Cull(Select(Blocks(src, 0), i, hsize))
  }

  // ---------- what the buckets are good for ----------

  ghost predicate Ascending(bs: seq<Block>) {
    forall j, k :: 0 <= j < k < |bs| ==> bs[j].ptr < bs[k].ptr
  }

  /** `x` stands for the window of sixteen source bytes that ends at `x.ptr`. */
  ghost predicate IsWindow(src: seq<byte>, x: Block) {
    && RABIN_WINDOW <= x.ptr < |src|
    && x.val == Hash(src[x.ptr - RABIN_WINDOW + 1..x.ptr + 1])
  }

  lemma BlockIsWindow(src: seq<byte>, b: nat)
    requires b < BlockCount(|src|)
    ensures IsWindow(src, BlockAt(src, b))
  {
    hide Hash;
  }

  // The blocks after the one at the head of `rest`'s predecessor `x`.
  function RunTail(x: Block, rest: seq<Block>): seq<Block> {
    if rest != [] && rest[0].val == x.val then rest[1..] else rest
  }

  lemma BlocksUnfold(src: seq<byte>, b: nat)
    requires b < BlockCount(|src|)
    ensures Blocks(src, b) == [BlockAt(src, b)] + RunTail(BlockAt(src, b), Blocks(src, b + 1))
    ensures BlockAt(src, b).ptr == RABIN_WINDOW * b + RABIN_WINDOW
  {
    hide BlockHash;
  }

  lemma {:induction false} BlocksAreWindows(src: seq<byte>, b: nat)
    requires b <= BlockCount(|src|)
    ensures Ascending(Blocks(src, b))
    ensures forall x :: x in Blocks(src, b) ==> IsWindow(src, x) && x.ptr > RABIN_WINDOW * b
    decreases BlockCount(|src|) - b
  {
    hide BlockHash, IsWindow, BlockAt, Ascending, RunTail;
    if b == BlockCount(|src|) {
      AscendingNil();
    } else {
      hide Blocks;
      var x, rest := BlockAt(src, b), Blocks(src, b + 1);
      BlocksUnfold(src, b);
      BlockIsWindow(src, b);
      BlocksAreWindows(src, b + 1);
      RunTailKeeps(x, rest);
      AscendingCons(x, RunTail(x, rest));
    }
  }

  lemma AscendingNil()
    ensures Ascending([])
  {
  }

  lemma RunTailKeeps(x: Block, rest: seq<Block>)
    requires Ascending(rest)
    ensures Ascending(RunTail(x, rest))
    ensures forall y :: y in RunTail(x, rest) ==> y in rest
  {
  }

  lemma AscendingCons(x: Block, tail: seq<Block>)
    requires Ascending(tail) && forall y :: y in tail ==> x.ptr < y.ptr
    ensures Ascending([x] + tail)
  {
  }

  /** Block `b` is represented: by the first block of the run of equal hashes it belongs to. */
  ghost predicate Represents(src: seq<byte>, x: Block, b: nat)
    requires b < BlockCount(|src|)
  {
    exists a :: 0 <= a <= b && x == BlockAt(src, a) && forall c :: a <= c <= b ==> BlockHash(src, c) == x.val
  }

  lemma {:induction false} BlocksCover(src: seq<byte>, b: nat, c: nat)
    requires b <= c < BlockCount(|src|)
    ensures exists x :: x in Blocks(src, b) && Represents(src, x, c)
    decreases BlockCount(|src|) - b
  {
    hide BlockHash, BlockAt, Blocks;
    BlocksUnfold(src, b);
    var x, rest := BlockAt(src, b), Blocks(src, b + 1);
    BlockAtVal(src, b);
    if b == c {
      assert Represents(src, x, c);
    } else {
      BlocksCover(src, b + 1, c);
      var y :| y in rest && Represents(src, y, c);
      if y !in RunTail(x, rest) {
        BlocksUnfold(src, b + 1);
        BlockAtVal(src, b + 1);
        var a :| 0 <= a <= c && y == BlockAt(src, a) && forall d :: a <= d <= c ==> BlockHash(src, d) == y.val;
        BlockAtVal(src, a);
        assert a == b + 1;
        assert forall d :: b <= d <= c ==> BlockHash(src, d) == x.val;
        assert Represents(src, x, c);
      }
    }
  }

  lemma BlockAtVal(src: seq<byte>, b: nat)
    requires b < BlockCount(|src|)
    ensures BlockAt(src, b).val == BlockHash(src, b)
    ensures BlockAt(src, b).ptr == RABIN_WINDOW * b + RABIN_WINDOW
  {
    hide BlockHash;
  }

  lemma {:induction false} SelectKeeps(bs: seq<Block>, i: nat, hsize: nat)
    requires hsize > 0
    ensures forall x :: x in Select(bs, i, hsize) <==> x in bs && Bucket(x.val, hsize) == i
    ensures Ascending(bs) ==> Ascending(Select(bs, i, hsize))
  {
    if bs != [] {
      SelectKeeps(bs[1..], i, hsize);
      assert bs == [bs[0]] + bs[1..];
      hide Bucket;
    }
  }

  lemma {:induction false} ThinKeeps(bs: seq<Block>, skip: nat)
    ensures forall x :: x in Thin(bs, skip) ==> x in bs
    ensures Ascending(bs) ==> Ascending(Thin(bs, skip))
    ensures |Thin(bs, skip)| <= |bs|
    decreases |bs|
  {
    hide Ascending;
    if bs != [] {
      var rest := AfterSkip(bs, skip);
      ThinKeeps(rest, skip);
      AfterSkipKeeps(bs, skip);
      if Ascending(bs) {
        AscendingCons(bs[0], Thin(rest, skip));
      }
    }
  }

  lemma AfterSkipKeeps(bs: seq<Block>, skip: nat)
    requires bs != []
    ensures forall x :: x in AfterSkip(bs, skip) ==> x in bs
    ensures Ascending(bs) ==> Ascending(AfterSkip(bs, skip)) && forall x :: x in AfterSkip(bs, skip) ==> bs[0].ptr < x.ptr
  {
  }

  lemma OneMore(n: int, skip: nat)
    ensures (n + 1) * skip == n * skip + skip
  {
  }

  lemma AfterSkipAt(bs: seq<Block>, skip: nat, k: nat)
    requires 0 < skip <= k < |bs|
    ensures k - skip < |AfterSkip(bs, skip)| && AfterSkip(bs, skip)[k - skip] == bs[k]
    ensures |AfterSkip(bs, skip)| == |bs| - skip
  {
  }

  /** Thinning is uniform: every `skip`-th block is kept, the first one included, and no other. */
  lemma {:induction false} ThinIsUniform(bs: seq<Block>, skip: nat, k: nat)
    requires skip > 0
    ensures k < |Thin(bs, skip)| <==> k * skip < |bs|
    ensures k < |Thin(bs, skip)| ==> Thin(bs, skip)[k] == bs[k * skip]
    decreases |bs|
  {
    hide AfterSkip;
    if bs != [] {
      var rest := AfterSkip(bs, skip);
      if k > 0 {
        OneMore(k - 1, skip);
        ThinIsUniform(rest, skip, k - 1);
        if k * skip < |bs| {
          AfterSkipAt(bs, skip, k * skip);
        } else {
          AfterSkipEnds(bs, skip, k * skip);
        }
      }
    } else {
      assert k * skip >= 0;
    }
  }

  lemma AfterSkipEnds(bs: seq<Block>, skip: nat, k: nat)
    requires bs != [] && 0 < skip <= k && |bs| <= k
    ensures |AfterSkip(bs, skip)| <= k - skip
  {
  }

  /** Of 128 blocks or more, from 128 to 255 are left. */
  lemma ThinLength(bs: seq<Block>, skip: nat)
    requires skip == |bs| / (2 * HASH_LIMIT) > 0
    ensures 2 * HASH_LIMIT <= |Thin(bs, skip)| < 4 * HASH_LIMIT
  {
    hide Thin;
    var n := |Thin(bs, skip)|;
    ThinIsUniform(bs, skip, 0);
    ThinIsUniform(bs, skip, 127);
    ThinIsUniform(bs, skip, n - 1);
    FewSteps(n - 1, skip, |bs|);
  }

  lemma SpacingIs(bs: seq<Block>)
    ensures Spacing(bs) == |bs| / (2 * HASH_LIMIT)
    ensures Spacing(bs) > 0 <==> |bs| >= 2 * HASH_LIMIT
  {
  }

  /**
    No bucket is left with 256 blocks or more, and one below 64 is not touched. Of 128 blocks or more at least 128 are
    left, equally spaced; of 64 to 127 blocks, and only of those, one is left alone.
  */
  lemma CullBounds(bs: seq<Block>)
    ensures |bs| < 64 ==> Cull(bs) == bs
    ensures |bs| > 1 ==> (|Cull(bs)| == 1 <==> 64 <= |bs| < 128)
    ensures 64 <= |bs| < 128 ==> Cull(bs) == [bs[0]]
    ensures |bs| >= 128 ==> 128 <= |Cull(bs)|
    ensures |Cull(bs)| < 256
    ensures
      |bs| >= 128 ==>
        forall k: nat :: k < |Cull(bs)| ==> k * (|bs| / 128) < |bs| && Cull(bs)[k] == bs[k * (|bs| / 128)]
  {
    hide Spacing, Thin;
    SpacingIs(bs);
    if |bs| >= 2 * HASH_LIMIT {
      ThinLength(bs, Spacing(bs));
      assert Spacing(bs) == |bs| / 128;
      forall k: nat | k < |Cull(bs)| ensures k * (|bs| / 128) < |bs| && Cull(bs)[k] == bs[k * (|bs| / 128)] {
        ThinIsUniform(bs, Spacing(bs), k);
      }
    } else if |bs| >= HASH_LIMIT {
      ThinToHead(bs);
    }
  }

  lemma ThinToHead(bs: seq<Block>)
    requires bs != []
    ensures Thin(bs, 0) == [bs[0]]
  {
  }

  lemma TimesMonotone(a: nat, b: nat, c: nat)
    requires a <= b
    ensures a * c <= b * c
  {
  }

  lemma FewSteps(steps: nat, skip: nat, size: nat)
    requires skip > 0 && steps * skip < size < 128 * skip + 128
    ensures steps < 255
  {
    if steps >= 255 {
      TimesMonotone(255, steps, skip);
    }
  }

  /** Every bucket ascends, holds only windows of the source that hash into it, and is short. */
  lemma BucketListIsSound(src: seq<byte>, i: nat, hsize: nat)
    requires hsize > 0
    ensures var bs := BucketList(src, i, hsize);
            && Ascending(bs) && |bs| < 4 * HASH_LIMIT
            && forall x :: x in bs ==> IsWindow(src, x) && Bucket(x.val, hsize) == i
  {
    hide Blocks, Select, IsWindow, Bucket, Thin, BlockHash;
    var all := Blocks(src, 0);
    BlocksAreWindows(src, 0);
    SelectKeeps(all, i, hsize);
    var sel := Select(all, i, hsize);
    CullBounds(sel);
    ThinKeeps(sel, Spacing(sel));
  }

  /** In a bucket that was not culled, every block of the source is represented. */
  lemma SmallBucketsCover(src: seq<byte>, b: nat, hsize: nat)
    requires hsize > 0 && b < BlockCount(|src|)
    requires |Select(Blocks(src, 0), Bucket(BlockHash(src, b), hsize), hsize)| < HASH_LIMIT
    ensures exists x :: x in BucketList(src, Bucket(BlockHash(src, b), hsize), hsize) && Represents(src, x, b)
  {
    hide BlockHash, Blocks, Select, Bucket;
    BlocksCover(src, 0, b);
    var x :| x in Blocks(src, 0) && Represents(src, x, b);
    SelectKeeps(Blocks(src, 0), Bucket(BlockHash(src, b), hsize), hsize);
  }
}
