/** The delta of a file against itself: one copy for every 64 KB. */
module DeltaItself {
  import opened Bytes
  import opened RabinHash
  import opened DeltaBlocks
  import opened DeltaFormat
  import opened DeltaSearch
  import opened DeltaEncoding

  /** Copies of 64 KB from `at` to the end, fewer than four bytes at the end inserted. */
  function CopiesFrom(src: seq<byte>, at: nat): seq<Op>
    requires at <= |src|
    decreases |src| - at
  {
    var left := |src| - at;
    if left == 0 then []
    else if left < 4 then [Insert(src[at..])]
    else
      var len := if left < 65536 then left else 65536;
      [Copy(at, len)] + CopiesFrom(src, at + len)
  }

  lemma {:induction false} CommonWithItself(src: seq<byte>, p: nat)
    requires p <= |src|
    ensures Common(src, p, src, p) == |src| - p
    decreases |src| - p
  {
    if p < |src| {
      CommonWithItself(src, p + 1);
    }
  }

  lemma {:induction false} BackInItself(src: seq<byte>, p: nat, n: nat)
    requires n <= p <= |src|
    ensures Back(src, p, src, p, n) == n
  {
    if n > 0 {
      BackInItself(src, p - 1, n - 1);
    }
  }

  /** No match at `data` is longer than what is left of the target, so one that long is kept. */
  lemma FullMatchStays(src: seq<byte>, hsize: nat, trg: seq<byte>, s: Enc)
    requires hsize > 0 && RABIN_WINDOW <= s.data < |trg| && s.m.size == |trg| - s.data
    ensures Choose(src, hsize, trg, s) == s.m
  {
    hide Best, BucketList, Bucket, Hash;
    if s.m.size < GOOD_ENOUGH {
      var val := WindowAt(trg, s.data);
      var i := Bucket(val, hsize);
      BucketInside(src, i, hsize);
      BucketListIsSound(src, i, hsize);
      BestStops(src, trg, s.data, val, BucketList(src, i, hsize), s.m);
    }
  }

  /** The first block of the source leads its bucket. */
  lemma FirstBlockLeads(src: seq<byte>, hsize: nat)
    requires hsize > 0 && |src| >= 17
    ensures var val := Hash(src[1..17]);
            var bs := BucketList(src, Bucket(val, hsize), hsize);
            bs != [] && bs[0] == Block(16, val)
  {
    hide Hash, Bucket, Spacing, AfterSkip;
    BlocksUnfold(src, 0);
    BlockAtVal(src, 0);
    assert BlockHash(src, 0) == Hash(src[1..17]);
    hide Blocks, BlockHash, BlockAt, RunTail;
    var bs := Blocks(src, 0);
    SelectHead(bs, Bucket(bs[0].val, hsize), hsize);
  }

  lemma SelectHead(bs: seq<Block>, i: nat, hsize: nat)
    requires hsize > 0 && bs != [] && Bucket(bs[0].val, hsize) == i
    ensures Select(bs, i, hsize) != [] && Select(bs, i, hsize)[0] == bs[0]
  {
  }

  /** At the first searched position of the file itself, its first block gives the whole rest. */
  lemma FirstChoice(src: seq<byte>, hsize: nat)
    requires hsize > 0 && |src| >= 17
    ensures Choose(src, hsize, src, Init(src)) == Match(16, |src| - 16)
  {
    hide Hash, Bucket, BucketList, Common, Best;
    var s := Init(src);
    var val := WindowAt(src, 16);
    assert src[16 + 1 - RABIN_WINDOW..16 + 1] == src[1..17];
    var i := Bucket(val, hsize);
    var bs := BucketList(src, i, hsize);
    FirstBlockLeads(src, hsize);
    BucketInside(src, i, hsize);
    BucketListIsSound(src, i, hsize);
    CommonWithItself(src, 16);
    BestUnfold(src, src, 16, val, bs, Match(0, 0));
    AscendingRest(bs);
    BestStops(src, src, 16, val, bs[1..], Match(16, |src| - 16));
  }

  lemma AscendingRest(bs: seq<Block>)
    requires bs != [] && Ascending(bs)
    ensures Ascending(bs[1..])
  {
    assert forall k :: 0 <= k < |bs| - 1 ==> bs[1..][k] == bs[k + 1];
  }

  // The last one to three bytes are inserted.
  lemma {:induction false} EndIsInserted(src: seq<byte>, hsize: nat, trg: seq<byte>, s: Enc)
    requires |src| < SIZE_LIMIT && hsize > 0 && Sound(src, trg, s)
    requires |trg| - s.data < 4 && |s.lit| + (|trg| - s.data) < MAX_INSERT
    ensures var r := Encode(src, hsize, trg, s);
            r.ops == s.ops && r.lit == s.lit + trg[s.data..]
    decreases |trg| - s.data
  {
    hide Sound, Next, Choose, Common;
    SoundData(src, trg, s);
    if s.data == |trg| {
      assert s.lit + trg[s.data..] == s.lit;
    } else {
      NextKeeps(src, hsize, trg, s);
      ShortChoice(src, hsize, trg, s);
      EndIsInserted(src, hsize, trg, Next(src, hsize, trg, s));
      assert s.lit + [trg[s.data]] + trg[s.data + 1..] == s.lit + trg[s.data..];
    }
  }

  lemma ShortChoice(src: seq<byte>, hsize: nat, trg: seq<byte>, s: Enc)
    requires hsize > 0 && Sound(src, trg, s) && s.data < |trg| && |trg| - s.data < 4 && |s.lit| + 1 < MAX_INSERT
    ensures var s' := Next(src, hsize, trg, s);
            s'.data == s.data + 1 && s'.lit == s.lit + [trg[s.data]] && s'.ops == s.ops
  {
    hide Choose, MeaningAll;
    ChoiceMatches(src, hsize, trg, s);
  }

  // Between two copies.
  ghost predicate AtMatch(src: seq<byte>, s: Enc) {
    Sound(src, src, s) && s.lit == [] && s.m == Match(s.data, |src| - s.data)
  }

  lemma NextCopy(src: seq<byte>, hsize: nat, s: Enc)
    requires |src| < SIZE_LIMIT && hsize > 0 && AtMatch(src, s) && |src| - s.data >= 4
    ensures
      var len := if |src| - s.data < 65536 then |src| - s.data else 65536;
      var s' := Next(src, hsize, src, s);
      AtMatch(src, s') && s'.data == s.data + len && s'.ops == s.ops + [Copy(s.data, len)]
  {
    hide Choose, Common, MeaningAll, Sound, ValidOps;
    SoundData(src, src, s);
    FullMatchStays(src, hsize, src, s);
    NextKeeps(src, hsize, src, s);
    BackInItself(src, s.data, 0);
    assert s.lit[..0] == [];
  }

  lemma {:induction false} EncodeItself(src: seq<byte>, hsize: nat, s: Enc)
    requires |src| < SIZE_LIMIT && hsize > 0 && Sound(src, src, s) && AtMatch(src, s)
    ensures var r := Encode(src, hsize, src, s);
            FlushLiterals(r.lit, r.ops) == s.ops + CopiesFrom(src, s.data)
    decreases |src| - s.data
  {
    hide Sound, Next, Encode;
    SoundData(src, src, s);
    var left := |src| - s.data;
    if left < 4 {
      EndIsInserted(src, hsize, src, s);
      assert [] + src[s.data..] == src[s.data..];
    } else {
      var len := if left < 65536 then left else 65536;
      NextCopy(src, hsize, s);
      EncodeOnce(src, hsize, src, s);
      EncodeItself(src, hsize, Next(src, hsize, src, s));
      ConcatAssociates(s.ops, [Copy(s.data, len)], CopiesFrom(src, s.data + len));
    }
  }

  lemma EncodeOnce(src: seq<byte>, hsize: nat, trg: seq<byte>, s: Enc)
    requires |src| < SIZE_LIMIT && hsize > 0 && Sound(src, trg, s) && s.data < |trg|
    ensures Sound(src, trg, Next(src, hsize, trg, s))
    ensures Encode(src, hsize, trg, s) == Encode(src, hsize, trg, Next(src, hsize, trg, s))
  {
    hide Sound, Next;
    NextKeeps(src, hsize, trg, s);
  }

  lemma FirstCopy(src: seq<byte>, hsize: nat)
    requires 20 <= |src| < SIZE_LIMIT && hsize > 0
    ensures Sound(src, src, Init(src))
    ensures
      var len := if |src| < 65536 then |src| else 65536;
      var s' := Next(src, hsize, src, Init(src));
      AtMatch(src, s') && s'.data == len && s'.ops == [Copy(0, len)]
  {
    hide Choose, Common, MeaningAll, Sound, ValidOps;
    var s := Init(src);
    InitIsSound(src, src);
    FirstChoice(src, hsize);
    NextKeeps(src, hsize, src, s);
    BackInItself(src, 16, 16);
    assert s.lit[..0] == [] && [] + [Copy(0, 0)] == [Copy(0, 0)];
  }

  /** From twenty bytes on the delta of a file against itself is its copies, below that it inserts the file. */
  lemma DeltaOfItself(src: seq<byte>, hsize: nat)
    requires |src| < SIZE_LIMIT && hsize > 0
    ensures DeltaOps(src, hsize, src)
         == if |src| >= 20 then CopiesFrom(src, 0) else if src == [] then [] else [Insert(src)]
  {
    hide Sound, Next, Encode, CopiesFrom;
    InitIsSound(src, src);
    if |src| >= 20 {
      FirstCopy(src, hsize);
      EncodeOnce(src, hsize, src, Init(src));
      var s := Next(src, hsize, src, Init(src));
      EncodeItself(src, hsize, s);
      CopiesUnfold(src, 0);
    } else {
      EndIsInserted(src, hsize, src, Init(src));
      assert Init(src).lit + src[Init(src).data..] == src;
    }
  }

  lemma CopiesUnfold(src: seq<byte>, at: nat)
    requires at <= |src| && |src| - at >= 4
    ensures var len := if |src| - at < 65536 then |src| - at else 65536;
            CopiesFrom(src, at) == [Copy(at, len)] + CopiesFrom(src, at + len)
  {
  }

  /** Up to 64 KB it is one copy command of at most three bytes behind the header. */
  lemma OneCopy(src: seq<byte>, hsize: nat)
    requires 20 <= |src| <= 65536 && hsize > 0
    ensures DeltaOf(src, hsize, src) == EncodeSize(|src|) + EncodeSize(|src|) + EncodeCopy(0, |src|)
    ensures |EncodeCopy(0, |src|)| <= 3
  {
    hide EncodeSize, EncodeCopy, CopiesFrom, DeltaOps;
    DeltaOfItself(src, hsize);
    CopiesUnfold(src, 0);
    NothingLeft(src);
    DeltaOpsMeanTarget(src, hsize, src);
    assert DeltaOps(src, hsize, src) == [Copy(0, |src|)];
    OneOp(src, |src|);
    FromTheStart(|src|);
  }

  lemma NothingLeft(src: seq<byte>)
    ensures CopiesFrom(src, |src|) == []
  {
  }

  lemma OneOp(src: seq<byte>, len: nat)
    requires ValidOp(src, Copy(0, len))
    ensures ValidOps(src, [Copy(0, len)]) && EncodeAll(src, [Copy(0, len)]) == EncodeCopy(0, len)
  {
    hide EncodeCopy;
    assert [Copy(0, len)][1..] == [];
    assert EncodeCopy(0, len) + [] == EncodeCopy(0, len);
  }

  lemma FromTheStart(len: nat)
    ensures |EncodeCopy(0, len)| <= 3
  {
    assert ByteAt(0, 1) == 0 && ByteAt(0, 0x100) == 0 && ByteAt(0, 0x1_0000) == 0 && ByteAt(0, 0x100_0000) == 0;
    hide ByteAt;
  }
}
