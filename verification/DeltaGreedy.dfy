/**
  The encoder copies whatever its index lets it find: over every run, what is inserted has no
  indexed match of four bytes or more, and what is copied is copied for as long as can be.
*/
module DeltaGreedy {
  import opened Bytes
  import opened RabinHash
  import opened DeltaBlocks
  import opened DeltaFormat
  import opened DeltaSearch
  import opened DeltaEncoding

  /** The indexed blocks with the hash of the sixteen target bytes that end at `p`. */
  ghost predicate IsCandidate(src: seq<byte>, hsize: nat, trg: seq<byte>, p: nat, x: Block)
    requires hsize > 0 && 16 <= p < |trg|
  {
    var val := Hash(trg[p - 15..p + 1]);
    x in BucketList(src, Bucket(val, hsize), hsize) && x.val == val && x.ptr < |src|
  }

  /** No indexed block has four bytes in common with the target from `p` on. */
  ghost predicate NothingToCopy(src: seq<byte>, hsize: nat, trg: seq<byte>, p: nat)
    requires hsize > 0
  {
    16 <= p < |trg| ==> forall x :: IsCandidate(src, hsize, trg, p, x) ==> Common(src, x.ptr, trg, p) < 4
  }

  /** Every indexed block has at most `len` bytes in common with the target from `p` on, or `len` is good enough. */
  ghost predicate LongEnough(src: seq<byte>, hsize: nat, trg: seq<byte>, p: nat, len: nat)
    requires hsize > 0 && 16 <= p < |trg|
  {
    len >= 4096 || forall x :: IsCandidate(src, hsize, trg, p, x) ==> Common(src, x.ptr, trg, p) <= len
  }

  function OpLength(op: Op): nat {
    match op
    case Copy(off, len) => len
    case Insert(data) => |data|
  }

  function Length(ops: seq<Op>): nat {
    if ops == [] then 0 else Length(ops[..|ops| - 1]) + OpLength(ops[|ops| - 1])
  }

  /** A copy of `len` source bytes from `off` on, to target position `at`, behind the instructions `before`. */
  ghost predicate GreedyCopy(src: seq<byte>, hsize: nat, trg: seq<byte>, before: seq<Op>, off: nat, len: nat, at: nat)
    requires hsize > 0
  {
    && 4 <= len && off + len <= |src| && at + len <= |trg| && src[off..off + len] == trg[at..at + len]
    // It could not go on, except for its own limit of 64 KB.
    && (len == 65536 || off + len == |src| || at + len == |trg| || src[off + len] != trg[at + len])
    // It could not start earlier, in bytes inserted just before, except for a run that was full.
    && (before != [] && before[|before| - 1].Insert? && |before[|before| - 1].data| < 127 ==>
          off == 0 || at == 0 || src[off - 1] != trg[at - 1])
    // Where it was found nothing longer was indexed.
    && exists p: nat :: 16 <= p < |trg| && at <= p < at + len && LongEnough(src, hsize, trg, p, len)
  }

  ghost predicate GreedyOp(src: seq<byte>, hsize: nat, trg: seq<byte>, before: seq<Op>, op: Op, at: nat)
    requires hsize > 0
  {
    match op
    case Copy(off, len) => GreedyCopy(src, hsize, trg, before, off, len, at)
    case Insert(data) => forall p: nat :: at <= p < at + |data| ==> NothingToCopy(src, hsize, trg, p)
  }

  ghost predicate Greedy(src: seq<byte>, hsize: nat, trg: seq<byte>, ops: seq<Op>)
    requires hsize > 0
  {
    forall k :: 0 <= k < |ops| ==> GreedyOp(src, hsize, trg, ops[..k], ops[k], Length(ops[..k]))
  }

  // ---- one step -------------------------------------------------------------

  lemma LengthSnoc(ops: seq<Op>, op: Op)
    ensures Length(ops + [op]) == Length(ops) + OpLength(op)
  {
    assert (ops + [op])[..|ops|] == ops;
  }

  lemma GreedySnoc(src: seq<byte>, hsize: nat, trg: seq<byte>, ops: seq<Op>, op: Op)
    requires hsize > 0 && Greedy(src, hsize, trg, ops) && GreedyOp(src, hsize, trg, ops, op, Length(ops))
    ensures Greedy(src, hsize, trg, ops + [op])
  {
    hide GreedyOp, Length;
    var all := ops + [op];
    forall k | 0 <= k < |all| ensures GreedyOp(src, hsize, trg, all[..k], all[k], Length(all[..k])) {
      if k < |ops| {
        assert all[..k] == ops[..k];
      } else {
        assert all[..k] == ops;
      }
    }
  }

  /** What the encoder knows in state `s`, over and above that it is sound. */
  ghost predicate Keen(src: seq<byte>, hsize: nat, trg: seq<byte>, s: Enc)
    requires hsize > 0
  {
    && Sound(src, trg, s)
    && Greedy(src, hsize, trg, s.ops) && Length(s.ops) + |s.lit| == s.data
    && (forall p: nat :: s.data - |s.lit| <= p < s.data ==> NothingToCopy(src, hsize, trg, p))
    && (s.m.size == 0 || s.m.size == Common(src, s.m.off, trg, s.data))
    && LastIsFull(s.ops)
  }

  predicate LastIsFull(ops: seq<Op>) {
    ops != [] && ops[|ops| - 1].Insert? ==> |ops[|ops| - 1].data| == 127
  }

  // The match chosen is as long as can be, and no candidate is longer unless it is good enough.
  lemma ChoiceIsBest(src: seq<byte>, hsize: nat, trg: seq<byte>, s: Enc)
    requires hsize > 0 && RABIN_WINDOW <= s.data < |trg| && Sound(src, trg, s)
    requires s.m.size == 0 || s.m.size == Common(src, s.m.off, trg, s.data)
    ensures var m := Choose(src, hsize, trg, s);
            && Matches(src, trg, s.data, m)
            && (m.size == 0 || m.size == Common(src, m.off, trg, s.data))
            && LongEnough(src, hsize, trg, s.data, m.size)
  {
    hide Common, Best, Bucket, BucketList, Hash;
    ChoiceMatches(src, hsize, trg, s);
    var val := WindowAt(trg, s.data);
    assert val == Hash(trg[s.data - 15..s.data + 1]);
    BucketInside(src, Bucket(val, hsize), hsize);
    BestIsLongest(src, trg, s.data, val, BucketList(src, Bucket(val, hsize), hsize), s.m);
  }

  lemma LiteralIsKeen(src: seq<byte>, hsize: nat, trg: seq<byte>, s: Enc, m: Match)
    requires hsize > 0 && RABIN_WINDOW <= s.data < |trg| && Keen(src, hsize, trg, s)
    requires Matches(src, trg, s.data, m) && m.size < 4 && LongEnough(src, hsize, trg, s.data, m.size)
    ensures Keen(src, hsize, trg, TakeLiteral(trg, s, m))
  {
    hide Common, IsCandidate, Greedy, Length, Matches, MeaningAll, ValidOps;
    LiteralKeeps(src, trg, s, m);
    var lit := s.lit + [trg[s.data]];
    assert NothingToCopy(src, hsize, trg, s.data);
    hide NothingToCopy;
    if |lit| == MAX_INSERT {
      LengthSnoc(s.ops, Insert(lit));
      GreedySnoc(src, hsize, trg, s.ops, Insert(lit));
    }
  }

  lemma {:induction false} BackStops(src: seq<byte>, off: nat, trg: seq<byte>, data: nat, n: nat)
    requires off <= |src| && n <= data <= |trg|
    ensures var k := Back(src, off, trg, data, n);
            k < n ==> off == k || src[off - k - 1] != trg[data - k - 1]
  {
    if n > 0 && off > 0 && src[off - 1] == trg[data - 1] {
      BackStops(src, off - 1, trg, data - 1, n - 1);
    }
  }

  // The literals that are left before a copy.
  lemma FlushIsKeen(src: seq<byte>, hsize: nat, trg: seq<byte>, s: Enc, k: nat)
    requires hsize > 0 && Keen(src, hsize, trg, s) && k <= |s.lit|
    ensures var ops := FlushLiterals(s.lit[..|s.lit| - k], s.ops);
            && Greedy(src, hsize, trg, ops) && Length(ops) == s.data - k
            && (ops != [] && ops[|ops| - 1].Insert? && |ops[|ops| - 1].data| < 127 ==> k < |s.lit|)
  {
    hide NothingToCopy, Greedy, Length, Sound;
    SoundData(src, trg, s);
    var keep := s.lit[..|s.lit| - k];
    if keep != [] {
      LengthSnoc(s.ops, Insert(keep));
      GreedySnoc(src, hsize, trg, s.ops, Insert(keep));
    }
  }

  // A stretch cut at 64 KB is equal and, unless cut, cannot go on; what is left of it is still common.
  lemma StretchEnds(src: seq<byte>, off: nat, trg: seq<byte>, at: nat, len: nat)
    requires off <= |src| && at <= |trg|
    requires var n := Common(src, off, trg, at); len == if n < MAX_COPY then n else MAX_COPY
    ensures off + len <= |src| && at + len <= |trg| && src[off..off + len] == trg[at..at + len]
    ensures len == 65536 || off + len == |src| || at + len == |trg| || src[off + len] != trg[at + len]
    ensures Common(src, off + len, trg, at + len) == Common(src, off, trg, at) - len
  {
    hide Common;
    CommonSplit(src, off, trg, at, len);
    CommonIsMaximal(src, off, trg, at);
  }

  lemma LongerIsEnough(src: seq<byte>, hsize: nat, trg: seq<byte>, p: nat, n: nat, len: nat)
    requires hsize > 0 && 16 <= p < |trg| && LongEnough(src, hsize, trg, p, n) && (n <= len || len >= 4096)
    ensures LongEnough(src, hsize, trg, p, len)
  {
    hide Common, IsCandidate;
  }

  lemma GreedyCopyIs(src: seq<byte>, hsize: nat, trg: seq<byte>, before: seq<Op>, off: nat, len: nat, at: nat, p: nat)
    requires hsize > 0 && 4 <= len && off + len <= |src| && at + len <= |trg| && src[off..off + len] == trg[at..at + len]
    requires len == 65536 || off + len == |src| || at + len == |trg| || src[off + len] != trg[at + len]
    requires before != [] && before[|before| - 1].Insert? && |before[|before| - 1].data| < 127 ==>
               off == 0 || at == 0 || src[off - 1] != trg[at - 1]
    requires 16 <= p < |trg| && at <= p < at + len && LongEnough(src, hsize, trg, p, len)
    ensures GreedyCopy(src, hsize, trg, before, off, len, at)
  {
    hide LongEnough;
  }

  // A match, extended backwards and cut at 64 KB, is a greedy copy.
  lemma CopyIsGreedy(src: seq<byte>, hsize: nat, trg: seq<byte>, before: seq<Op>, m: Match, data: nat, n: nat)
    requires hsize > 0 && 16 <= data < |trg| && n <= data && n < 127 && 4 <= m.size && m.off <= |src|
    requires m.size == Common(src, m.off, trg, data) && LongEnough(src, hsize, trg, data, m.size)
    requires
      before != [] && before[|before| - 1].Insert? && |before[|before| - 1].data| < 127 ==>
        Back(src, m.off, trg, data, n) < n
    ensures
      var k := Back(src, m.off, trg, data, n);
      var len := if m.size + k < MAX_COPY then m.size + k else MAX_COPY;
      && GreedyCopy(src, hsize, trg, before, m.off - k, len, data - k)
      && Common(src, m.off - k + len, trg, data - k + len) == m.size + k - len
  {
    hide Common, Back, LongEnough, GreedyCopy;
    var k := Back(src, m.off, trg, data, n);
    var off, at := m.off - k, data - k;
    var len := if m.size + k < MAX_COPY then m.size + k else MAX_COPY;
    BackMatches(src, m.off, trg, data, n);
    BackStops(src, m.off, trg, data, n);
    StretchEnds(src, off, trg, at, len);
    LongerIsEnough(src, hsize, trg, data, m.size, len);
    GreedyCopyIs(src, hsize, trg, before, off, len, at, data);
  }

  // Behind a greedy copy, with nothing pending, the encoder is keen.
  lemma KeenAfterCopy(src: seq<byte>, hsize: nat, trg: seq<byte>, ops: seq<Op>, off: nat, len: nat, at: nat, left: nat)
    requires hsize > 0 && Greedy(src, hsize, trg, ops) && Length(ops) == at && GreedyCopy(src, hsize, trg, ops, off, len, at)
    requires left == Common(src, off + len, trg, at + len)
    requires Sound(src, trg, Enc(at + len, [], ops + [Copy(off, len)], Match(off + len, left)))
    ensures Keen(src, hsize, trg, Enc(at + len, [], ops + [Copy(off, len)], Match(off + len, left)))
  {
    hide Common, NothingToCopy, GreedyCopy, Sound, Greedy, Length;
    LengthSnoc(ops, Copy(off, len));
    GreedySnoc(src, hsize, trg, ops, Copy(off, len));
  }

  lemma KeenIsSound(src: seq<byte>, hsize: nat, trg: seq<byte>, s: Enc)
    requires hsize > 0 && Keen(src, hsize, trg, s)
    ensures Sound(src, trg, s) && |s.lit| < 127 && |s.lit| <= s.data <= |trg| && ValidOps(src, s.ops)
  {
    SoundData(src, trg, s);
  }

  lemma TakeCopyIs(src: seq<byte>, trg: seq<byte>, s: Enc, m: Match, k: nat, len: nat)
    requires m.off <= |src| && |s.lit| <= s.data <= |trg| && k == Back(src, m.off, trg, s.data, |s.lit|)
    requires len == if m.size + k < MAX_COPY then m.size + k else MAX_COPY
    ensures TakeCopy(src, trg, s, m)
         == Enc(s.data - k + len, [], FlushLiterals(s.lit[..|s.lit| - k], s.ops) + [Copy(m.off - k, len)],
                Match(m.off - k + len, m.size + k - len))
  {
    hide Back, FlushLiterals;
  }

  lemma CopyIsKeen(src: seq<byte>, hsize: nat, trg: seq<byte>, s: Enc, m: Match)
    requires |src| < SIZE_LIMIT && hsize > 0 && RABIN_WINDOW <= s.data < |trg| && Keen(src, hsize, trg, s)
    requires Matches(src, trg, s.data, m) && m.size >= 4 && m.size == Common(src, m.off, trg, s.data)
    requires LongEnough(src, hsize, trg, s.data, m.size)
    ensures Keen(src, hsize, trg, TakeCopy(src, trg, s, m))
  {
    hide Common, Back, LongEnough, NothingToCopy, GreedyCopy, FlushLiterals, Sound, MeaningAll, Greedy, Length, Keen, TakeCopy,
         LastIsFull, ValidOps;
    KeenIsSound(src, hsize, trg, s);
    CopyKeeps(src, trg, s, m);
    var k := Back(src, m.off, trg, s.data, |s.lit|);
    var ops := FlushLiterals(s.lit[..|s.lit| - k], s.ops);
    FlushIsKeen(src, hsize, trg, s, k);
    CopyIsGreedy(src, hsize, trg, ops, m, s.data, |s.lit|);
    var off, len := m.off - k, if m.size + k < MAX_COPY then m.size + k else MAX_COPY;
    TakeCopyIs(src, trg, s, m, k, len);
    KeenAfterCopy(src, hsize, trg, ops, off, len, s.data - k, m.size + k - len);
  }

  /** Every round keeps the encoder keen; with a match of four bytes or more it ends in a copy. */
  lemma NextIsKeen(src: seq<byte>, hsize: nat, trg: seq<byte>, s: Enc)
    requires |src| < SIZE_LIMIT && hsize > 0 && s.data < |trg| && Keen(src, hsize, trg, s)
    ensures Keen(src, hsize, trg, Next(src, hsize, trg, s))
  {
    hide Common, Choose, TakeCopy, TakeLiteral, LongEnough, NothingToCopy, Greedy, Length;
    SoundData(src, trg, s);
    ChoiceIsBest(src, hsize, trg, s);
    var m := Choose(src, hsize, trg, s);
    if m.size < MIN_MATCH {
      LiteralIsKeen(src, hsize, trg, s, m);
    } else {
      CopyIsKeen(src, hsize, trg, s, m);
    }
  }

  /** With a match of `n` bytes in hand, a round copies at least the lesser of `n` and 64 KB, and without one it inserts a byte. */
  lemma NextCopiesMatch(src: seq<byte>, hsize: nat, trg: seq<byte>, s: Enc)
    requires |src| < SIZE_LIMIT && hsize > 0 && s.data < |trg| && Sound(src, trg, s)
    ensures
      var n := Choose(src, hsize, trg, s).size;
      var s' := Next(src, hsize, trg, s);
      if n >= 4 then
        && s'.lit == [] && s'.ops != [] && s'.ops[|s'.ops| - 1].Copy?
        && s'.ops[|s'.ops| - 1].len >= if n < 65536 then n else 65536
      else
        s'.data == s.data + 1
  {
    hide Common, Choose, Back, FlushLiterals, MeaningAll;
    SoundData(src, trg, s);
    ChoiceMatches(src, hsize, trg, s);
  }

  // ---- every run ------------------------------------------------------------

  lemma InitIsKeen(src: seq<byte>, hsize: nat, trg: seq<byte>)
    requires hsize > 0
    ensures Keen(src, hsize, trg, Init(trg))
  {
    InitIsSound(src, trg);
    hide Sound;
  }

  lemma {:induction false} EncodeIsKeen(src: seq<byte>, hsize: nat, trg: seq<byte>, s: Enc)
    requires |src| < SIZE_LIMIT && hsize > 0 && Sound(src, trg, s) && Keen(src, hsize, trg, s)
    ensures Keen(src, hsize, trg, Encode(src, hsize, trg, s))
    decreases |trg| - s.data
  {
    hide Sound, Next, Keen;
    SoundData(src, trg, s);
    if s.data < |trg| {
      NextKeeps(src, hsize, trg, s);
      NextIsKeen(src, hsize, trg, s);
      EncodeIsKeen(src, hsize, trg, Next(src, hsize, trg, s));
    }
  }

  /** The instructions for any source and target are greedy. */
  lemma DeltaIsGreedy(src: seq<byte>, hsize: nat, trg: seq<byte>)
    requires |src| < SIZE_LIMIT && hsize > 0
    ensures Greedy(src, hsize, trg, DeltaOps(src, hsize, trg))
    ensures Length(DeltaOps(src, hsize, trg)) == |trg|
  {
    hide Encode, Sound, Greedy, Length, NothingToCopy;
    InitIsSound(src, trg);
    InitIsKeen(src, hsize, trg);
    EncodeIsKeen(src, hsize, trg, Init(trg));
    var r := Encode(src, hsize, trg, Init(trg));
    FlushIsKeen(src, hsize, trg, r, 0);
    assert r.lit[..|r.lit|] == r.lit;
  }
}
