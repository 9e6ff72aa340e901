/**
  The delta encoder as an algorithm on instruction lists: the window is hashed
  directly, every block of the bucket is looked at, and the literals still pending
  are a string. DeltaCreate runs it with a rolling hash and an output buffer.
*/
module DeltaEncoding {
  import opened Bytes
  import opened RabinHash
  import opened DeltaBlocks
  import opened DeltaFormat
  import opened DeltaSearch

  const MIN_MATCH := 4

  /**
    The state between two steps: `data` bytes of the target have been dealt with, the
    last of them as the pending literals `lit`, and `m` is what is left of a long match.
  */
  datatype Enc = Enc(data: nat, lit: seq<byte>, ops: seq<Op>, m: Match)

  ghost predicate Matches(src: seq<byte>, trg: seq<byte>, data: nat, m: Match) {
    && m.off <= |src| && data <= |trg|
    && m.size <= Common(src, m.off, trg, data)
  }

  ghost predicate Sound(src: seq<byte>, trg: seq<byte>, s: Enc) {
    && s.data <= |trg| && (s.data == |trg| || s.data >= RABIN_WINDOW)
    && |s.lit| < MAX_INSERT && |s.lit| <= s.data && s.lit == trg[s.data - |s.lit|..s.data]
    && ValidOps(src, s.ops)
    && MeaningAll(src, s.ops) == trg[..s.data - |s.lit|]
    && Matches(src, trg, s.data, s.m)
  }

  function Init(trg: seq<byte>): Enc {
    var n := if |trg| < RABIN_WINDOW then |trg| else RABIN_WINDOW;
    Enc(n, trg[..n], [], Match(0, 0))
  }

  /** The hash of the window that ends with the next target byte. */
  function WindowAt(trg: seq<byte>, data: nat): hash
    requires RABIN_WINDOW <= data < |trg|
  {
    Hash(trg[data + 1 - RABIN_WINDOW..data + 1])
  }

  /** The match to use: what is left of the last one if that is long enough, else the best to be found. */
  ghost function Choose(src: seq<byte>, hsize: nat, trg: seq<byte>, s: Enc): Match
    requires hsize > 0 && RABIN_WINDOW <= s.data < |trg|
  {
    if s.m.size >= GOOD_ENOUGH then s.m
    else
      var val := WindowAt(trg, s.data);
      BucketInside(src, Bucket(val, hsize), hsize);
      Best(src, trg, s.data, val, BucketList(src, Bucket(val, hsize), hsize), s.m)
  }

  lemma BucketInside(src: seq<byte>, i: nat, hsize: nat)
    requires hsize > 0
    ensures Inside(src, BucketList(src, i, hsize))
  {
    hide Hash, BucketList, Bucket;
    BucketListIsSound(src, i, hsize);
  }

  /** Take one more literal byte. */
  function TakeLiteral(trg: seq<byte>, s: Enc, m: Match): Enc
    requires s.data < |trg|
  {
    var lit := s.lit + [trg[s.data]];
    if |lit| == MAX_INSERT then Enc(s.data + 1, [], s.ops + [Insert(lit)], m.(size := 0))
    else Enc(s.data + 1, lit, s.ops, m.(size := 0))
  }

  /** How far a match can be extended backwards over at most `n` pending literals. */
  function Back(src: seq<byte>, off: nat, trg: seq<byte>, data: nat, n: nat): (k: nat)
    requires off <= |src| && n <= data <= |trg|
    ensures k <= n && k <= off
  {
    if n > 0 && off > 0 && src[off - 1] == trg[data - 1] then 1 + Back(src, off - 1, trg, data - 1, n - 1) else 0
  }

  function FlushLiterals(lit: seq<byte>, ops: seq<Op>): seq<Op> {
    if lit == [] then ops else ops + [Insert(lit)]
  }

  /** Emit a copy of at most 64KB, extended backwards into the pending literals. */
  function TakeCopy(src: seq<byte>, trg: seq<byte>, s: Enc, m: Match): Enc
    requires m.off <= |src| && |s.lit| <= s.data <= |trg|
  {
    var k := Back(src, m.off, trg, s.data, |s.lit|);
    var off, size := m.off - k, m.size + k;
    var len := if size < MAX_COPY then size else MAX_COPY;
    Enc(s.data - k + len, [], FlushLiterals(s.lit[..|s.lit| - k], s.ops) + [Copy(off, len)], Match(off + len, size - len))
  }

  ghost function Next(src: seq<byte>, hsize: nat, trg: seq<byte>, s: Enc): (s': Enc)
    requires hsize > 0 && s.data < |trg| && Sound(src, trg, s)
  {
    var m := Choose(src, hsize, trg, s);
    ChoiceMatches(src, hsize, trg, s);
    if m.size < MIN_MATCH then TakeLiteral(trg, s, m) else TakeCopy(src, trg, s, m)
  }

  lemma ChoiceMatches(src: seq<byte>, hsize: nat, trg: seq<byte>, s: Enc)
    requires hsize > 0 && s.data < |trg| && Sound(src, trg, s)
    ensures Matches(src, trg, s.data, Choose(src, hsize, trg, s))
  {
    hide Common, Best, WindowAt, Bucket, BucketList, Hash;
    var val := WindowAt(trg, s.data);
    BucketInside(src, Bucket(val, hsize), hsize);
    BestIsLongest(src, trg, s.data, val, BucketList(src, Bucket(val, hsize), hsize), s.m);
  }

  lemma LiteralKeeps(src: seq<byte>, trg: seq<byte>, s: Enc, m: Match)
    requires s.data < |trg| && Sound(src, trg, s) && Matches(src, trg, s.data, m)
    ensures Sound(src, trg, TakeLiteral(trg, s, m))
  {
    hide Common, MeaningAll, EncodeAll, EncodeOp, ValidOps;
    var lit := s.lit + [trg[s.data]];
    var start := s.data - |s.lit|;
    assert lit == trg[start..s.data + 1];
    assert trg[..start] + lit == trg[..s.data + 1];
    if |lit| == MAX_INSERT {
      MeaningSnoc(src, s.ops, Insert(lit));
    }
  }

  lemma MeaningSnoc(base: seq<byte>, ops: seq<Op>, op: Op)
    requires ValidOps(base, ops) && ValidOp(base, op)
    ensures ValidOps(base, ops + [op])
    ensures MeaningAll(base, ops + [op]) == MeaningAll(base, ops) + Meaning(base, op)
    ensures EncodeAll(base, ops + [op]) == EncodeAll(base, ops) + EncodeOp(base, op)
  {
    hide Meaning, EncodeOp, ValidOp;
    MeaningConcat(base, ops, [op]);
    EncodeConcat(base, ops, [op]);
    assert MeaningAll(base, [op]) == Meaning(base, op) + MeaningAll(base, []);
    assert EncodeAll(base, [op]) == EncodeOp(base, op) + EncodeAll(base, []);
  }

  /** The bytes gone back over are equal, so the extended match still matches. */
  lemma {:induction false} BackMatches(src: seq<byte>, off: nat, trg: seq<byte>, data: nat, n: nat)
    requires off <= |src| && n <= data <= |trg|
    ensures var k := Back(src, off, trg, data, n);
            Common(src, off - k, trg, data - k) == k + Common(src, off, trg, data)
  {
    if n > 0 && off > 0 && src[off - 1] == trg[data - 1] {
      BackMatches(src, off - 1, trg, data - 1, n - 1);
    }
  }

  // Splitting a common stretch.
  lemma {:induction false} CommonSplit(src: seq<byte>, p: nat, trg: seq<byte>, q: nat, n: nat)
    requires p <= |src| && q <= |trg| && n <= Common(src, p, trg, q)
    ensures Common(src, p, trg, q) == n + Common(src, p + n, trg, q + n)
    ensures src[p..p + n] == trg[q..q + n]
    decreases n
  {
    if n > 0 {
      CommonSplit(src, p + 1, trg, q + 1, n - 1);
      assert src[p..p + n] == [src[p]] + src[p + 1..p + n];
      assert trg[q..q + n] == [trg[q]] + trg[q + 1..q + n];
    }
  }

  lemma FlushKeeps(src: seq<byte>, trg: seq<byte>, s: Enc, k: nat)
    requires Sound(src, trg, s) && k <= |s.lit|
    ensures var ops := FlushLiterals(s.lit[..|s.lit| - k], s.ops);
            ValidOps(src, ops) && MeaningAll(src, ops) == trg[..s.data - k]
  {
    hide Common, MeaningAll, EncodeAll, EncodeOp, Matches;
    var keep := s.lit[..|s.lit| - k];
    var start := s.data - |s.lit|;
    assert trg[..start] + keep == trg[..s.data - k];
    if keep == [] {
      assert s.data - k == start;
    } else {
      MeaningSnoc(src, s.ops, Insert(keep));
    }
  }

  // The literals kept, and a copy of `len` bytes that are the next ones of the target, spell the target up to there.
  lemma CopySpells(src: seq<byte>, trg: seq<byte>, ops: seq<Op>, start: nat, off: nat, len: nat)
    requires start + len <= |trg| && ValidOps(src, ops) && MeaningAll(src, ops) == trg[..start]
    requires ValidOp(src, Copy(off, len)) && src[off..off + len] == trg[start..start + len]
    ensures ValidOps(src, ops + [Copy(off, len)])
    ensures MeaningAll(src, ops + [Copy(off, len)]) == trg[..start + len]
  {
    hide MeaningAll, EncodeAll, EncodeOp;
    MeaningSnoc(src, ops, Copy(off, len));
    assert trg[..start] + trg[start..start + len] == trg[..start + len];
  }

  lemma CopyKeeps(src: seq<byte>, trg: seq<byte>, s: Enc, m: Match)
    requires |src| < SIZE_LIMIT
    requires s.data < |trg| && Sound(src, trg, s) && Matches(src, trg, s.data, m) && m.size >= MIN_MATCH
    ensures var s' := TakeCopy(src, trg, s, m);
            Sound(src, trg, s') && s'.data >= s.data + MIN_MATCH
  {
    hide Common, MeaningAll, Back, FlushLiterals, EncodeAll, EncodeOp, ValidOps;
    var k := Back(src, m.off, trg, s.data, |s.lit|);
    BackMatches(src, m.off, trg, s.data, |s.lit|);
    var off, size, start := m.off - k, m.size + k, s.data - k;
    var len := if size < MAX_COPY then size else MAX_COPY;
    CommonSplit(src, off, trg, start, len);
    FlushKeeps(src, trg, s, k);
    CopySpells(src, trg, FlushLiterals(s.lit[..|s.lit| - k], s.ops), start, off, len);
  }

  /** Every step keeps the state sound and makes progress. */
  lemma NextKeeps(src: seq<byte>, hsize: nat, trg: seq<byte>, s: Enc)
    requires |src| < SIZE_LIMIT
    requires hsize > 0 && s.data < |trg| && Sound(src, trg, s)
    ensures var s' := Next(src, hsize, trg, s);
            Sound(src, trg, s') && s.data < s'.data <= |trg|
  {
    hide Common, Best, WindowAt, Bucket, BucketList, Hash, Sound, Choose, TakeCopy, TakeLiteral;
    SoundData(src, trg, s);
    var m := Choose(src, hsize, trg, s);
    ChoiceMatches(src, hsize, trg, s);
    if m.size < MIN_MATCH {
      LiteralKeeps(src, trg, s, m);
      LiteralData(src, trg, s, m);
    } else {
      CopyKeeps(src, trg, s, m);
      SoundData(src, trg, TakeCopy(src, trg, s, m));
    }
  }

  lemma LiteralData(src: seq<byte>, trg: seq<byte>, s: Enc, m: Match)
    requires s.data < |trg|
    ensures TakeLiteral(trg, s, m).data == s.data + 1
  {
  }

  lemma SoundData(src: seq<byte>, trg: seq<byte>, s: Enc)
    requires Sound(src, trg, s)
    ensures |s.lit| < MAX_INSERT && |s.lit| <= s.data <= |trg| && (s.data == |trg| || s.data >= RABIN_WINDOW)
    ensures ValidOps(src, s.ops)
  {
  }

  lemma InitIsSound(src: seq<byte>, trg: seq<byte>)
    ensures Sound(src, trg, Init(trg))
  {
  }

  /** Encode the rest of the target. */
  ghost function Encode(src: seq<byte>, hsize: nat, trg: seq<byte>, s: Enc): (r: Enc)
    requires |src| < SIZE_LIMIT
    requires hsize > 0 && Sound(src, trg, s)
    ensures Sound(src, trg, r) && r.data == |trg|
    decreases |trg| - s.data
  {
    hide Sound, Next;
    SoundData(src, trg, s);
    if s.data == |trg| then s
    else
      NextKeeps(src, hsize, trg, s);
      Encode(src, hsize, trg, Next(src, hsize, trg, s))
  }

  /** The instructions of the delta from `src` to `trg`. */
  ghost function DeltaOps(src: seq<byte>, hsize: nat, trg: seq<byte>): seq<Op>
    requires |src| < SIZE_LIMIT && hsize > 0
  {
    InitIsSound(src, trg);
    var r := Encode(src, hsize, trg, Init(trg));
    FlushLiterals(r.lit, r.ops)
  }

  /** The instructions are valid and mean exactly the target. */
  lemma DeltaOpsMeanTarget(src: seq<byte>, hsize: nat, trg: seq<byte>)
    requires |src| < SIZE_LIMIT && hsize > 0
    ensures ValidOps(src, DeltaOps(src, hsize, trg))
    ensures MeaningAll(src, DeltaOps(src, hsize, trg)) == trg
  {
    hide Encode, Sound, MeaningAll;
    InitIsSound(src, trg);
    var r := Encode(src, hsize, trg, Init(trg));
    SoundFlush(src, trg, r);
    assert trg[..|trg|] == trg;
  }

  lemma SoundFlush(src: seq<byte>, trg: seq<byte>, s: Enc)
    requires Sound(src, trg, s)
    ensures ValidOps(src, FlushLiterals(s.lit, s.ops))
    ensures MeaningAll(src, FlushLiterals(s.lit, s.ops)) == trg[..s.data]
  {
    FlushKeeps(src, trg, s, 0);
    assert s.lit[..|s.lit|] == s.lit;
  }

  ghost function DeltaOf(src: seq<byte>, hsize: nat, trg: seq<byte>): seq<byte>
    requires |src| < SIZE_LIMIT && hsize > 0
  {
    DeltaOpsMeanTarget(src, hsize, trg);
    EncodeDelta(src, DeltaOps(src, hsize, trg), |trg|)
  }

  /** Applying the delta from a source below 2^31 bytes gives back the target. */
  lemma DeltaOfRoundTrip(src: seq<byte>, hsize: nat, trg: seq<byte>)
    requires hsize > 0 && |src| <= OFFSET_LIMIT && |trg| < SIZE_LIMIT
    ensures Apply(src, DeltaOf(src, hsize, trg)) == Done(trg)
  {
    hide DeltaOps, MeaningAll, Apply, EncodeAll, Run;
    var ops := DeltaOps(src, hsize, trg);
    DeltaOpsMeanTarget(src, hsize, trg);
    DeltaRoundTrip(src, ops);
    ValidOffsetsFit(src, ops);
  }

  lemma ValidOffsetsFit(src: seq<byte>, ops: seq<Op>)
    requires ValidOps(src, ops) && |src| <= OFFSET_LIMIT
    ensures OffsetsFit(ops)
  {
    forall i | 0 <= i < |ops| && ops[i].Copy?
      ensures ops[i].off < OFFSET_LIMIT
    {
      assert ValidOp(src, ops[i]);
    }
  }

  // ---------- how long a delta can get ----------

  /** The bytes that the state's instructions and pending literals take, slot included. */
  ghost function EncodedSize(src: seq<byte>, s: Enc): nat
    requires ValidOps(src, s.ops)
  {
    |EncodeAll(src, s.ops)| + if s.lit == [] then 0 else 1 + |s.lit|
  }

  lemma LiteralSize(src: seq<byte>, trg: seq<byte>, s: Enc, m: Match)
    requires s.data < |trg| && Sound(src, trg, s) && Matches(src, trg, s.data, m)
    ensures Sound(src, trg, TakeLiteral(trg, s, m))
    ensures EncodedSize(src, TakeLiteral(trg, s, m)) <= EncodedSize(src, s) + 2
  {
    LiteralKeeps(src, trg, s, m);
    var lit := s.lit + [trg[s.data]];
    hide Common, MeaningAll, EncodeAll, Matches;
    if |lit| == MAX_INSERT {
      MeaningSnoc(src, s.ops, Insert(lit));
    }
  }

  lemma FlushSize(src: seq<byte>, trg: seq<byte>, s: Enc, k: nat)
    requires Sound(src, trg, s) && k <= |s.lit|
    ensures
      var keep := s.lit[..|s.lit| - k];
      var ops := FlushLiterals(keep, s.ops);
      && ValidOps(src, ops)
      && EncodeAll(src, ops) == EncodeAll(src, s.ops) + (if keep == [] then [] else EncodeInsert(keep))
      && |EncodeAll(src, ops)| + k <= EncodedSize(src, s)
  {
    var keep := s.lit[..|s.lit| - k];
    hide Common, MeaningAll, EncodeAll, Matches;
    if keep != [] {
      MeaningSnoc(src, s.ops, Insert(keep));
    }
  }

  lemma CopyCode(src: seq<byte>, ops: seq<Op>, off: nat, len: nat)
    requires ValidOps(src, ops + [Copy(off, len)])
    ensures ValidOps(src, ops) && 0 < len <= MAX_COPY && off < SIZE_LIMIT
    ensures EncodeAll(src, ops + [Copy(off, len)]) == EncodeAll(src, ops) + EncodeCopy(off, len)
  {
    hide EncodeAll, EncodeCopy, MeaningAll;
    var all := ops + [Copy(off, len)];
    assert all[|ops|] == Copy(off, len);
    assert ValidOps(src, ops) by {
      forall i | 0 <= i < |ops| ensures ValidOp(src, ops[i]) {
        assert all[i] == ops[i];
      }
    }
    MeaningSnoc(src, ops, Copy(off, len));
  }

  lemma CopySize(src: seq<byte>, trg: seq<byte>, s: Enc, m: Match)
    requires |src| < SIZE_LIMIT
    requires s.data < |trg| && Sound(src, trg, s) && Matches(src, trg, s.data, m) && m.size >= MIN_MATCH
    ensures
      var s' := TakeCopy(src, trg, s, m);
      && Sound(src, trg, s')
      && EncodedSize(src, s') <= EncodedSize(src, s) + 7
      && s'.data >= s.data + MIN_MATCH
  {
    hide EncodeAll, EncodeCopy, Back, FlushLiterals, Sound, Common, MeaningAll, ValidOps;
    SoundData(src, trg, s);
    CopyKeeps(src, trg, s, m);
    var k := Back(src, m.off, trg, s.data, |s.lit|);
    var s' := TakeCopy(src, trg, s, m);
    SoundData(src, trg, s');
    FlushSize(src, trg, s, k);
    CopyCode(src, FlushLiterals(s.lit[..|s.lit| - k], s.ops), m.off - k, if m.size + k < MAX_COPY then m.size + k else MAX_COPY);
  }

  /** A delta is never more than twice as long as what it encodes, headers aside. */
  lemma NextSize(src: seq<byte>, hsize: nat, trg: seq<byte>, s: Enc)
    requires |src| < SIZE_LIMIT
    requires hsize > 0 && s.data < |trg| && Sound(src, trg, s) && EncodedSize(src, s) <= 2 * s.data
    ensures Sound(src, trg, Next(src, hsize, trg, s))
    ensures EncodedSize(src, Next(src, hsize, trg, s)) <= 2 * Next(src, hsize, trg, s).data
  {
    hide Common, Best, Hash, WindowAt, Sound, Choose, TakeCopy, TakeLiteral, EncodedSize, Bucket, BucketList;
    SoundData(src, trg, s);
    NextKeeps(src, hsize, trg, s);
    ChoiceMatches(src, hsize, trg, s);
    var m := Choose(src, hsize, trg, s);
    if m.size < MIN_MATCH {
      LiteralSize(src, trg, s, m);
      LiteralData(src, trg, s, m);
    } else {
      CopySize(src, trg, s, m);
    }
  }
}
