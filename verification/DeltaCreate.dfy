/**
  The delta encoder as it runs: a rolling hash, a search that stops early, and an
  output buffer in which the length of a literal run is filled in once it is known.
*/
module DeltaCreate {
  import opened Bytes
  import opened RabinHash
  import opened DeltaBlocks
  import opened DeltaIndexing
  import opened DeltaFormat
  import opened DeltaSearch
  import opened DeltaEncoding
  import opened DeltaBufferSize

  /** Overrun: the buffer shrank below what was in it, because its next size wrapped around. */
  datatype Result = NoTarget | Delta(bytes: seq<byte>) | TooBig | Overrun

  // ---------- output ----------

  /** Writes a size in base 128. */
  method PutSize(out: array<byte>, at: nat, n: nat) returns (outpos: nat)
    requires n < SIZE_LIMIT && at + 5 <= out.Length
    modifies out
    ensures at < outpos <= at + 5
    ensures out[..outpos] == old(out[..at]) + EncodeSize(n)
  {
    hide EncodeSize;
    SizeIsShort(n);
    ghost var done: seq<byte> := [];
    var i := n;
    outpos := at;
    assert done + EncodeSize(n) == EncodeSize(n);
    while i >= 0x80
      invariant outpos == at + |done| && EncodeSize(n) == done + EncodeSize(i)
      invariant out[..outpos] == old(out[..at]) + done
      decreases i
    {
      ghost var digit: byte := i % 0x80 + 0x80;
      SizeGoesOn(i);
      ConcatAssociates(done, [digit], EncodeSize(i / 0x80));
      out[outpos] := i % 0x80 + 0x80;
      done := done + [digit];
      outpos := outpos + 1;
      assert out[..outpos] == out[..outpos - 1] + [digit];
      i := i / 0x80;
    }
    SizeStops(i);
    out[outpos] := i;
    outpos := outpos + 1;
    assert out[..outpos] == out[..outpos - 1] + [i];
  }

  // Writes one byte of a copy argument, unless it is zero, and notes that in the command.
  method PutField(out: array<byte>, at: nat, b: byte, weight: nat, command: nat) returns (outpos: nat, command': nat)
    requires at < out.Length
    modifies out
    ensures outpos == at + |Field(b)| <= out.Length && command' == command + Flag(b, weight)
    ensures out[..outpos] == old(out[..at]) + Field(b)
  {
    outpos, command' := at, command;
    if b != 0 {
      out[at] := b;
      outpos := at + 1;
      command' := command + weight;
      assert out[..outpos] == out[..at] + [b];
    }
  }

  /** Writes a copy instruction; the command byte is filled in last. */
  method PutCopy(out: array<byte>, at: nat, off: nat, len: nat) returns (outpos: nat)
    requires at + 7 <= out.Length && off < SIZE_LIMIT && 0 < len <= MAX_COPY
    modifies out
    ensures outpos == at + |EncodeCopy(off, len)|
    ensures out[..outpos] == old(out[..at]) + EncodeCopy(off, len)
  {
    hide Field, Flag, ByteAt;
    FieldShort();
    ghost var before, slot := out[..at], out[at..at + 1];
    ghost var f0, f1, f2, f3 := Field(ByteAt(off, 1)), Field(ByteAt(off, 0x100)), Field(ByteAt(off, 0x1_0000)),
      Field(ByteAt(off, 0x100_0000));
    ghost var f4, f5 := Field(ByteAt(len, 1)), Field(ByteAt(len, 0x100));
    var command := 0x80;
    outpos := at + 1;
    assert out[..outpos] == before + slot;
    outpos, command := PutField(out, outpos, ByteAt(off, 1), 1, command);
    outpos, command := PutField(out, outpos, ByteAt(off, 0x100), 2, command);
    outpos, command := PutField(out, outpos, ByteAt(off, 0x1_0000), 4, command);
    outpos, command := PutField(out, outpos, ByteAt(off, 0x100_0000), 8, command);
    outpos, command := PutField(out, outpos, ByteAt(len, 1), 0x10, command);
    outpos, command := PutField(out, outpos, ByteAt(len, 0x100), 0x20, command);
    assert out[..outpos] == before + slot + f0 + f1 + f2 + f3 + f4 + f5;
    assert command == CopyCommand(off, len);
    FillSlot(before, slot, command, f0, f1, f2, f3, f4, f5);
    ghost var written := out[..outpos];
    out[at] := command;
    assert out[..outpos] == written[at := command];
  }

  lemma FieldShort()
    ensures forall b :: |Field(b)| <= 1
  {
  }

  lemma UpdateLeft<T>(a: seq<T>, b: seq<T>, k: nat, x: T)
    requires k < |a|
    ensures (a + b)[k := x] == a[k := x] + b
  {
  }

  lemma FillSlot(before: seq<byte>, slot: seq<byte>, command: byte, f0: seq<byte>, f1: seq<byte>, f2: seq<byte>,
                 f3: seq<byte>, f4: seq<byte>, f5: seq<byte>)
    requires |slot| == 1
    ensures (before + slot + f0 + f1 + f2 + f3 + f4 + f5)[|before| := command]
         == before + ([command] + f0 + f1 + f2 + f3 + f4 + f5)
  {
    var k := |before|;
    var w := before + slot;
    assert w[k := command] == before + [command];
    var v := before + [command];
    UpdateLeft(w, f0, k, command);
    UpdateLeft(w + f0, f1, k, command);
    UpdateLeft(w + f0 + f1, f2, k, command);
    UpdateLeft(w + f0 + f1 + f2, f3, k, command);
    UpdateLeft(w + f0 + f1 + f2 + f3, f4, k, command);
    UpdateLeft(w + f0 + f1 + f2 + f3 + f4, f5, k, command);
    ConcatAssociates(before, [command], f0);
    ConcatAssociates(before, [command] + f0, f1);
    ConcatAssociates(before, [command] + f0 + f1, f2);
    ConcatAssociates(before, [command] + f0 + f1 + f2, f3);
    ConcatAssociates(before, [command] + f0 + f1 + f2 + f3, f4);
    ConcatAssociates(before, [command] + f0 + f1 + f2 + f3 + f4, f5);
  }

  // ---------- one step ----------

  /**
    What is in the buffer: the header, the finished instructions and, if there are
    pending literals, a slot for their number and the literals themselves.
  */
  ghost predicate Layout(written: seq<byte>, closed: seq<byte>, lit: seq<byte>) {
    if lit == [] then written == closed
    else |written| == |closed| + 1 + |lit| && written[..|closed|] == closed && written[|closed| + 1..] == lit
  }

  /** Appends one literal, opening or closing a run as needed. */
  method PutLiteral(out: array<byte>, at: nat, count: nat, b: byte, ghost closed: seq<byte>, ghost lit: seq<byte>)
    returns (outpos: nat, inscnt: nat)
    requires at + 2 <= out.Length
    requires Layout(out[..at], closed, lit) && count == |lit| < MAX_INSERT
    modifies out
    ensures at < outpos <= at + 2
    ensures
      var lit' := lit + [b];
      if |lit'| == MAX_INSERT then inscnt == 0 && Layout(out[..outpos], closed + EncodeInsert(lit'), [])
      else inscnt == |lit'| && Layout(out[..outpos], closed, lit')
  {
    outpos, inscnt := at, count;
    if inscnt == 0 {
      outpos := outpos + 1;
    }
    out[outpos] := b;
    outpos := outpos + 1;
    inscnt := inscnt + 1;
    assert out[..|closed|] == closed;
    assert out[|closed| + 1..outpos] == lit + [b];
    if inscnt == MAX_INSERT {
      out[outpos - inscnt - 1] := inscnt;
      assert out[|closed| + 1..outpos] == lit + [b];
      assert out[..outpos] == closed + [inscnt] + (lit + [b]);
      assert closed + [inscnt] + (lit + [b]) == closed + ([inscnt] + (lit + [b]));
      inscnt := 0;
    }
  }

  /**
    Extends a match backwards over pending literals, one byte at a time. When it takes
    the whole run, the slot goes too and the count ends at -1.
  */
  method BackUp(src: seq<byte>, trg: seq<byte>, off: nat, at: nat, pos: nat, count: nat)
    returns (k: nat, outpos: nat, inscnt: int)
    requires off <= |src| && 0 < count <= pos <= |trg| && count + 1 <= at
    ensures k == Back(src, off, trg, pos, count)
    ensures if k == count then inscnt == -1 && outpos == at - k - 1 else inscnt == count - k && outpos == at - k
  {
    var moff, data := off, pos;
    k, outpos, inscnt := 0, at, count;
    while moff > 0 && src[moff - 1] == trg[data - 1]
      invariant k < count && moff == off - k >= 0 && data == pos - k && inscnt == count - k && outpos == at - k
      invariant Back(src, off, trg, pos, count) == k + Back(src, moff, trg, data, count - k)
      decreases moff
    {
      k := k + 1;
      moff := moff - 1;
      data := data - 1;
      outpos := outpos - 1;
      inscnt := inscnt - 1;
      if inscnt != 0 {
        continue;
      }
      outpos := outpos - 1;  // nothing is left of the run, so its slot goes
      inscnt := inscnt - 1;
      break;
    }
  }

  /** Fills in the number of the pending literals that are left after going back `k` bytes. */
  method CloseRun(out: array<byte>, outpos: nat, inscnt: int, ghost at: nat, ghost closed: seq<byte>, ghost lit: seq<byte>, ghost k: nat)
    requires at < out.Length && Layout(out[..at], closed, lit)
    requires 0 < |lit| < MAX_INSERT && k <= |lit|
    requires if k == |lit| then inscnt == -1 && outpos == at - k - 1 else inscnt == |lit| - k && outpos == at - k
    modifies out
    ensures outpos <= at
    ensures
      var keep := lit[..|lit| - k];
      out[..outpos] == closed + (if keep == [] then [] else EncodeInsert(keep))
  {
    ghost var before: seq<byte> := out[..at];
    out[outpos - inscnt - 1] := inscnt % 0x100;
    if inscnt == -1 {
      assert out[..outpos] == before[..|closed|];
      RunSwallowed(before, closed, lit);
    } else {
      assert out[..outpos] == before[|closed| := |lit| - k][..|closed| + 1 + |lit| - k];
      RunClosed(before, closed, lit, k);
    }
  }

  lemma RunSwallowed(written: seq<byte>, closed: seq<byte>, lit: seq<byte>)
    requires Layout(written, closed, lit)
    ensures written[..|closed|] == closed && lit[..0] == []
  {
  }

  lemma RunClosed(written: seq<byte>, closed: seq<byte>, lit: seq<byte>, k: nat)
    requires Layout(written, closed, lit) && k < |lit| < MAX_INSERT
    ensures written[|closed| := |lit| - k][..|closed| + 1 + |lit| - k] == closed + EncodeInsert(lit[..|lit| - k])
  {
    var after := written[|closed| := |lit| - k];
    assert after[..|closed|] == closed;
    assert after[|closed| + 1..] == lit;
  }

  /** The direct hash of the window before `data`. */
  method HashBefore(trg: seq<byte>, data: nat) returns (val: hash)
    requires RABIN_WINDOW <= data <= |trg|
    ensures val == Hash(trg[data - RABIN_WINDOW..data])
  {
    hide Step;
    val := 0;
    for j := 0 to RABIN_WINDOW
      invariant val == Hash(trg[data - RABIN_WINDOW..data - RABIN_WINDOW + j])
    {
      var s := trg[data - RABIN_WINDOW..data - RABIN_WINDOW + j + 1];
      assert s[..|s| - 1] == trg[data - RABIN_WINDOW..data - RABIN_WINDOW + j];
      val := Step(val, Widen(trg[data - RABIN_WINDOW + j]));
    }
  }

  /** Whenever a search is due, the rolling hash is the direct hash of the window before `data`. */
  ghost predicate Rolling(trg: seq<byte>, data: nat, val: hash, m: Match) {
    m.size < GOOD_ENOUGH && RABIN_WINDOW <= data <= |trg| ==> val == Hash(trg[data - RABIN_WINDOW..data])
  }

  /** Rolls the window on by one byte and searches, unless a long match is still in hand. */
  method RollAndSearch(ix: DeltaIndex, trg: seq<byte>, data: nat, val: hash, m: Match, ghost s: Enc)
    returns (val': hash, m': Match)
    requires ix.Valid() && RABIN_WINDOW <= data < |trg| && s.data == data && s.m == m
    requires Rolling(trg, data, val, m)
    ensures m' == Choose(ix.src, ix.heads.Length, trg, s)
    ensures m.size < GOOD_ENOUGH ==> val' == Hash(trg[data + 1 - RABIN_WINDOW..data + 1])
    ensures m.size >= GOOD_ENOUGH ==> m' == m
  {
    hide Hash, Forget, Step, Bucket, BucketList, Best, Inside;
    val', m' := val, m;
    if m.size < GOOD_ENOUGH {
      ghost var window := trg[data - RABIN_WINDOW..data];
      RollIsHash(window, trg[data]);
      assert window[1..] + [trg[data]] == trg[data + 1 - RABIN_WINDOW..data + 1];
      val' := Forget(val, trg[data - RABIN_WINDOW]);
      val' := Step(val', Widen(trg[data]));
      m' := FindMatch(ix, trg, data, val', m);
    }
  }

  /** Emits the copy of a match: goes back over pending literals, closes their run, and copies at most 64KB. */
  method EmitMatch(src: seq<byte>, trg: seq<byte>, out: array<byte>, at: nat, count: nat, data: nat, m: Match,
                   ghost closed: seq<byte>, ghost s: Enc)
    returns (outpos: nat, data': nat, m': Match)
    requires |src| < SIZE_LIMIT && data < |trg| && at + 7 <= out.Length
    requires Sound(src, trg, s) && Matches(src, trg, data, m) && m.size >= MIN_MATCH
    requires s.data == data && |s.lit| == count
    requires Layout(out[..at], closed + EncodeAll(src, s.ops), s.lit)
    modifies out
    ensures outpos <= at + 7 && outpos <= out.Length
    ensures
      var s' := TakeCopy(src, trg, s, m);
      && Sound(src, trg, s')
      && data' == s'.data && m' == s'.m && s'.lit == []
      && out[..outpos] == closed + EncodeAll(src, s'.ops)
  {
    hide Sound, EncodeAll, EncodeCopy, EncodeInsert, Back, FlushLiterals, Common, MeaningAll, ValidOps;
    SoundData(src, trg, s);
    CopyKeeps(src, trg, s, m);
    ghost var code := EncodeAll(src, s.ops);
    var k: nat := 0;
    outpos := at;
    if count > 0 {
      var inscnt: int;
      k, outpos, inscnt := BackUp(src, trg, m.off, at, data, count);
      CloseRun(out, outpos, inscnt, at, closed + code, s.lit, k);
    } else {
      NoBack(src, m.off, trg, data);
    }
    ghost var ops := FlushLiterals(s.lit[..|s.lit| - k], s.ops);
    FlushSize(src, trg, s, k);
    ghost var tail: seq<byte> := if s.lit[..|s.lit| - k] == [] then [] else EncodeInsert(s.lit[..|s.lit| - k]);
    ConcatAssociates(closed, code, tail);
    assert out[..outpos] == closed + EncodeAll(src, ops);
    var off, size := m.off - k, m.size + k;
    var left := if size < MAX_COPY then 0 else size - MAX_COPY;
    var len := size - left;
    ghost var s' := TakeCopy(src, trg, s, m);
    SoundData(src, trg, s');
    CopyCode(src, ops, off, len);
    ghost var before := out[..outpos];
    outpos := PutCopy(out, outpos, off, len);
    ConcatAssociates(closed, EncodeAll(src, ops), EncodeCopy(off, len));
    data' := data - k + len;
    m' := Match(off + len, left);
  }

  lemma NoBack(src: seq<byte>, off: nat, trg: seq<byte>, data: nat)
    requires off <= |src| && data <= |trg|
    ensures Back(src, off, trg, data, 0) == 0
  {
  }

  /** One round of the main loop: search, then either a literal or a copy. */
  method Advance(ix: DeltaIndex, trg: seq<byte>, out: array<byte>, at: nat, count: nat, data: nat, val: hash, m: Match,
                 ghost closed: seq<byte>, ghost s: Enc)
    returns (outpos: nat, inscnt: nat, data': nat, val': hash, m': Match)
    requires ix.Valid() && |ix.src| < SIZE_LIMIT && data < |trg| && at + 7 <= out.Length
    requires Sound(ix.src, trg, s) && s.data == data && s.m == m && |s.lit| == count
    requires Rolling(trg, data, val, m)
    requires Layout(out[..at], closed + EncodeAll(ix.src, s.ops), s.lit)
    modifies out
    ensures ix.Valid()
    ensures outpos <= at + 7 && outpos <= out.Length
    ensures
      var s' := Next(ix.src, ix.heads.Length, trg, s);
      && Sound(ix.src, trg, s')
      && data' == s'.data && m' == s'.m && inscnt == |s'.lit|
      && Rolling(trg, data', val', m')
      && Layout(out[..outpos], closed + EncodeAll(ix.src, s'.ops), s'.lit)
  {
    hide Sound, EncodeAll, Common, MeaningAll, ValidOps, Choose, TakeCopy, Hash, ChainsAre, Matches;
    var src := ix.src;
    SoundData(src, trg, s);
    ChoiceMatches(src, ix.heads.Length, trg, s);
    NextKeeps(src, ix.heads.Length, trg, s);
    val', m' := RollAndSearch(ix, trg, data, val, m, s);
    if m'.size < MIN_MATCH {
      outpos, inscnt := PutLiteral(out, at, count, trg[data], closed + EncodeAll(src, s.ops), s.lit);
      LiteralCode(src, trg, s, m', closed);
      data' := data + 1;
      m' := m'.(size := 0);
    } else {
      outpos, data', m' := EmitMatch(src, trg, out, at, count, data, m', closed, s);
      inscnt := 0;
      if m'.size < GOOD_ENOUGH {
        val' := HashBefore(trg, data');
      }
    }
  }

  lemma LiteralCode(src: seq<byte>, trg: seq<byte>, s: Enc, m: Match, closed: seq<byte>)
    requires s.data < |trg| && Sound(src, trg, s) && Matches(src, trg, s.data, m)
    ensures
      var lit := s.lit + [trg[s.data]];
      var s' := TakeLiteral(trg, s, m);
      && ValidOps(src, s.ops) && ValidOps(src, s'.ops)
      && closed + EncodeAll(src, s'.ops)
         == if |lit| == MAX_INSERT then closed + EncodeAll(src, s.ops) + EncodeInsert(lit)
            else closed + EncodeAll(src, s.ops)
  {
    hide Common, MeaningAll, EncodeAll;
    var lit := s.lit + [trg[s.data]];
    if |lit| == MAX_INSERT {
      MeaningSnoc(src, s.ops, Insert(lit));
      ConcatAssociates(closed, EncodeAll(src, s.ops), EncodeInsert(lit));
    }
  }

  // ---------- the encoder ----------

  /** Reallocates the buffer, keeping the first `used` bytes. */
  method Resize(out: array<byte>, used: nat, size: nat) returns (out': array<byte>)
    requires used <= out.Length && used <= size
    ensures fresh(out') && out'.Length == size
    ensures out'[..used] == out[..used]
  {
    out' := new byte[size](_ => 0);
    for i := 0 to used
      invariant out'[..i] == out[..i]
    {
      out'[i] := out[i];
      assert out'[..i + 1] == out'[..i] + [out[i]];
    }
  }

  /** The header, an open slot, and the first window of the target as literals. */
  method Begin(src: seq<byte>, trg: seq<byte>, out: array<byte>)
    returns (outpos: nat, inscnt: nat, val: hash)
    requires trg != [] && |src| < SIZE_LIMIT && |trg| < SIZE_LIMIT && out.Length >= MAX_OP_SIZE + 1
    modifies out
    ensures inscnt == |Init(trg).lit|
    ensures outpos + 7 <= out.Length && outpos < MAX_OP_SIZE
    ensures Layout(out[..outpos], Header(src, trg), Init(trg).lit)
    ensures val == Hash(trg[..inscnt])
  {
    hide Step, EncodeSize;
    outpos := PutSize(out, 0, |src|);
    outpos := PutSize(out, outpos, |trg|);
    ghost var closed := out[..outpos];
    assert closed == Header(src, trg);
    outpos := outpos + 1;
    val := 0;
    inscnt := 0;
    ghost var start := outpos;
    while inscnt < RABIN_WINDOW && inscnt < |trg|
      invariant inscnt <= RABIN_WINDOW && inscnt <= |trg| && outpos == start + inscnt
      invariant out[..|closed|] == closed && out[start..outpos] == trg[..inscnt]
      invariant val == Hash(trg[..inscnt])
    {
      out[outpos] := trg[inscnt];
      assert out[start..outpos + 1] == out[start..outpos] + [trg[inscnt]];
      assert trg[..inscnt + 1][..inscnt] == trg[..inscnt];
      outpos := outpos + 1;
      val := Step(val, Widen(trg[inscnt]));
      inscnt := inscnt + 1;
    }
  }

  /**
    The encoder. A delta it returns is exactly the one of the algorithm on instruction
    lists, and applying it to the source gives back the target. It gives up exactly when
    some round leaves more in the buffer than the limit, and it loses its buffer exactly
    when there is no limit to stop it and some round leaves more than can be grown.
  */
  method CreateDelta(ix: DeltaIndex, trg: seq<byte>, maxSize: nat) returns (r: Result)
    requires ix.Valid() && |ix.src| < SIZE_LIMIT && |trg| < SIZE_LIMIT
    ensures r.NoTarget? <==> trg == []
    ensures r.Delta? ==> r.bytes == DeltaOf(ix.src, ix.heads.Length, trg)
    ensures r.Delta? && |ix.src| <= OFFSET_LIMIT ==> Apply(ix.src, r.bytes) == Done(trg)
    ensures r.Delta? && maxSize > 0 ==> |r.bytes| <= maxSize
    ensures
      r.TooBig? <==>
        trg != [] && Limited(maxSize) && Fills(ix.src, ix.heads.Length, trg, maxSize + 1)
    ensures
      r.Overrun? <==>
        trg != [] && !Limited(maxSize) && Fills(ix.src, ix.heads.Length, trg, LAST_SIZE - MAX_OP_SIZE)
    ensures r.TooBig? ==> maxSize < 2 * |trg| + 10
    ensures r.Overrun? ==> LAST_SIZE - MAX_OP_SIZE <= 2 * |trg| + 10
  {
    hide *;
    if trg == [] {
      return NoTarget;
    }
    ghost var closed := Header(ix.src, trg);
    var out := new byte[FirstSize(maxSize)](_ => 0);
    FirstSizeIsSize(maxSize);
    ThresholdIs(maxSize);
    var outpos, inscnt, val := Begin(ix.src, trg, out);
    IndexFacts(ix);
    BeginFacts(ix.src, ix.heads.Length, trg, val, out[..outpos]);
    var ok;
    out, outpos, ok := EncodeRest(ix, trg, maxSize, out, outpos, inscnt, val, closed);
    FillsAtMostTwice(ix.src, ix.heads.Length, trg, Threshold(maxSize));
    if !ok {
      return Overrun;
    }
    if maxSize > 0 && outpos > maxSize {
      return TooBig;
    }
    if |ix.src| <= OFFSET_LIMIT {
      DeltaOfRoundTrip(ix.src, ix.heads.Length, trg);
    }
    return Delta(out[..outpos]);
  }

  /** The main loop: rounds until the target is encoded, the delta is too long, or the buffer cannot grow. */
  method EncodeRest(ix: DeltaIndex, trg: seq<byte>, maxSize: nat, out0: array<byte>, start: nat, count: nat, val0: hash,
                    ghost closed: seq<byte>)
    returns (out: array<byte>, outpos: nat, ok: bool)
    requires ix.Valid() && closed == Header(ix.src, trg) && count == |Init(trg).lit| == Init(trg).data
    requires start + 7 <= out0.Length && IsSize(out0.Length, maxSize) && start < MAX_OP_SIZE
    requires Running(ix.src, ix.heads.Length, trg, Init(trg), count, count, val0, Match(0, 0))
    requires Layout(out0[..start], closed + EncodeAll(ix.src, []), Init(trg).lit)
    modifies out0
    ensures outpos <= out.Length
    ensures |ix.src| < SIZE_LIMIT && ix.heads.Length > 0
    ensures ok && (maxSize == 0 || outpos <= maxSize) ==> out[..outpos] == DeltaOf(ix.src, ix.heads.Length, trg)
    ensures !ok ==> !Limited(maxSize) && Fills(ix.src, ix.heads.Length, trg, Threshold(maxSize))
    ensures ok ==> (Fills(ix.src, ix.heads.Length, trg, Threshold(maxSize)) <==> Limited(maxSize) && outpos > maxSize)
    ensures ok && maxSize > 0 && !Limited(maxSize) ==> outpos <= maxSize
  {
    hide *;
    out, outpos, ok := out0, start, true;
    var inscnt, data, val, m := count, count, val0, Match(0, 0);
    ghost var s := Init(trg);
    ghost var bytes := Threshold(maxSize);
    InitFacts(ix.src, trg);
    RunningFacts(ix.src, ix.heads.Length, trg, s, data, inscnt, val, m);
    NotYetAtFirst(ix.src, ix.heads.Length, trg, bytes);
    ThresholdIs(maxSize);
    var room := Enough;
    while data < |trg|
      invariant room == Enough
      invariant ix.Valid() && (out == out0 || fresh(out))
      invariant Running(ix.src, ix.heads.Length, trg, s, data, inscnt, val, m)
      invariant ValidOps(ix.src, s.ops) && data <= |trg|
      invariant |ix.src| < SIZE_LIMIT && ix.heads.Length > 0
      invariant NotYet(ix.src, ix.heads.Length, trg, s, bytes)
      invariant !Limited(maxSize) ==> outpos < bytes
      invariant outpos + 7 <= out.Length && IsSize(out.Length, maxSize)
      invariant Layout(out[..outpos], closed + EncodeAll(ix.src, s.ops), s.lit)
      decreases |trg| - data
    {
      outpos, inscnt, data, val, m, s := Round(ix, trg, out, outpos, inscnt, data, val, m, closed, s, bytes);
      RunningFacts(ix.src, ix.heads.Length, trg, s, data, inscnt, val, m);
      out, room := EnsureRoom(out, outpos, maxSize);
      if room == NoRoom {
        return out, outpos, false;
      }
      if room == GiveUp {
        break;
      }
    }
    if room == Enough {
      LastRound(ix.src, ix.heads.Length, trg, s, data, inscnt, val, m, out[..outpos], bytes);
    }
    outpos := Finish(ix.src, ix.heads.Length, trg, out, outpos, inscnt, data, val, m, closed, s);
  }

  lemma LastRound(src: seq<byte>, hsize: nat, trg: seq<byte>, s: Enc, data: nat, inscnt: nat, val: hash, m: Match,
                  written: seq<byte>, bytes: nat)
    requires Running(src, hsize, trg, s, data, inscnt, val, m) && data == |trg|
    requires |src| < SIZE_LIMIT && hsize > 0 && NotYet(src, hsize, trg, s, bytes)
    requires ValidOps(src, s.ops) && Layout(written, Header(src, trg) + EncodeAll(src, s.ops), s.lit)
    ensures Fills(src, hsize, trg, bytes) <==> |written| >= bytes
  {
    hide Encode, Sound, EncodeAll, EncodedSize, Rolling, MeaningAll, Layout, Header, NotYet, Fills, Written;
    NotYetAtLast(src, hsize, trg, s, bytes);
    LayoutSize(src, trg, s, written);
  }

  lemma ThresholdIs(maxSize: nat)
    ensures Limited(maxSize) ==> maxSize > 0 && Threshold(maxSize) == maxSize + 1
    ensures !Limited(maxSize) ==> Threshold(maxSize) == LAST_SIZE - MAX_OP_SIZE > MAX_OP_SIZE
    ensures !Limited(maxSize) && maxSize > 0 ==> maxSize > Threshold(maxSize)
  {
  }

  lemma IndexFacts(ix: DeltaIndex)
    requires ix.Valid()
    ensures ix.heads.Length > 0
  {
  }

  lemma InitFacts(src: seq<byte>, trg: seq<byte>)
    ensures Init(trg).ops == [] && Init(trg).m == Match(0, 0) && Init(trg).data <= |trg| && ValidOps(src, [])
  {
  }

  lemma RunningFacts(src: seq<byte>, hsize: nat, trg: seq<byte>, s: Enc, data: nat, inscnt: nat, val: hash, m: Match)
    requires Running(src, hsize, trg, s, data, inscnt, val, m)
    ensures |src| < SIZE_LIMIT && |trg| < SIZE_LIMIT && hsize > 0
    ensures ValidOps(src, s.ops) && EncodedSize(src, s) <= 2 * |trg|
  {
    hide Encode, EncodedSize, Rolling, MeaningAll;
  }

  /** The state of the loop: sound, rolling, on the way to the delta of the algorithm, and not too long. */
  ghost predicate Running(src: seq<byte>, hsize: nat, trg: seq<byte>, s: Enc, data: nat, inscnt: nat, val: hash, m: Match) {
    && |src| < SIZE_LIMIT && |trg| < SIZE_LIMIT && hsize > 0
    && Sound(src, trg, s) && s.data == data && s.m == m && |s.lit| == inscnt
    && EncodedSize(src, s) <= 2 * data
    && Sound(src, trg, Init(trg)) && Encode(src, hsize, trg, s) == Encode(src, hsize, trg, Init(trg))
    && Rolling(trg, data, val, m)
  }

  method Round(ix: DeltaIndex, trg: seq<byte>, out: array<byte>, at: nat, count: nat, data: nat, val: hash, m: Match,
               ghost closed: seq<byte>, ghost s: Enc, ghost bytes: nat)
    returns (outpos: nat, inscnt: nat, data': nat, val': hash, m': Match, ghost s': Enc)
    requires ix.Valid() && data < |trg| && at + 7 <= out.Length
    requires Running(ix.src, ix.heads.Length, trg, s, data, count, val, m)
    requires ValidOps(ix.src, s.ops) && Layout(out[..at], closed + EncodeAll(ix.src, s.ops), s.lit)
    requires closed == Header(ix.src, trg) && |ix.src| < SIZE_LIMIT && NotYet(ix.src, ix.heads.Length, trg, s, bytes)
    modifies out
    ensures ix.Valid()
    ensures outpos <= at + 7 && outpos <= out.Length
    ensures
      if outpos >= bytes then Fills(ix.src, ix.heads.Length, trg, bytes)
      else NotYet(ix.src, ix.heads.Length, trg, s', bytes)
    ensures data < data' <= |trg|
    ensures Running(ix.src, ix.heads.Length, trg, s', data', inscnt, val', m')
    ensures ValidOps(ix.src, s'.ops) && Layout(out[..outpos], closed + EncodeAll(ix.src, s'.ops), s'.lit)
  {
    hide Encode, Sound, Next, Hash, EncodeAll, EncodedSize, Rolling, MeaningAll, Layout, ChainsAre, NotYet, Fills, Written, Header;
    s' := Next(ix.src, ix.heads.Length, trg, s);
    NextSize(ix.src, ix.heads.Length, trg, s);
    NextKeeps(ix.src, ix.heads.Length, trg, s);
    EncodeUnfold(ix.src, ix.heads.Length, trg, s);
    outpos, inscnt, data', val', m' := Advance(ix, trg, out, at, count, data, val, m, closed, s);
    SoundData(ix.src, trg, s');
    NotYetAfter(ix.src, ix.heads.Length, trg, s, bytes);
    LayoutSize(ix.src, trg, s', out[..outpos]);
  }

  datatype Room = Enough | GiveUp | NoRoom

  /**
    Grows the buffer when the next instruction might not fit. There is enough room exactly
    below the threshold; from there on a limit ends the encoding, and without one the buffer shrinks.
  */
  method EnsureRoom(out: array<byte>, outpos: nat, maxSize: nat) returns (out': array<byte>, room: Room)
    requires outpos <= out.Length && IsSize(out.Length, maxSize)
    ensures outpos <= out'.Length && (out' == out || fresh(out'))
    ensures out'[..outpos] == out[..outpos]
    ensures room == Enough <==> outpos < Threshold(maxSize)
    ensures room == Enough ==> outpos + 7 <= out'.Length && IsSize(out'.Length, maxSize)
    ensures room == GiveUp ==> Limited(maxSize)
    ensures room == NoRoom ==> !Limited(maxSize)
  {
    hide IsSize, Grown, Limited, Threshold;
    var outsize := out.Length;
    out', room := out, Enough;
    RoomIsThreshold(outsize, maxSize, outpos);
    if outpos >= outsize - MAX_OP_SIZE {
      outsize := Grown(outsize, maxSize);
      if maxSize > 0 && outpos > maxSize {
        return out, GiveUp;
      }
      if outsize < outpos + MAX_OP_SIZE {
        return out, NoRoom;
      }
      out' := Resize(out, outpos, outsize);
    }
  }

  /** Fills in the count of the last run of literals. */
  method Finish(src: seq<byte>, hsize: nat, trg: seq<byte>, out: array<byte>, at: nat, inscnt: nat, ghost data: nat,
                ghost val: hash, ghost m: Match, ghost closed: seq<byte>, ghost s: Enc) returns (outpos: nat)
    requires at <= out.Length && closed == Header(src, trg)
    requires Running(src, hsize, trg, s, data, inscnt, val, m)
    requires ValidOps(src, s.ops) && Layout(out[..at], closed + EncodeAll(src, s.ops), s.lit)
    modifies out
    ensures outpos == at
    ensures |src| < SIZE_LIMIT && hsize > 0 && (data == |trg| ==> out[..outpos] == DeltaOf(src, hsize, trg))
  {
    hide Encode, Sound, Hash, EncodeAll, EncodedSize, Rolling, MeaningAll, Layout, Header, DeltaOf;
    outpos := at;
    SoundData(src, trg, s);
    RunningFacts(src, hsize, trg, s, data, inscnt, val, m);
    LayoutSize(src, trg, s, out[..outpos]);
    if inscnt > 0 {
      CloseLast(src, s, closed, out[..outpos]);
      ghost var written: seq<byte> := out[..outpos];
      var slot: byte := inscnt;
      out[outpos - inscnt - 1] := slot;
      assert out[..outpos] == written[outpos - inscnt - 1 := slot];
    } else {
      NoRun(src, s, closed, out[..outpos]);
    }
    if s.data == |trg| {
      EncodeEnd(src, hsize, trg, s, out[..outpos]);
    }
  }

  lemma BeginFacts(src: seq<byte>, hsize: nat, trg: seq<byte>, val: hash, written: seq<byte>)
    requires trg != [] && |src| < SIZE_LIMIT && |trg| < SIZE_LIMIT && hsize > 0
    requires val == Hash(trg[..|Init(trg).lit|])
    requires Layout(written, Header(src, trg), Init(trg).lit)
    ensures Running(src, hsize, trg, Init(trg), |Init(trg).lit|, |Init(trg).lit|, val, Match(0, 0))
    ensures Layout(written, Header(src, trg) + EncodeAll(src, []), Init(trg).lit)
    ensures |Init(trg).lit| == Init(trg).data
  {
    hide Hash, Header, Encode;
    InitIsSound(src, trg);
    assert Header(src, trg) + [] == Header(src, trg);
    if Init(trg).data == RABIN_WINDOW {
      assert trg[RABIN_WINDOW - RABIN_WINDOW..RABIN_WINDOW] == trg[..RABIN_WINDOW];
    }
  }

  lemma LayoutSize(src: seq<byte>, trg: seq<byte>, s: Enc, written: seq<byte>)
    requires ValidOps(src, s.ops)
    requires Layout(written, Header(src, trg) + EncodeAll(src, s.ops), s.lit)
    ensures |written| == Written(src, trg, s)
    ensures |written| > |s.lit| || s.lit == []
  {
    hide EncodeAll, Header;
  }

  lemma EncodeUnfold(src: seq<byte>, hsize: nat, trg: seq<byte>, s: Enc)
    requires |src| < SIZE_LIMIT && hsize > 0 && Sound(src, trg, s) && s.data < |trg|
    ensures Sound(src, trg, Next(src, hsize, trg, s))
    ensures Encode(src, hsize, trg, s) == Encode(src, hsize, trg, Next(src, hsize, trg, s))
  {
    hide Sound, Next;
    NextKeeps(src, hsize, trg, s);
  }

  // Filling in the count of the last run completes its instruction.
  lemma CloseLast(src: seq<byte>, s: Enc, closed: seq<byte>, written: seq<byte>)
    requires ValidOps(src, s.ops) && 0 < |s.lit| < MAX_INSERT
    requires Layout(written, closed + EncodeAll(src, s.ops), s.lit)
    ensures ValidOps(src, FlushLiterals(s.lit, s.ops)) && |written| > |s.lit|
    ensures written[|written| - |s.lit| - 1 := |s.lit|] == closed + EncodeAll(src, FlushLiterals(s.lit, s.ops))
  {
    hide EncodeAll, MeaningAll;
    MeaningSnoc(src, s.ops, Insert(s.lit));
    ConcatAssociates(closed, EncodeAll(src, s.ops), EncodeInsert(s.lit));
  }

  lemma NoRun(src: seq<byte>, s: Enc, closed: seq<byte>, written: seq<byte>)
    requires ValidOps(src, s.ops) && s.lit == []
    requires Layout(written, closed + EncodeAll(src, s.ops), s.lit)
    ensures written == closed + EncodeAll(src, FlushLiterals(s.lit, s.ops))
  {
  }

  lemma EncodeEnd(src: seq<byte>, hsize: nat, trg: seq<byte>, s: Enc, written: seq<byte>)
    requires |src| < SIZE_LIMIT && hsize > 0 && Sound(src, trg, s) && s.data == |trg|
    requires Encode(src, hsize, trg, s) == (InitIsSound(src, trg); Encode(src, hsize, trg, Init(trg)))
    requires ValidOps(src, FlushLiterals(s.lit, s.ops))
    requires written == Header(src, trg) + EncodeAll(src, FlushLiterals(s.lit, s.ops))
    ensures written == DeltaOf(src, hsize, trg)
  {
    hide EncodeAll, Sound, MeaningAll, EncodeSize;
  }
}
