/**
  The binary delta format: what an instruction stream means, how instructions are
  laid out as bytes, and what applying a delta to a base does. The decoder here is
  a function of the bytes; DeltaApply runs it with buffers and pointers.
*/
module DeltaFormat {
  import opened Bytes

  const MAX_INSERT := 127
  const MAX_COPY := 0x1_0000
  const SIZE_LIMIT := 0x1_0000_0000
  const OFFSET_LIMIT := 0x8000_0000

  // ---------- instructions ----------

  datatype Op = Copy(off: nat, len: nat) | Insert(data: seq<byte>)

  predicate ValidOp(base: seq<byte>, op: Op) {
    match op
    case Copy(off, len) => 0 < len <= MAX_COPY && off + len <= |base| && off < SIZE_LIMIT
    case Insert(data) => 0 < |data| <= MAX_INSERT
  }

  predicate ValidOps(base: seq<byte>, ops: seq<Op>) {
    forall i :: 0 <= i < |ops| ==> ValidOp(base, ops[i])
  }

  /** The bytes one instruction contributes to the target. */
  function Meaning(base: seq<byte>, op: Op): (r: seq<byte>)
    requires ValidOp(base, op)
  {
    match op
    case Copy(off, len) => base[off..off + len]
    case Insert(data) => data
  }

  function MeaningAll(base: seq<byte>, ops: seq<Op>): seq<byte>
    requires ValidOps(base, ops)
  {
    if ops == [] then [] else Meaning(base, ops[0]) + MeaningAll(base, ops[1..])
  }

  // ---------- layout ----------

  function ByteAt(x: nat, weight: nat): byte
    requires weight > 0
  {
    x / weight % 0x100
  }

  // A field byte is left out when it is zero.
  function Field(b: byte): seq<byte> {
    if b == 0 then [] else [b]
  }

  function Flag(b: byte, weight: nat): nat {
    if b == 0 then 0 else weight
  }

  function CopyCommand(off: nat, len: nat): (cmd: byte)
    ensures cmd >= 0x80
  {
    0x80 + Flag(ByteAt(off, 1), 1) + Flag(ByteAt(off, 0x100), 2) + Flag(ByteAt(off, 0x1_0000), 4)
    + Flag(ByteAt(off, 0x100_0000), 8) + Flag(ByteAt(len, 1), 0x10) + Flag(ByteAt(len, 0x100), 0x20)
  }

  function EncodeCopy(off: nat, len: nat): (r: seq<byte>)
    ensures 0 < |r| <= 7
  {
    [CopyCommand(off, len)] + Field(ByteAt(off, 1)) + Field(ByteAt(off, 0x100)) + Field(ByteAt(off, 0x1_0000))
    + Field(ByteAt(off, 0x100_0000)) + Field(ByteAt(len, 1)) + Field(ByteAt(len, 0x100))
  }

  function EncodeInsert(data: seq<byte>): seq<byte>
    requires |data| <= MAX_INSERT
  {
    [|data|] + data
  }

  function EncodeOp(base: seq<byte>, op: Op): (r: seq<byte>)
    requires ValidOp(base, op)
    ensures |r| > 0
  {
    match op
    case Copy(off, len) => EncodeCopy(off, len)
    case Insert(data) => EncodeInsert(data)
  }

  function EncodeAll(base: seq<byte>, ops: seq<Op>): seq<byte>
    requires ValidOps(base, ops)
  {
    if ops == [] then [] else EncodeOp(base, ops[0]) + EncodeAll(base, ops[1..])
  }

  /** A size in base 128, least significant digit first, with a continuation bit. */
  function EncodeSize(n: nat): (r: seq<byte>)
    ensures |r| > 0
  {
    if n < 0x80 then [n] else [n % 0x80 + 0x80] + EncodeSize(n / 0x80)
  }

  lemma SizeIsShort(n: nat)
    requires n < SIZE_LIMIT
    ensures |EncodeSize(n)| <= 5
  {
    var n1 := n / 0x80;
    var n2 := n1 / 0x80;
    var n3 := n2 / 0x80;
    var n4 := n3 / 0x80;
    assert |EncodeSize(n4)| == 1;
    assert |EncodeSize(n3)| <= 2;
    assert |EncodeSize(n2)| <= 3;
    assert |EncodeSize(n1)| <= 4;
  }

  // ---------- decoding ----------

  datatype Outcome = Done(bytes: seq<byte>) | Failed | Undefined

  function Prepend(s: seq<byte>, o: Outcome): Outcome {
    match o
    case Done(t) => Done(s + t)
    case _ => o
  }

  datatype SizeRead = Size(value: nat, used: nat) | NoSize | ShiftTooFar

  /**
    The size at the head of `d`; `weight` is two to the power of the current shift.
    The shift happens on a 32-bit word, and is undefined from 32 bits on.
  */
  function ReadSize(d: seq<byte>, weight: nat): (r: SizeRead)
    ensures r.Size? ==> 0 < r.used <= |d|
  {
    if d == [] then NoSize
    else if weight >= SIZE_LIMIT then ShiftTooFar
    else
      var digit := d[0] % 0x80 * weight % SIZE_LIMIT;
      if d[0] < 0x80 then Size(digit, 1)
      else
        match ReadSize(d[1..], weight * 0x80)
        case Size(v, used) => Size(digit + v, used + 1)
        case other => other
  }

  datatype Arg = Arg(value: nat, next: nat)

  // One optional argument byte of a copy command; None when the delta has ended.
  function ReadArg(d: seq<byte>, pos: nat, present: bool): Option<Arg> {
    if !present then Some(Arg(0, pos))
    else if pos < |d| then Some(Arg(d[pos], pos + 1))
    else None
  }

  function HasBit(cmd: byte, weight: nat): bool
    requires weight > 0
  {
    cmd / weight % 2 == 1
  }

  datatype CopyArgs = CopyArgs(off: nat, len: nat, used: nat)

  /**
    The copy command at the head of `d`. None when its argument bytes are not all
    there, or when the top offset byte would be shifted into the sign of an int.
  */
  function ReadCopy(d: seq<byte>): (r: Option<CopyArgs>)
    requires d != []
    ensures r.Some? ==> 0 < r.value.used <= |d| && 0 < r.value.len
  {
    var a0 :- ReadArg(d, 1, HasBit(d[0], 1));
    var a1 :- ReadArg(d, a0.next, HasBit(d[0], 2));
    var a2 :- ReadArg(d, a1.next, HasBit(d[0], 4));
    var a3 :- ReadArg(d, a2.next, HasBit(d[0], 8));
    if a3.value >= 0x80 then None
    else
      var b0 :- ReadArg(d, a3.next, HasBit(d[0], 0x10));
      var b1 :- ReadArg(d, b0.next, HasBit(d[0], 0x20));
      var b2 :- ReadArg(d, b1.next, HasBit(d[0], 0x40));
      var off := a0.value + 0x100 * a1.value + 0x1_0000 * a2.value + 0x100_0000 * a3.value;
      var len := b0.value + 0x100 * b1.value + 0x1_0000 * b2.value;
      Some(CopyArgs(off, if len == 0 then MAX_COPY else len, b2.next))
  }

  datatype Instruction = Emit(chunk: seq<byte>, used: nat) | Stop(why: Outcome)

  /** What the first instruction of `d` does when `room` bytes of the target are left to fill. */
  function Decode(base: seq<byte>, d: seq<byte>, room: nat): (r: Instruction)
    requires d != []
    ensures r.Emit? ==> 0 < r.used <= |d| && |r.chunk| <= room
    ensures r.Stop? ==> !r.why.Done?
  {
    if d[0] >= 0x80 then
      match ReadCopy(d)
      case None => Stop(Undefined)
      case Some(CopyArgs(off, len, used)) =>
        if |base| < off + len || room < len then Stop(Failed) else Emit(base[off..off + len], used)
    else if d[0] > 0 then
      if |d| - 1 < d[0] || room < d[0] then Stop(Failed) else Emit(d[1..1 + d[0]], 1 + d[0])
    else
      Stop(Failed)
  }

  /** Run the instructions `d` with `room` bytes of the target left to fill. */
  function Run(base: seq<byte>, d: seq<byte>, room: nat): Outcome
    decreases |d|
  {
    if d == [] then
      if room == 0 then Done([]) else Failed
    else
      match Decode(base, d, room)
      case Stop(why) => why
      case Emit(chunk, used) => Prepend(chunk, Run(base, d[used..], room - |chunk|))
  }

  /** What applying the delta `d` to `base` gives. */
  function Apply(base: seq<byte>, d: seq<byte>): Outcome {
    match ReadSize(d, 1)
    case NoSize => Failed
    case ShiftTooFar => Undefined
    case Size(baseSize, used) =>
      if baseSize != |base| then Failed
      else
        match ReadSize(d[used..], 1)
        case NoSize => Failed
        case ShiftTooFar => Undefined
        case Size(room, used') => Run(base, d[used..][used'..], room)
  }

  // ---------- decoding undoes encoding ----------

  lemma {:induction false} MeaningConcat(base: seq<byte>, a: seq<Op>, b: seq<Op>)
    requires ValidOps(base, a) && ValidOps(base, b)
    ensures ValidOps(base, a + b)
    ensures MeaningAll(base, a + b) == MeaningAll(base, a) + MeaningAll(base, b)
  {
    hide Meaning, ValidOp;
    if a == [] {
      assert a + b == b;
    } else {
      assert (a + b)[0] == a[0] && (a + b)[1..] == a[1..] + b;
      MeaningConcat(base, a[1..], b);
      ConcatAssociates(Meaning(base, a[0]), MeaningAll(base, a[1..]), MeaningAll(base, b));
    }
  }

  lemma {:induction false} EncodeConcat(base: seq<byte>, a: seq<Op>, b: seq<Op>)
    requires ValidOps(base, a) && ValidOps(base, b)
    ensures ValidOps(base, a + b)
    ensures EncodeAll(base, a + b) == EncodeAll(base, a) + EncodeAll(base, b)
  {
    hide EncodeOp, ValidOp;
    if a == [] {
      assert a + b == b;
    } else {
      assert (a + b)[0] == a[0] && (a + b)[1..] == a[1..] + b;
      EncodeConcat(base, a[1..], b);
      ConcatAssociates(EncodeOp(base, a[0]), EncodeAll(base, a[1..]), EncodeAll(base, b));
    }
  }

  lemma WeightedDigits(n: nat, weight: nat)
    ensures n % 0x80 * weight + n / 0x80 * (weight * 0x80) == n * weight
    ensures 0 <= n % 0x80 * weight
    ensures 0 <= n / 0x80 * (weight * 0x80)
    ensures n >= 0x80 ==> weight * 0x80 <= n / 0x80 * (weight * 0x80)
  {
    var q, r := n / 0x80, n % 0x80;
    assert n == 0x80 * q + r;
    assert q * (weight * 0x80) == (0x80 * q) * weight;
    if q >= 1 {
      Grows(q, weight * 0x80);
    }
  }

  lemma Grows(q: nat, w: nat)
    requires q >= 1
    ensures w <= q * w
  {
  }

  /** A size below 2^32 is read back. */
  lemma {:induction false} SizeRoundTrip(n: nat, post: seq<byte>, weight: nat)
    requires 0 < weight < SIZE_LIMIT && n * weight < SIZE_LIMIT
    ensures ReadSize(EncodeSize(n) + post, weight) == Size(n * weight, |EncodeSize(n)|)
    decreases n
  {
    hide ReadSize, EncodeSize;
    if n < 0x80 {
      SizeEnds(n, post, weight);
    } else {
      var q, digit := n / 0x80, n % 0x80 + 0x80;
      WeightedDigits(n, weight);
      SizeRoundTrip(q, post, weight * 0x80);
      SizeGoesOn(n);
      ConcatAssociates([digit], EncodeSize(q), post);
      ReadSizeMore(digit, EncodeSize(q) + post, weight);
    }
  }

  lemma SizeEnds(n: nat, post: seq<byte>, weight: nat)
    requires n < 0x80 && weight < SIZE_LIMIT && n * weight < SIZE_LIMIT
    ensures ReadSize(EncodeSize(n) + post, weight) == Size(n * weight, |EncodeSize(n)|)
  {
    assert (EncodeSize(n) + post)[0] == n;
  }

  lemma SizeStops(n: nat)
    requires n < 0x80
    ensures EncodeSize(n) == [n]
  {
  }

  lemma SizeGoesOn(n: nat)
    requires n >= 0x80
    ensures EncodeSize(n) == [n % 0x80 + 0x80] + EncodeSize(n / 0x80)
  {
  }

  lemma ReadSizeMore(digit: byte, rest: seq<byte>, weight: nat)
    requires weight < SIZE_LIMIT && digit >= 0x80 && ReadSize(rest, weight * 0x80).Size?
    ensures var r := ReadSize(rest, weight * 0x80);
            ReadSize([digit] + rest, weight) == Size(digit % 0x80 * weight % SIZE_LIMIT + r.value, r.used + 1)
  {
    assert ([digit] + rest)[1..] == rest;
  }

  lemma ReadField(d: seq<byte>, pre: seq<byte>, b: byte, present: bool, post: seq<byte>)
    requires d == pre + Field(b) + post
    requires present == (b != 0)
    ensures d == pre + (Field(b) + post)
    ensures ReadArg(d, |pre|, present) == Some(Arg(b, |pre + Field(b)|))
  {
  }

  lemma ReadNoArg(d: seq<byte>, pos: nat, present: bool)
    requires !present
    ensures ReadArg(d, pos, present) == Some(Arg(0, pos))
  {
  }

  lemma CommandBits(f0: bool, f1: bool, f2: bool, f3: bool, f4: bool, f5: bool, cmd: byte)
    requires cmd == 0x80 + (if f0 then 1 else 0) + (if f1 then 2 else 0) + (if f2 then 4 else 0)
                  + (if f3 then 8 else 0) + (if f4 then 0x10 else 0) + (if f5 then 0x20 else 0)
    ensures HasBit(cmd, 1) == f0 && HasBit(cmd, 2) == f1 && HasBit(cmd, 4) == f2 && HasBit(cmd, 8) == f3
    ensures HasBit(cmd, 0x10) == f4 && HasBit(cmd, 0x20) == f5 && !HasBit(cmd, 0x40)
  {
  }

  lemma OffsetBytes(off: nat)
    requires off < SIZE_LIMIT
    ensures ByteAt(off, 1) + 0x100 * ByteAt(off, 0x100) + 0x1_0000 * ByteAt(off, 0x1_0000)
            + 0x100_0000 * ByteAt(off, 0x100_0000) == off
    ensures ByteAt(off, 0x100_0000) >= 0x80 <==> off >= OFFSET_LIMIT
  {
    assert off / 0x1_0000 == off / 0x100 / 0x100 && off / 0x100_0000 == off / 0x100 / 0x100 / 0x100;
  }

  lemma LengthBytes(len: nat)
    requires 0 < len <= MAX_COPY
    ensures ByteAt(len, 1) + 0x100 * ByteAt(len, 0x100) == if len == MAX_COPY then 0 else len
  {
  }

  lemma CommandOf(off: nat, len: nat)
    ensures var cmd := CopyCommand(off, len);
            && HasBit(cmd, 1) == (ByteAt(off, 1) != 0)
            && HasBit(cmd, 2) == (ByteAt(off, 0x100) != 0)
            && HasBit(cmd, 4) == (ByteAt(off, 0x1_0000) != 0)
            && HasBit(cmd, 8) == (ByteAt(off, 0x100_0000) != 0)
            && HasBit(cmd, 0x10) == (ByteAt(len, 1) != 0)
            && HasBit(cmd, 0x20) == (ByteAt(len, 0x100) != 0)
            && !HasBit(cmd, 0x40)
  {
    hide ByteAt, HasBit;
    CommandBits(ByteAt(off, 1) != 0, ByteAt(off, 0x100) != 0, ByteAt(off, 0x1_0000) != 0,
                ByteAt(off, 0x100_0000) != 0, ByteAt(len, 1) != 0, ByteAt(len, 0x100) != 0, CopyCommand(off, len));
  }

  /** A copy command is read back, provided its offset is below 2^31; otherwise reading it is undefined. */
  lemma CopyRoundTrip(off: nat, len: nat, post: seq<byte>)
    requires off < SIZE_LIMIT && 0 < len <= MAX_COPY
    ensures ReadCopy(EncodeCopy(off, len) + post)
         == if off < OFFSET_LIMIT then Some(CopyArgs(off, len, |EncodeCopy(off, len)|)) else None
  {
    CommandOf(off, len);
    OffsetBytes(off);
    LengthBytes(len);
    hide Field, CopyCommand, HasBit, ReadCopy, ByteAt;
    ReadFields(CopyCommand(off, len), ByteAt(off, 1), ByteAt(off, 0x100), ByteAt(off, 0x1_0000),
               ByteAt(off, 0x100_0000), ByteAt(len, 1), ByteAt(len, 0x100), post);
  }

  lemma ReadCopyFrom(d: seq<byte>, b0: byte, b1: byte, b2: byte, b3: byte, c0: byte, c1: byte,
                     p1: nat, p2: nat, p3: nat, p4: nat, p5: nat, p6: nat)
    requires d != []
    requires ReadArg(d, 1, HasBit(d[0], 1)) == Some(Arg(b0, p1))
    requires ReadArg(d, p1, HasBit(d[0], 2)) == Some(Arg(b1, p2))
    requires ReadArg(d, p2, HasBit(d[0], 4)) == Some(Arg(b2, p3))
    requires ReadArg(d, p3, HasBit(d[0], 8)) == Some(Arg(b3, p4))
    requires ReadArg(d, p4, HasBit(d[0], 0x10)) == Some(Arg(c0, p5))
    requires ReadArg(d, p5, HasBit(d[0], 0x20)) == Some(Arg(c1, p6))
    requires ReadArg(d, p6, HasBit(d[0], 0x40)) == Some(Arg(0, p6))
    ensures
      var off := b0 + 0x100 * b1 + 0x1_0000 * b2 + 0x100_0000 * b3;
      var len := c0 + 0x100 * c1;
      ReadCopy(d) == if b3 >= 0x80 then None else Some(CopyArgs(off, if len == 0 then MAX_COPY else len, p6))
  {
    hide ReadArg, HasBit;
  }

  lemma ReadFields(cmd: byte, b0: byte, b1: byte, b2: byte, b3: byte, c0: byte, c1: byte, post: seq<byte>)
    requires HasBit(cmd, 1) == (b0 != 0) && HasBit(cmd, 2) == (b1 != 0) && HasBit(cmd, 4) == (b2 != 0)
    requires HasBit(cmd, 8) == (b3 != 0) && HasBit(cmd, 0x10) == (c0 != 0) && HasBit(cmd, 0x20) == (c1 != 0)
    requires !HasBit(cmd, 0x40)
    ensures
      var s := [cmd] + Field(b0) + Field(b1) + Field(b2) + Field(b3) + Field(c0) + Field(c1);
      var off := b0 + 0x100 * b1 + 0x1_0000 * b2 + 0x100_0000 * b3;
      var len := c0 + 0x100 * c1;
      ReadCopy(s + post)
      == if b3 >= 0x80 then None else Some(CopyArgs(off, if len == 0 then MAX_COPY else len, |s|))
  {
    hide Field, ReadArg, HasBit, ReadCopy;
    var p0 := [cmd];
    var p1 := p0 + Field(b0);
    var p2 := p1 + Field(b1);
    var p3 := p2 + Field(b2);
    var p4 := p3 + Field(b3);
    var p5 := p4 + Field(c0);
    var p6 := p5 + Field(c1);
    var d := p6 + post;
    ReadField(d, p5, c1, HasBit(cmd, 0x20), post);
    ReadField(d, p4, c0, HasBit(cmd, 0x10), Field(c1) + post);
    ReadField(d, p3, b3, HasBit(cmd, 8), Field(c0) + (Field(c1) + post));
    ReadField(d, p2, b2, HasBit(cmd, 4), Field(b3) + (Field(c0) + (Field(c1) + post)));
    ReadField(d, p1, b1, HasBit(cmd, 2), Field(b2) + (Field(b3) + (Field(c0) + (Field(c1) + post))));
    ReadField(d, p0, b0, HasBit(cmd, 1), Field(b1) + (Field(b2) + (Field(b3) + (Field(c0) + (Field(c1) + post)))));
    ReadNoArg(d, |p6|, HasBit(cmd, 0x40));
    ReadCopyFrom(d, b0, b1, b2, b3, c0, c1, |p1|, |p2|, |p3|, |p4|, |p5|, |p6|);
  }

  predicate OffsetsFit(ops: seq<Op>) {
    forall i :: 0 <= i < |ops| && ops[i].Copy? ==> ops[i].off < OFFSET_LIMIT
  }

  lemma DecodeCopy(base: seq<byte>, off: nat, len: nat, post: seq<byte>, room: nat)
    requires ValidOp(base, Copy(off, len)) && len <= room
    ensures Decode(base, EncodeCopy(off, len) + post, room)
         == if off >= OFFSET_LIMIT then Stop(Undefined) else Emit(base[off..off + len], |EncodeCopy(off, len)|)
  {
    assert EncodeCopy(off, len)[0] >= 0x80;
    hide ReadCopy, EncodeCopy;
    CopyRoundTrip(off, len, post);
  }

  lemma DecodeInsert(base: seq<byte>, data: seq<byte>, post: seq<byte>, room: nat)
    requires ValidOp(base, Insert(data)) && |data| <= room
    ensures Decode(base, EncodeInsert(data) + post, room) == Emit(data, |EncodeInsert(data)|)
  {
  }

  /** One encoded instruction runs to its meaning, followed by whatever comes after it. */
  lemma RunOp(base: seq<byte>, op: Op, post: seq<byte>, room: nat)
    requires ValidOp(base, op) && |Meaning(base, op)| <= room
    ensures Run(base, EncodeOp(base, op) + post, room)
         == if op.Copy? && op.off >= OFFSET_LIMIT then Undefined
            else Prepend(Meaning(base, op), Run(base, post, room - |Meaning(base, op)|))
  {
    hide Decode, EncodeCopy, EncodeInsert;
    var code := EncodeOp(base, op);
    assert (code + post)[|code|..] == post;
    match op
    case Copy(off, len) => DecodeCopy(base, off, len, post, room);
    case Insert(data) => DecodeInsert(base, data, post, room);
  }

  /**
    An encoded instruction list runs to its meaning exactly when every copied offset
    is below 2^31, and is undefined otherwise.
  */
  lemma {:induction false} RunAll(base: seq<byte>, ops: seq<Op>)
    requires ValidOps(base, ops)
    ensures Run(base, EncodeAll(base, ops), |MeaningAll(base, ops)|)
         == if OffsetsFit(ops) then Done(MeaningAll(base, ops)) else Undefined
    decreases |ops|
  {
    hide EncodeOp, Meaning, Run, OffsetsFit, ValidOp;
    if ops == [] {
      RunNothing(base);
      OffsetsFitRest(ops);
    } else {
      OffsetsFitRest(ops);
      RunOp(base, ops[0], EncodeAll(base, ops[1..]), |MeaningAll(base, ops)|);
      RunAll(base, ops[1..]);
    }
  }

  lemma RunNothing(base: seq<byte>)
    ensures Run(base, [], 0) == Done([])
  {
  }

  lemma OffsetsFitRest(ops: seq<Op>)
    ensures OffsetsFit(ops) == (ops == [] || (OffsetsFit(ops[1..]) && (ops[0].Copy? ==> ops[0].off < OFFSET_LIMIT)))
  {
    if ops != [] {
      assert ops == [ops[0]] + ops[1..];
    }
  }

  /** A whole delta: the two sizes and the instructions. */
  function EncodeDelta(base: seq<byte>, ops: seq<Op>, size: nat): seq<byte>
    requires ValidOps(base, ops)
  {
    EncodeSize(|base|) + EncodeSize(size) + EncodeAll(base, ops)
  }

  /** Applying a delta to its base gives back what its instructions mean. */
  lemma DeltaRoundTrip(base: seq<byte>, ops: seq<Op>)
    requires ValidOps(base, ops)
    requires |base| < SIZE_LIMIT && |MeaningAll(base, ops)| < SIZE_LIMIT
    ensures Apply(base, EncodeDelta(base, ops, |MeaningAll(base, ops)|))
         == if OffsetsFit(ops) then Done(MeaningAll(base, ops)) else Undefined
  {
    var size := |MeaningAll(base, ops)|;
    var h1, h2, body := EncodeSize(|base|), EncodeSize(size), EncodeAll(base, ops);
    var d := h1 + h2 + body;
    hide EncodeSize, EncodeAll, MeaningAll, ReadSize, Run;
    assert d == h1 + (h2 + body);
    SizeRoundTrip(|base|, h2 + body, 1);
    SizeRoundTrip(size, body, 1);
    assert d[|h1|..] == h2 + body;
    assert d[|h1|..][|h2|..] == body;
    RunAll(base, ops);
  }

  // ---------- what is refused ----------

  /** A delta is refused for a base of any other size than that of its own base. */
  lemma OtherBaseFails(base: seq<byte>, other: seq<byte>, ops: seq<Op>, size: nat)
    requires ValidOps(base, ops) && |base| < SIZE_LIMIT && |other| != |base|
    ensures Apply(other, EncodeDelta(base, ops, size)) == Failed
  {
    hide EncodeSize, EncodeAll, ReadSize, Run;
    var rest := EncodeSize(size) + EncodeAll(base, ops);
    assert EncodeDelta(base, ops, size) == EncodeSize(|base|) + rest;
    SizeRoundTrip(|base|, rest, 1);
  }

  lemma {:induction false} RunFillsRoom(base: seq<byte>, d: seq<byte>, room: nat)
    ensures Run(base, d, room).Done? ==> |Run(base, d, room).bytes| == room
    decreases |d|
  {
    hide Decode;
    if d != [] && Decode(base, d, room).Emit? {
      var chunk, used := Decode(base, d, room).chunk, Decode(base, d, room).used;
      RunFillsRoom(base, d[used..], room - |chunk|);
    }
  }

  /** A delta that is not refused announces the size of the base and the size of what it builds. */
  lemma SizesAreChecked(base: seq<byte>, d: seq<byte>)
    requires Apply(base, d).Done?
    ensures
      var first := ReadSize(d, 1);
      first.Size? && first.value == |base| &&
      var second := ReadSize(d[first.used..], 1);
      second.Size? && second.value == |Apply(base, d).bytes|
  {
    hide ReadSize, Run;
    var rest := d[ReadSize(d, 1).used..];
    var second := ReadSize(rest, 1);
    RunFillsRoom(base, rest[second.used..], second.value);
  }
}
