/** The delta decoder as it runs: a read position in the delta and a fill position in the result. */
module DeltaApply {
  import opened Bytes
  import opened DeltaFormat

  // Continue a size of which `used` bytes, worth `acc`, have been read.
  function Continue(acc: nat, used: nat, rest: SizeRead): SizeRead {
    match rest
    case Size(v, n) => Size(acc + v, used + n)
    case other => other
  }

  method ReadHeaderSize(delta: seq<byte>, start: nat) returns (r: SizeRead)
    requires start <= |delta|
    ensures r == ReadSize(delta[start..], 1)
  {
    var pos: nat, size: nat, weight: nat := start, 0, 1;
    while true
      invariant start <= pos <= |delta|
      invariant ReadSize(delta[start..], 1) == Continue(size, pos - start, ReadSize(delta[pos..], weight))
      decreases |delta| - pos
    {
      if pos == |delta| {
        return NoSize;
      }
      if weight >= SIZE_LIMIT {
        return ShiftTooFar;
      }
      var c := delta[pos];
      assert delta[pos..][1..] == delta[pos + 1..];
      pos := pos + 1;
      size := size + c % 0x80 * weight % SIZE_LIMIT;
      weight := weight * 0x80;
      if c < 0x80 {
        return Size(size, pos - start);
      }
    }
  }

  method CopyInto(dst: array<byte>, at: nat, src: seq<byte>)
    requires at + |src| <= dst.Length
    modifies dst
    ensures dst[..at + |src|] == old(dst[..at]) + src
    ensures dst[at + |src|..] == old(dst[at + |src|..])
  {
    for i := 0 to |src|
      invariant dst[..at + i] == old(dst[..at]) + src[..i]
      invariant dst[at + i..] == old(dst[at + i..])
    {
      dst[at + i] := src[i];
      assert src[..i + 1] == src[..i] + [src[i]];
      assert dst[..at + i + 1] == dst[..at + i] + [src[i]];
      assert dst[at + i + 1..] == dst[at + i..][1..];
    }
    assert src[..|src|] == src;
  }

  /** Apply `delta` to `base`. The result is exactly what the format says the delta does. */
  method ApplyDelta(base: seq<byte>, delta: seq<byte>) returns (r: Outcome)
    ensures r == Apply(base, delta)
  {
    hide ReadSize, Run;
    var baseSize := ReadHeaderSize(delta, 0);
    assert delta[0..] == delta;
    match baseSize {
      case NoSize => return Failed;
      case ShiftTooFar => return Undefined;
      case Size(size, used) =>
        if size != |base| {
          return Failed;
        }
        var resultSize := ReadHeaderSize(delta, used);
        match resultSize {
          case NoSize => return Failed;
          case ShiftTooFar => return Undefined;
          case Size(room, used') =>
            assert delta[used..][used'..] == delta[used + used'..];
            r := RunInstructions(base, delta, used + used', room);
        }
    }
  }

  // One flagged argument byte; `ok` is false when the delta has ended.
  method TakeArgument(d: seq<byte>, p: nat, present: bool) returns (ok: bool, value: nat, p': nat)
    ensures ReadArg(d, p, present) == if ok then Some(Arg(value, p')) else None
  {
    ok, value, p' := true, 0, p;
    if present {
      if p >= |d| {
        ok := false;
      } else {
        value, p' := d[p], p + 1;
      }
    }
  }

  /** Reads the argument bytes that the flags of the command at the head of `d` announce. */
  method ReadCopyArguments(d: seq<byte>) returns (r: Option<CopyArgs>)
    requires d != []
    ensures r == ReadCopy(d)
  {
    hide ReadArg, HasBit;
    var cmd, p, off: nat, len: nat := d[0], 1, 0, 0;
    var ok, v;
    ok, off, p := TakeArgument(d, p, HasBit(cmd, 1));
    if !ok { return None; }
    ok, v, p := TakeArgument(d, p, HasBit(cmd, 2));
    if !ok { return None; }
    off := off + 0x100 * v;
    ok, v, p := TakeArgument(d, p, HasBit(cmd, 4));
    if !ok { return None; }
    off := off + 0x1_0000 * v;
    ok, v, p := TakeArgument(d, p, HasBit(cmd, 8));
    if !ok || v >= 0x80 { return None; }
    off := off + 0x100_0000 * v;
    ok, len, p := TakeArgument(d, p, HasBit(cmd, 0x10));
    if !ok { return None; }
    ok, v, p := TakeArgument(d, p, HasBit(cmd, 0x20));
    if !ok { return None; }
    len := len + 0x100 * v;
    ok, v, p := TakeArgument(d, p, HasBit(cmd, 0x40));
    if !ok { return None; }
    len := len + 0x1_0000 * v;
    if len == 0 {
      len := MAX_COPY;
    }
    return Some(CopyArgs(off, len, p));
  }

  lemma PrependTwice(a: seq<byte>, b: seq<byte>, o: Outcome)
    ensures Prepend(a, Prepend(b, o)) == Prepend(a + b, o)
  {
    if o.Done? {
      ConcatAssociates(a, b, o.bytes);
    }
  }

  /** Decodes the instruction at the head of `d`, checking it against the base and the room left. */
  method NextInstruction(base: seq<byte>, d: seq<byte>, room: nat) returns (r: Instruction)
    requires d != []
    ensures r == Decode(base, d, room)
  {
    var cmd := d[0];
    if cmd >= 0x80 {
      var args := ReadCopyArguments(d);
      if args.None? {
        return Stop(Undefined);
      }
      var CopyArgs(off, len, used) := args.value;
      if |base| < off + len || room < len {
        return Stop(Failed);
      }
      return Emit(base[off..off + len], used);
    } else if cmd > 0 {
      if |d| - 1 < cmd || room < cmd {
        return Stop(Failed);
      }
      return Emit(d[1..1 + cmd], 1 + cmd);
    }
    return Stop(Failed);
  }

  lemma RunStep(base: seq<byte>, d: seq<byte>, room: nat)
    requires d != []
    ensures Run(base, d, room) ==
            var next := Decode(base, d, room);
            if next.Stop? then next.why else Prepend(next.chunk, Run(base, d[next.used..], room - |next.chunk|))
  {
  }

  lemma RunEnd(base: seq<byte>, room: nat)
    ensures Run(base, [], room) == if room == 0 then Done([]) else Failed
  {
  }

  method RunInstructions(base: seq<byte>, delta: seq<byte>, start: nat, size: nat) returns (r: Outcome)
    requires start <= |delta|
    ensures r == Run(base, delta[start..], size)
  {
    hide Decode, Run;
    var result := new byte[size](_ => 0);
    var pos: nat, filled: nat, room: nat := start, 0, size;
    while pos < |delta|
      invariant start <= pos <= |delta|
      invariant filled + room == size == result.Length
      invariant Run(base, delta[start..], size) == Prepend(result[..filled], Run(base, delta[pos..], room))
    {
      var next := NextInstruction(base, delta[pos..], room);
      RunStep(base, delta[pos..], room);
      if next.Stop? {
        return next.why;
      }
      var Emit(chunk, used) := next;
      assert delta[pos..][used..] == delta[pos + used..];
      PrependTwice(result[..filled], chunk, Run(base, delta[pos + used..], room - |chunk|));
      CopyInto(result, filled, chunk);
      pos, filled, room := pos + used, filled + |chunk|, room - |chunk|;
    }
    RunEnd(base, room);
    assert delta[pos..] == [];
    if room != 0 {
      return Failed;
    }
    assert result[..filled] + [] == result[..];
    return Done(result[..]);
  }
}
