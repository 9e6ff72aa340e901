/** Text heuristics and line-ending transforms on buffers (buf_text.c). */
module TextBuffers {
  import opened Bytes

  const CR: byte := 13
  const LF: byte := 10
  const END_OF_FILE: byte := 26

  // ---- Transforms -----------------------------------------------------------

  // Every CR that stands before an LF is dropped.
  function CrlfToLf(s: seq<byte>): (r: seq<byte>)
    ensures |r| <= |s|
  {
    if s == [] then []
    else if s[0] == CR && 1 < |s| && s[1] == LF then CrlfToLf(s[1..])
    else [s[0]] + CrlfToLf(s[1..])
  }

  // A CR is put before every LF that has none; `afterCr` tells what came before `s`.
  function Widen(s: seq<byte>, afterCr: bool): seq<byte> {
    if s == [] then []
    else (if s[0] == LF && !afterCr then [CR, LF] else [s[0]]) + Widen(s[1..], s[0] == CR)
  }

  function LfToCrlf(s: seq<byte>): seq<byte> {
    Widen(s, false)
  }

  // ---- Buffers --------------------------------------------------------------

  /** A growing buffer: `data.Length` bytes are allocated, the first `size` are used and a NUL follows them. */
  class Buffer {
    var data: array<byte>
    var size: nat

    constructor ()
      ensures Terminated() && Contents() == [] && fresh(data)
    {
      data := new byte[0];
      size := 0;
    }

    ghost predicate Valid()
      reads this
    {
      size <= data.Length
    }

    ghost predicate Terminated()
      reads this, data
    {
      Valid() && (data.Length == 0 || (size < data.Length && data[size] == 0))
    }

    ghost function Contents(): seq<byte>
      requires Valid()
      reads this, data
    {
      data[..size]
    }

    method Grow(target: nat)
      requires Valid() && 0 < target
      modifies this, data
      ensures Valid() && target <= data.Length
      ensures data == old(data) || fresh(data)
      ensures size == old(size) && Contents() == old(Contents())
    {
      if target <= data.Length {
        return;
      }
      var newSize := if data.Length == 0 then target else data.Length;
      while newSize < target
        invariant 0 < newSize
        decreases target - newSize
      {
        newSize := 2 * newSize - newSize / 2;
      }
      newSize := (newSize + 7) / 8 * 8;
      var grown := new byte[newSize];
      var i := 0;
      while i < size
        modifies grown
        invariant i <= size
        invariant grown[..i] == data[..i]
      {
        grown[i] := data[i];
        i := i + 1;
      }
      data := grown;
      data[size] := 0;
    }

    // memcpy to the end of what is used, without ending the string.
    method Append(bytes: seq<byte>)
      requires Valid() && size + |bytes| < data.Length
      modifies this`size, data
      ensures Valid() && data == old(data)
      ensures Contents() == old(Contents()) + bytes
      ensures size == old(size) + |bytes|
    {
      var i := 0;
      while i < |bytes|
        invariant i <= |bytes| && size == old(size)
        invariant data[..size + i] == old(Contents()) + bytes[..i]
      {
        data[size + i] := bytes[i];
        i := i + 1;
      }
      size := size + |bytes|;
    }

    method Put(bytes: seq<byte>)
      requires Valid()
      modifies this, data
      ensures Terminated() && (data == old(data) || fresh(data))
      ensures Contents() == old(Contents()) + bytes
    {
      if data.Length < size + |bytes| + 1 {
        Grow(size + |bytes| + 1);
      }
      Append(bytes);
      data[size] := 0;
    }

    method Set(bytes: seq<byte>)
      requires Valid()
      modifies this, data
      ensures Terminated() && (data == old(data) || fresh(data))
      ensures Contents() == bytes
    {
      size := 0;
      if bytes == [] {
        if data.Length > 0 {
          data[0] := 0;
        }
      } else {
        Put(bytes);
      }
    }
  }

  method FindByte(s: seq<byte>, b: byte, from: nat) returns (i: nat)
    requires from <= |s|
    ensures from <= i <= |s| && (i < |s| ==> s[i] == b)
    ensures forall k :: from <= k < i ==> s[k] != b
  {
    i := from;
    while i < |s| && s[i] != b
      invariant from <= i <= |s|
      invariant forall k :: from <= k < i ==> s[k] != b
    {
      i := i + 1;
    }
  }

  lemma {:induction false} NarrowSkips(s: seq<byte>, from: nat, to: nat)
    requires from <= to <= |s| && forall k :: from <= k < to ==> s[k] != CR
    ensures CrlfToLf(s[from..]) == s[from..to] + CrlfToLf(s[to..])
    decreases |s| - from
  {
    if from < to {
      NarrowSkips(s, from + 1, to);
      assert s[from..][1..] == s[from + 1..];
      ConcatAssociates([s[from]], s[from + 1..to], CrlfToLf(s[to..]));
      assert [s[from]] + s[from + 1..to] == s[from..to];
    } else {
      assert s[from..to] == [];
    }
  }

  // What is kept of the CR at `at`.
  function KeptCr(s: seq<byte>, at: nat): seq<byte> {
    if at + 1 < |s| && s[at + 1] == LF then [] else [CR]
  }

  lemma NarrowChunk(s: seq<byte>, from: nat, at: nat)
    requires from <= at < |s| && s[at] == CR && forall k :: from <= k < at ==> s[k] != CR
    ensures CrlfToLf(s[from..]) == (s[from..at] + KeptCr(s, at)) + CrlfToLf(s[at + 1..])
  {
    NarrowSkips(s, from, at);
    assert s[at..][1..] == s[at + 1..];
    ConcatAssociates(s[from..at], KeptCr(s, at), CrlfToLf(s[at + 1..]));
  }

  // Without a CR there is nothing to drop.
  lemma NarrowNothing(s: seq<byte>, from: nat)
    requires from <= |s| && CR !in s[from..]
    ensures CrlfToLf(s[from..]) == s[from..]
  {
    forall k | from <= k < |s| ensures s[k] != CR {
      assert s[k] == s[from..][k - from];
    }
    NarrowSkips(s, from, |s|);
    assert s[|s|..] == [];
  }

  method CopyUpToCr(tgt: Buffer, src: seq<byte>, scan: nat, next: nat)
    requires scan <= next < |src| && src[next] == CR
    requires tgt.Valid() && tgt.size <= scan && |src| < tgt.data.Length
    modifies tgt`size, tgt.data
    ensures tgt.Valid() && tgt.size <= next + 1 && tgt.data == old(tgt.data)
    ensures tgt.Contents() == old(tgt.Contents()) + (src[scan..next] + KeptCr(src, next))
  {
    if scan < next {
      tgt.Append(src[scan..next]);
    }
    assert tgt.Contents() == old(tgt.Contents()) + src[scan..next];
    if next + 1 == |src| || src[next + 1] != LF {
      tgt.Append([CR]);
    }
    ConcatAssociates(old(tgt.Contents()), src[scan..next], KeptCr(src, next));
  }

  method NarrowInto(tgt: Buffer, src: seq<byte>)
    requires tgt.Valid()
    modifies tgt, tgt.data
    ensures tgt.Terminated() && (tgt.data == old(tgt.data) || fresh(tgt.data))
    ensures tgt.Contents() == CrlfToLf(src)
  {
    hide CrlfToLf, KeptCr;
    assert src[0..] == src;
    var next := FindByte(src, CR, 0);
    if next == |src| {
      NarrowNothing(src, 0);
      tgt.Set(src);
      return;
    }
    tgt.Grow(|src| + 1);
    tgt.size := 0;
    var scan := 0;
    while next < |src|
      invariant scan <= next <= |src| && (next < |src| ==> src[next] == CR)
      invariant forall k :: scan <= k < next ==> src[k] != CR
      invariant tgt.Valid() && |src| < tgt.data.Length && tgt.size <= scan
      invariant tgt.data == old(tgt.data) || fresh(tgt.data)
      invariant CrlfToLf(src) == tgt.Contents() + CrlfToLf(src[scan..])
      decreases |src| - next
    {
      NarrowChunk(src, scan, next);
      ConcatAssociates(tgt.Contents(), src[scan..next] + KeptCr(src, next), CrlfToLf(src[next + 1..]));
      CopyUpToCr(tgt, src, scan, next);
      scan := next + 1;
      next := FindByte(src, CR, scan);
    }
    NarrowNothing(src, scan);
    if scan < |src| {
      tgt.Append(src[scan..]);
    }
    tgt.data[tgt.size] := 0;
  }

  predicate AfterCr(s: seq<byte>, i: nat)
    requires i <= |s|
  {
    0 < i && s[i - 1] == CR
  }

  // What the LF at `at` becomes.
  function Ending(s: seq<byte>, at: nat): seq<byte>
    requires at < |s|
  {
    if AfterCr(s, at) then [LF] else [CR, LF]
  }

  lemma {:induction false} WidenSkips(s: seq<byte>, from: nat, at: nat)
    requires from <= at <= |s| && forall k :: from <= k < at ==> s[k] != LF
    ensures Widen(s[from..], AfterCr(s, from)) == s[from..at] + Widen(s[at..], AfterCr(s, at))
    decreases |s| - from
  {
    if from < at {
      WidenSkips(s, from + 1, at);
      assert s[from..][1..] == s[from + 1..];
      ConcatAssociates([s[from]], s[from + 1..at], Widen(s[at..], AfterCr(s, at)));
      assert [s[from]] + s[from + 1..at] == s[from..at];
    } else {
      assert s[from..at] == [];
    }
  }

  lemma WidenChunk(s: seq<byte>, from: nat, at: nat)
    requires from <= at < |s| && s[at] == LF && forall k :: from <= k < at ==> s[k] != LF
    ensures Widen(s[from..], AfterCr(s, from))
         == (s[from..at] + Ending(s, at)) + Widen(s[at + 1..], AfterCr(s, at + 1))
  {
    WidenSkips(s, from, at);
    assert s[at..][1..] == s[at + 1..];
    ConcatAssociates(s[from..at], Ending(s, at), Widen(s[at + 1..], false));
  }

  lemma WidenNothing(s: seq<byte>, from: nat)
    requires from <= |s| && LF !in s[from..]
    ensures Widen(s[from..], AfterCr(s, from)) == s[from..]
  {
    forall k | from <= k < |s| ensures s[k] != LF {
      assert s[k] == s[from..][k - from];
    }
    WidenSkips(s, from, |s|);
    assert s[|s|..] == [];
  }

  method CopyUpToLf(tgt: Buffer, src: seq<byte>, scan: nat, next: nat)
    requires scan <= next < |src| && src[next] == LF && tgt.Valid()
    modifies tgt, tgt.data
    ensures tgt.Valid() && (tgt.data == old(tgt.data) || fresh(tgt.data))
    ensures tgt.Contents() == old(tgt.Contents()) + (src[scan..next] + Ending(src, next))
  {
    var copied := next - scan;
    var extra := if 0 < next && src[next - 1] == CR then 1 else 2;
    var needed := tgt.size + copied + extra + 1;
    if tgt.data.Length < needed {
      tgt.Grow(needed);
    }
    if scan < next {
      tgt.Append(src[scan..next]);
    }
    assert tgt.Contents() == old(tgt.Contents()) + src[scan..next];
    tgt.Append(if extra == 2 then [CR, LF] else [LF]);
    ConcatAssociates(old(tgt.Contents()), src[scan..next], Ending(src, next));
  }

  method WidenInto(tgt: Buffer, src: seq<byte>)
    requires tgt.Valid()
    modifies tgt, tgt.data
    ensures tgt.Terminated() && (tgt.data == old(tgt.data) || fresh(tgt.data))
    ensures tgt.Contents() == LfToCrlf(src)
  {
    hide Widen, Ending;
    assert src[0..] == src;
    var next := FindByte(src, LF, 0);
    if next == |src| {
      WidenNothing(src, 0);
      tgt.Set(src);
      return;
    }
    tgt.Grow(|src| + |src| / 16 + 1);
    tgt.size := 0;
    var scan := 0;
    while next < |src|
      invariant scan <= next <= |src| && (next < |src| ==> src[next] == LF)
      invariant forall k :: scan <= k < next ==> src[k] != LF
      invariant tgt.Valid()
      invariant tgt.data == old(tgt.data) || fresh(tgt.data)
      invariant LfToCrlf(src) == tgt.Contents() + Widen(src[scan..], AfterCr(src, scan))
      decreases |src| - next
    {
      WidenChunk(src, scan, next);
      ConcatAssociates(tgt.Contents(), src[scan..next] + Ending(src, next),
                       Widen(src[next + 1..], AfterCr(src, next + 1)));
      CopyUpToLf(tgt, src, scan, next);
      scan := next + 1;
      next := FindByte(src, LF, scan);
    }
    WidenNothing(src, scan);
    tgt.Put(src[scan..]);
  }

  // ---- The two transforms ---------------------------------------------------

  lemma WidenKeepsHead(s: seq<byte>, afterCr: bool)
    ensures (s == [] <==> Widen(s, afterCr) == [])
    ensures s != [] ==> Widen(s, afterCr)[0] == if s[0] == LF && !afterCr then CR else s[0]
  {
  }

  lemma NarrowPair(rest: seq<byte>)
    ensures CrlfToLf([CR, LF] + rest) == [LF] + CrlfToLf(rest)
  {
    var s := [CR, LF] + rest;
    assert s[1..] == [LF] + rest && s[1..][1..] == rest;
  }

  /** Widening the line ends of any bytes changes nothing of what narrowing them gives. */
  lemma {:induction false} NarrowWidened(s: seq<byte>, afterCr: bool)
    ensures CrlfToLf(Widen(s, afterCr)) == CrlfToLf(s)
  {
    if s != [] {
      var rest := Widen(s[1..], s[0] == CR);
      NarrowWidened(s[1..], s[0] == CR);
      WidenKeepsHead(s[1..], s[0] == CR);
      if s[0] == LF && !afterCr {
        NarrowPair(rest);
      } else {
        assert ([s[0]] + rest)[1..] == rest;
      }
    }
  }
}
