/** The buffered file writer: buffered writing comes to the same as appending (filebuf.c). */
module BufferedFile {
  import opened Bytes

  const WRITE_BUFFER_SIZE: nat := 4096 * 2

  datatype Error = Ok | WriteError | MemoryError

  /** How the system answers: which write calls fail, after how many bytes; and whether close and rename do. */
  datatype System = System(writeFails: nat -> bool, written: nat -> nat, closeFails: bool, renameFails: bool)

  function Min(a: nat, b: nat): nat {
    if a < b then a else b
  }

  class FileBuf {
    const buffer: array<byte>
    const doNotBuffer: bool
    const system: System
    var bufPos: nat
    var lastError: Error
    var isOpen: bool
    // The contents of the lock file and of the file it is to replace.
    var sent: seq<byte>
    var original: Option<seq<byte>>
    var calls: nat

    ghost predicate Valid()
      reads this
    {
      && bufPos <= buffer.Length == (if doNotBuffer then 0 else WRITE_BUFFER_SIZE)
    }

    // Everything appended so far: what was sent, then what is buffered.
    ghost function Stream(): seq<byte>
      requires Valid()
      reads this, buffer
    {
      sent + buffer[..bufPos]
    }

    constructor (doNotBuffer: bool, original: Option<seq<byte>>, system: System)
      ensures Valid() && fresh(buffer)
      ensures this.doNotBuffer == doNotBuffer && this.system == system && this.original == original
      ensures Stream() == [] && lastError == Ok && isOpen
    {
      this.doNotBuffer := doNotBuffer;
      this.system := system;
      this.original := original;
      buffer := new byte[if doNotBuffer then 0 else WRITE_BUFFER_SIZE];
      bufPos, lastError, isOpen, sent, calls := 0, Ok, true, [], 0;
    }

    // None of the write calls from number `from` up to number `to` fails.
    ghost predicate Healthy(from: nat, to: nat) {
      forall n :: from <= n < to ==> !system.writeFails(n)
    }

    // One write call, unless there is nothing to write; it succeeds exactly when the system lets it.
    method WriteNormal(source: seq<byte>) returns (ok: bool)
      modifies this`sent, this`lastError, this`calls
      ensures calls == old(calls) + if source == [] then 0 else 1
      ensures ok <==> source == [] || !system.writeFails(old(calls))
      ensures ok ==> sent == old(sent) + source && lastError == old(lastError)
      ensures !ok ==> lastError == WriteError && sent == old(sent) + source[..Min(system.written(old(calls)), |source|)]
    {
      if |source| > 0 {
        var call := calls;
        calls := calls + 1;
        if system.writeFails(call) {
          sent := sent + source[..Min(system.written(call), |source|)];
          lastError := WriteError;
          return false;
        }
        sent := sent + source;
      }
      ok := true;
    }

    method FlushBuffer() returns (ok: bool)
      requires Valid()
      modifies this`sent, this`lastError, this`calls, this`bufPos
      ensures Valid() && bufPos == 0
      ensures calls == old(calls) + if old(bufPos) == 0 then 0 else 1
      ensures ok <==> Healthy(old(calls), calls)
      ensures ok ==> Stream() == old(Stream()) && lastError == old(lastError)
      ensures !ok ==> lastError == WriteError
    {
      ok := WriteNormal(buffer[..bufPos]);
      bufPos := 0;
    }

    method AddToCache(bytes: seq<byte>)
      requires Valid() && bufPos + |bytes| <= buffer.Length
      modifies this`bufPos, buffer
      ensures Valid() && Stream() == old(Stream()) + bytes
      ensures bufPos == old(bufPos) + |bytes|
    {
      var i := 0;
      while i < |bytes|
        invariant i <= |bytes| && bufPos == old(bufPos)
        invariant buffer[..bufPos + i] == old(buffer[..bufPos]) + bytes[..i]
      {
        buffer[bufPos + i] := bytes[i];
        i := i + 1;
      }
      bufPos := bufPos + |bytes|;
      ConcatAssociates(sent, old(buffer[..bufPos]), bytes);
    }

    // Buffered bytes go out in writes of 8192.
    method Write(bytes: seq<byte>) returns (ok: bool)
      requires Valid()
      modifies this`sent, this`lastError, this`calls, this`bufPos, buffer
      ensures Valid()
      ensures ok <==> lastError == Ok
      ensures calls >= old(calls)
      ensures lastError == Ok <==> old(lastError) == Ok && Healthy(old(calls), calls)
      ensures ok ==> Stream() == old(Stream()) + bytes
      ensures ok && !doNotBuffer ==>
                (calls - old(calls)) * 8192 + bufPos == old(bufPos) + |bytes| && bufPos < 8192
    {
      if lastError != Ok {
        return false;
      }
      if doNotBuffer {
        ok := WriteNormal(bytes);
        return;
      }
      var done := 0;
      while true
        invariant Valid() && lastError == Ok && done <= |bytes|
        invariant calls >= old(calls) && Healthy(old(calls), calls)
        invariant Stream() == old(Stream()) + bytes[..done]
        invariant (calls - old(calls)) * WRITE_BUFFER_SIZE + bufPos == old(bufPos) + done
        decreases |bytes| - done, bufPos
      {
        var rest := bytes[done..];
        var space := buffer.Length - bufPos;
        if space > |rest| {
          AddToCache(rest);
          return true;
        }
        AddToCache(rest[..space]);
        var flushed := FlushBuffer();
        if !flushed {
          return false;
        }
        assert bytes[..done + space] == bytes[..done] + rest[..space];
        done := done + space;
      }
    }

    // Takes room for `len` bytes, which the caller is to store from `start` on.
    method Reserve(len: nat) returns (start: Option<nat>)
      requires Valid() && !doNotBuffer
      modifies this`sent, this`lastError, this`calls, this`bufPos
      ensures Valid()
      ensures start.Some? <==> lastError == Ok
      ensures start.Some? ==> start.value + len == bufPos && sent + buffer[..start.value] == old(Stream())
      ensures calls >= old(calls)
      ensures lastError == Ok <==> old(lastError) == Ok && Healthy(old(calls), calls) && len <= buffer.Length
    {
      var space := buffer.Length - bufPos;
      if lastError != Ok {
        return None;
      }
      if len > buffer.Length {
        lastError := MemoryError;
        return None;
      }
      if space <= len {
        var flushed := FlushBuffer();
        if !flushed {
          return None;
        }
      }
      start := Some(bufPos);
      bufPos := bufPos + len;
    }

    // vsnprintf: what fits of the text with its NUL, past what is buffered.
    method FormatInto(text: seq<byte>, space: nat)
      requires Valid() && bufPos + space == buffer.Length
      modifies buffer
      ensures buffer[..bufPos] == old(buffer[..bufPos])
      ensures |text| < space ==> buffer[bufPos..bufPos + |text|] == text
    {
      if space == 0 {
        return;
      }
      var n := Min(|text|, space - 1);
      var i := 0;
      while i < n
        invariant i <= n
        invariant buffer[..bufPos] == old(buffer[..bufPos])
        invariant buffer[bufPos..bufPos + i] == text[..i]
      {
        buffer[bufPos + i] := text[i];
        i := i + 1;
      }
      buffer[bufPos + n] := 0;
    }

    method Printf(text: seq<byte>) returns (ok: bool)
      requires Valid() && !doNotBuffer
      modifies this`sent, this`lastError, this`calls, this`bufPos, buffer
      ensures Valid()
      ensures ok <==> lastError == Ok
      ensures calls >= old(calls)
      ensures lastError == Ok <==> old(lastError) == Ok && Healthy(old(calls), calls)
      ensures ok ==> Stream() == old(Stream()) + text
    {
      if lastError != Ok {
        return false;
      }
      var space := buffer.Length - bufPos;
      while true
        invariant Valid() && lastError == Ok && space == buffer.Length - bufPos
        invariant calls >= old(calls) && Healthy(old(calls), calls)
        invariant Stream() == old(Stream())
        decreases bufPos, if |text| + 1 <= space then 0 else 1
      {
        ghost var before := buffer[..bufPos];
        FormatInto(text, space);
        assert sent + buffer[..bufPos] == old(Stream());
        if |text| + 1 <= space {
          assert buffer[..bufPos + |text|] == before + text;
          ConcatAssociates(sent, before, text);
          bufPos := bufPos + |text|;
          return true;
        }
        var flushed := FlushBuffer();
        if !flushed {
          return false;
        }
        space := buffer.Length - bufPos;
        if !(|text| + 1 <= space) {
          break;
        }
      }
      ok := Write(text);
    }

    method Flush() returns (ok: bool)
      requires Valid()
      modifies this`sent, this`lastError, this`calls, this`bufPos
      ensures Valid()
      ensures calls >= old(calls)
      ensures lastError == Ok <==> old(lastError) == Ok && Healthy(old(calls), calls)
      ensures lastError == Ok ==> ok && Stream() == old(Stream())
    {
      ok := FlushBuffer();
    }

    /**
      Replaces the original by everything appended. A recorded error leaves the original
      alone; a failed rename loses it.
    */
    method Commit() returns (ok: bool)
      requires Valid()
      modifies this
      ensures calls >= old(calls)
      ensures lastError == Ok <==> old(lastError) == Ok && Healthy(old(calls), calls)
      ensures ok ==> original == Some(old(Stream()))
      ensures lastError != Ok ==> !ok && original == old(original)
      ensures !ok && lastError == Ok ==> original == if system.closeFails then old(original) else None
      ensures ok <==> lastError == Ok && !system.closeFails && !system.renameFails
    {
      var _ := FlushBuffer();
      if lastError != Ok {
        isOpen := false;
        return false;
      }
      assert buffer[..0] == [] && sent + [] == sent;
      isOpen := false;
      if system.closeFails {
        return false;
      }
      original := None;
      if system.renameFails {
        return false;
      }
      original := Some(sent);
      ok := true;
    }
  }

  // ---- Runs -----------------------------------------------------------------

  /** A call on a buffered file; the room a reservation takes is then filled. */
  datatype Call = WriteCall(bytes: seq<byte>) | PrintCall(bytes: seq<byte>) | ReserveCall(bytes: seq<byte>) | FlushCall

  function Appended(calls: seq<Call>): seq<byte> {
    if calls == [] then []
    else
      var last := calls[|calls| - 1];
      Appended(calls[..|calls| - 1]) + if last.FlushCall? then [] else last.bytes
  }

  // Room is only ever reserved inside the buffer.
  predicate Fits(call: Call) {
    call.ReserveCall? ==> |call.bytes| <= 8192
  }

  method Fill(file: FileBuf, start: nat, bytes: seq<byte>)
    requires file.Valid() && start + |bytes| == file.bufPos
    modifies file.buffer
    ensures file.buffer[..file.bufPos] == old(file.buffer[..start]) + bytes
  {
    var i := 0;
    while i < |bytes|
      invariant i <= |bytes|
      invariant file.buffer[..start + i] == old(file.buffer[..start]) + bytes[..i]
    {
      file.buffer[start + i] := bytes[i];
      i := i + 1;
    }
  }

  method Perform(file: FileBuf, call: Call)
    requires file.Valid() && !file.doNotBuffer
    modifies file`sent, file`lastError, file`calls, file`bufPos, file.buffer
    ensures file.Valid() && file.calls >= old(file.calls)
    ensures file.lastError == Ok <==> old(file.lastError) == Ok && file.Healthy(old(file.calls), file.calls) && Fits(call)
    ensures file.lastError == Ok ==> file.Stream() == old(file.Stream()) + if call.FlushCall? then [] else call.bytes
  {
    match call {
      case WriteCall(bytes) =>
        var _ := file.Write(bytes);
      case PrintCall(bytes) =>
        var _ := file.Printf(bytes);
      case ReserveCall(bytes) =>
        var start := file.Reserve(|bytes|);
        if start.Some? {
          ghost var before := file.buffer[..start.value];
          Fill(file, start.value, bytes);
          ConcatAssociates(file.sent, before, bytes);
        }
      case FlushCall =>
        var _ := file.Flush();
        assert old(file.Stream()) + [] == old(file.Stream());
    }
  }

  /**
    Any run of calls and a commit: an error is recorded exactly when a write issued meanwhile
    fails or more room is asked for than there is. Then the original is untouched; else it
    becomes all that was appended, unless close or rename fails.
  */
  method RunAndCommit(file: FileBuf, calls: seq<Call>) returns (ok: bool)
    requires file.Valid() && !file.doNotBuffer
    requires file.lastError == Ok && file.Stream() == []
    modifies file, file.buffer
    ensures file.calls >= old(file.calls)
    ensures file.lastError == Ok <==> file.Healthy(old(file.calls), file.calls) && forall c :: c in calls ==> Fits(c)
    ensures ok ==> file.original == Some(Appended(calls))
    ensures file.lastError != Ok ==> !ok && file.original == old(file.original)
    ensures ok <==> file.lastError == Ok && !file.system.closeFails && !file.system.renameFails
  {
    var i := 0;
    while i < |calls|
      invariant i <= |calls| && file.Valid() && file.original == old(file.original)
      invariant file.calls >= old(file.calls)
      invariant file.lastError == Ok <==>
                  file.Healthy(old(file.calls), file.calls) && forall k :: 0 <= k < i ==> Fits(calls[k])
      invariant file.lastError == Ok ==> file.Stream() == Appended(calls[..i])
    {
      Perform(file, calls[i]);
      assert calls[..i + 1][..i] == calls[..i];
      i := i + 1;
    }
    assert calls[..i] == calls;
    ok := file.Commit();
  }
}
