/** The line-ending filter: from blob to working file and back (crlf.c). */
module LineEndings {
  import opened Bytes
  import opened TextBuffers
  import opened TextHeuristics

  // ---- Attributes -----------------------------------------------------------

  datatype Action = Guess | Binary | Text | Input | Crlf | Auto

  datatype Eol = EolUnset | EolCrlf | EolLf

  datatype AutoCrlf = AutoFalse | AutoTrue | AutoInput

  /** The settings one filter run works with. */
  datatype Attrs = Attrs(action: Action, eol: Eol, autoCrlf: AutoCrlf)

  /** An attribute as .gitattributes leaves it. */
  datatype Value = Unspecified | IsTrue | IsFalse | Word(text: string)

  function CheckCrlf(value: Value): Action {
    match value
    case IsTrue => Text
    case IsFalse => Binary
    case Unspecified => Guess
    case Word(text) => if text == "input" then Input else if text == "auto" then Auto else Guess
  }

  function CheckEol(value: Value): Eol {
    match value
    case Word(text) => if text == "lf" then EolLf else if text == "crlf" then EolCrlf else EolUnset
    case _ => EolUnset
  }

  function InputAction(action: Action, eol: Eol): Action {
    if action == Binary then Binary
    else if eol == EolLf then Input
    else if eol == EolCrlf then Crlf
    else action
  }

  // The settings of a file, or none when the filter leaves the file alone.
  function Check(text: Value, crlf: Value, eol: Value, autoCrlf: AutoCrlf): Option<Attrs> {
    var asked := if CheckCrlf(text) == Guess then CheckCrlf(crlf) else CheckCrlf(text);
    var action := InputAction(asked, CheckEol(eol));
    if action == Binary then None
    else if action != Guess then Some(Attrs(action, CheckEol(eol), AutoFalse))
    else if autoCrlf == AutoFalse then None
    else Some(Attrs(Guess, CheckEol(eol), autoCrlf))
  }

  // Whether working files get CRLF; `native` tells what the platform uses.
  predicate WantsCrlf(attrs: Attrs, native: Eol) {
    match attrs.action
    case Binary | Input => false
    case Crlf => true
    case _ => (if attrs.eol == EolUnset then native else attrs.eol) == EolCrlf
  }

  // ---- The two directions ---------------------------------------------------

  /** What a filter reports: it passes the bytes on as they are, or has put its own into the target. */
  datatype Outcome = PassThrough | Filtered

  // The bytes a filter hands on.
  ghost function HandedOn(outcome: Outcome, source: seq<byte>, target: seq<byte>): seq<byte> {
    if outcome == PassThrough then source else target
  }

  function Checkout(attrs: Attrs, native: Eol, blob: seq<byte>): seq<byte> {
    if blob == [] || IsBinary(blob) then blob
    else if WantsCrlf(attrs, native) then LfToCrlf(blob)
    else if attrs.action == Guess && attrs.autoCrlf != AutoFalse then blob
    else CrlfToLf(blob)
  }

  function Commit(attrs: Attrs, crInIndex: bool, file: seq<byte>): seq<byte> {
    if attrs.action != Auto && attrs.action != Guess then CrlfToLf(file)
    else
      var stats := StatsOf(file, false);
      if LooksLikeBinary(stats) || stats.cr != stats.crlf || (attrs.action == Guess && crInIndex) then file
      else CrlfToLf(file)
  }

  method ApplyToWorkdir(attrs: Attrs, native: Eol, to: Buffer, from: seq<byte>) returns (r: Outcome)
    requires to.Valid() && to.size == 0
    modifies to, to.data
    ensures to.Valid()
    ensures HandedOn(r, from, to.Contents()) == Checkout(attrs, native, from)
  {
    hide IsBinary, CrlfToLf, Widen;
    if from == [] {
      return Filtered;
    }
    var binary := LooksBinary(from);
    if binary {
      return PassThrough;
    }
    if !WantsCrlf(attrs, native) {
      if attrs.action == Guess && attrs.autoCrlf != AutoFalse {
        return PassThrough;
      }
      var cr := FindByte(from, CR, 0);
      if cr == |from| {
        assert from[0..] == from;
        NarrowNothing(from, 0);
        return PassThrough;
      }
      NarrowInto(to, from);
    } else {
      WidenInto(to, from);
    }
    r := Filtered;
  }

  method ApplyToOdb(attrs: Attrs, crInIndex: bool, to: Buffer, from: seq<byte>) returns (r: Outcome)
    requires to.Valid() && to.size == 0
    modifies to, to.data
    ensures to.Valid()
    ensures HandedOn(r, from, to.Contents()) == Commit(attrs, crInIndex, from)
  {
    hide StatsOf, CrlfToLf;
    if from == [] {
      NothingCommitted();
      return Filtered;
    }
    if attrs.action == Auto || attrs.action == Guess {
      var stats, binary := GatherStats(from, false);
      if binary {
        return PassThrough;
      }
      if stats.cr != stats.crlf {
        return PassThrough;
      }
      if attrs.action == Guess {
        if crInIndex {
          return PassThrough;
        }
      }
      if stats.cr == 0 {
        NoCrCounted(from);
        return PassThrough;
      }
    }
    NarrowInto(to, from);
    r := Filtered;
  }

  lemma NothingCommitted()
    ensures CrlfToLf([]) == []
  {
  }

  lemma NoCrCounted(file: seq<byte>)
    requires StatsOf(file, false).cr == 0
    ensures CrlfToLf(file) == file
  {
    hide Count;
    var t := Counted(file, false);
    assert t[..|t|] == t;
    CountCounted(file, IsCr);
    CountNone(file, IsCr);
    assert file[0..] == file;
    NarrowNothing(file, 0);
  }

  // ---- The round trip -------------------------------------------------------

  // The one case where commit does not undo checkout: a file the platform's
  // line ends were put into, while the index holds a version that has a CR.
  predicate IsStuck(attrs: Attrs, native: Eol, crInIndex: bool, blob: seq<byte>) {
    attrs.action == Guess && crInIndex && WantsCrlf(attrs, native) && !IsBinary(blob) && LF in blob
  }

  lemma NarrowKeeps(blob: seq<byte>)
    requires CR !in blob
    ensures CrlfToLf(blob) == blob
  {
    assert blob[0..] == blob;
    NarrowNothing(blob, 0);
  }

  lemma CommitKeeps(attrs: Attrs, crInIndex: bool, blob: seq<byte>)
    requires CR !in blob
    ensures Commit(attrs, crInIndex, blob) == blob
  {
    hide StatsOf, CrlfToLf;
    NarrowKeeps(blob);
  }

  lemma CommitWidened(attrs: Attrs, crInIndex: bool, blob: seq<byte>)
    requires CR !in blob && !IsBinary(blob)
    ensures Commit(attrs, crInIndex, LfToCrlf(blob))
         == if attrs.action == Guess && crInIndex then LfToCrlf(blob) else blob
  {
    hide StatsOf, CrlfToLf, IsBinary, Widen;
    BinaryAgrees(blob);
    WidenedStats(blob);
    NarrowWidened(blob, false);
    NarrowKeeps(blob);
  }

  /** A CR-free blob checked out and committed under the same settings comes back exactly unless it is stuck. */
  lemma FilterRoundTrip(attrs: Attrs, native: Eol, crInIndex: bool, blob: seq<byte>)
    requires CR !in blob
    ensures Commit(attrs, crInIndex, Checkout(attrs, native, blob)) == blob
       <==> !IsStuck(attrs, native, crInIndex, blob)
  {
    hide Commit, IsBinary, Widen, CrlfToLf;
    NarrowKeeps(blob);
    if blob != [] && !IsBinary(blob) && WantsCrlf(attrs, native) {
      CommitWidened(attrs, crInIndex, blob);
      if LF in blob {
        WidenedHasCr(blob);
      } else {
        WidenNothing(blob, 0);
        assert blob[0..] == blob;
      }
    } else {
      CommitKeeps(attrs, crInIndex, blob);
    }
  }

  /** With the blob itself in the index, no CR-free blob is ever changed by checkout and commit. */
  lemma FilterRoundTripInIndex(text: Value, crlf: Value, eol: Value, autoCrlf: AutoCrlf, native: Eol, blob: seq<byte>)
    requires CR !in blob && Check(text, crlf, eol, autoCrlf).Some?
    ensures var attrs := Check(text, crlf, eol, autoCrlf).value;
            Commit(attrs, CR in blob, Checkout(attrs, native, blob)) == blob
  {
    FilterRoundTrip(Check(text, crlf, eol, autoCrlf).value, native, false, blob);
  }
}
