/**
  Which files get which line ends (crlf.c), from the attributes as they are written to the
  bytes: what the two transforms do to a text, and which of them applies.
*/
module LineEndingRules {
  import opened Bytes
  import opened TextBuffers
  import opened TextHeuristics
  import opened LineEndings

  // ---- The transforms, byte by byte -----------------------------------------

  /** `t` is `s` without some of the CRs that stand before an LF; all other bytes are the same. */
  ghost predicate DropsCrs(s: seq<byte>, t: seq<byte>) {
    if s == [] then t == []
    else
      || (t != [] && t[0] == s[0] && DropsCrs(s[1..], t[1..]))
      || (|s| > 1 && s[0] == 13 && s[1] == 10 && DropsCrs(s[1..], t))
  }

  /** How often CR stands before LF. */
  function Pairs(s: seq<byte>): nat {
    if |s| < 2 then 0 else (if s[0] == 13 && s[1] == 10 then 1 else 0) + Pairs(s[1..])
  }

  /** How often two CRs stand before LF. */
  function Triples(s: seq<byte>): nat {
    if |s| < 3 then 0 else (if s[0] == 13 && s[1] == 13 && s[2] == 10 then 1 else 0) + Triples(s[1..])
  }

  /** How many LFs there are without a CR before them; `before` is the byte before `s`. */
  function BareLfs(s: seq<byte>, before: byte): nat {
    if s == [] then 0 else (if s[0] == 10 && before != 13 then 1 else 0) + BareLfs(s[1..], s[0])
  }

  /** `t` is `s` with exactly the CRs before LFs dropped. */
  ghost predicate IsNarrowed(s: seq<byte>, t: seq<byte>) {
    DropsCrs(s, t) && |t| == |s| - Pairs(s)
  }

  /** `t` is `s` with a CR put before every LF that had none, so that every LF stands after one. */
  ghost predicate IsWidened(s: seq<byte>, t: seq<byte>) {
    && DropsCrs(t, s) && |t| == |s| + BareLfs(s, 0)
    && forall i :: 0 <= i < |t| && t[i] == 10 ==> 0 < i && t[i - 1] == 13
  }

  lemma {:induction false} NarrowingIs(s: seq<byte>)
    ensures IsNarrowed(s, CrlfToLf(s))
  {
    if s != [] {
      NarrowingIs(s[1..]);
      if s[0] == CR && |s| > 1 && s[1] == LF {
        assert CrlfToLf(s) == CrlfToLf(s[1..]);
      } else {
        assert CrlfToLf(s)[1..] == CrlfToLf(s[1..]);
      }
    }
  }

  lemma {:induction false} NarrowFirst(s: seq<byte>)
    ensures s == [] <==> CrlfToLf(s) == []
    ensures s != [] ==> CrlfToLf(s)[0] == if s[0] == CR && |s| > 1 && s[1] == LF then LF else s[0]
  {
    if |s| > 1 && s[0] == CR && s[1] == LF {
      assert s[1..][0] == LF;
    }
  }

  /** A CR is left before an LF for each place where two stood. */
  lemma {:induction false} NarrowingLeaves(s: seq<byte>)
    ensures Pairs(CrlfToLf(s)) == Triples(s)
  {
    if s != [] {
      var rest := s[1..];
      NarrowingLeaves(rest);
      NarrowFirst(rest);
      if |s| > 1 && s[0] == CR && s[1] == LF {
        assert Triples(s) == Triples(rest);
      } else {
        var t := CrlfToLf(s);
        assert t[1..] == CrlfToLf(rest);
        if |s| > 1 {
          assert t[1] == if rest[0] == CR && |rest| > 1 && rest[1] == LF then LF else rest[0];
          PairsUnfold(t);
          TriplesUnfold(s);
        }
      }
    }
  }

  lemma PairsUnfold(s: seq<byte>)
    requires |s| >= 2
    ensures Pairs(s) == (if s[0] == CR && s[1] == LF then 1 else 0) + Pairs(s[1..])
  {
  }

  lemma TriplesUnfold(s: seq<byte>)
    requires |s| >= 2
    ensures Triples(s) == (if |s| >= 3 && s[0] == CR && s[1] == CR && s[2] == LF then 1 else 0) + Triples(s[1..])
  {
  }

  lemma {:induction false} NoPairs(s: seq<byte>)
    ensures Pairs(s) == 0 <==> forall i :: 0 <= i < |s| - 1 ==> !(s[i] == CR && s[i + 1] == LF)
  {
    if |s| >= 2 {
      NoPairs(s[1..]);
      if Pairs(s) == 0 {
        forall i | 0 <= i < |s| - 1 ensures !(s[i] == CR && s[i + 1] == LF) {
          if 0 < i {
            assert s[1..][i - 1] == s[i] && s[1..][i] == s[i + 1];
          }
        }
      }
    }
  }

  lemma {:induction false} WideningIs(s: seq<byte>, before: byte)
    ensures var t := Widen(s, before == CR);
            && DropsCrs(t, s) && |t| == |s| + BareLfs(s, before)
            && forall i :: 0 <= i < |t| && t[i] == LF ==> if i == 0 then before == CR else t[i - 1] == CR
  {
    if s != [] {
      var head := if s[0] == LF && before != CR then [CR, LF] else [s[0]];
      var rest := Widen(s[1..], s[0] == CR);
      var t := Widen(s, before == CR);
      WideningIs(s[1..], s[0]);
      assert t == head + rest;
      if |head| == 2 {
        assert t[1..] == [LF] + rest && t[1..][1..] == rest;
        assert DropsCrs(t[1..], s);
      } else {
        assert t[1..] == rest;
      }
      forall i | 0 <= i < |t| && t[i] == LF ensures if i == 0 then before == CR else t[i - 1] == CR {
        if |head| <= i {
          assert t[i] == rest[i - |head|];
          if |head| < i {
            assert t[i - 1] == rest[i - 1 - |head|];
          }
        }
      }
    }
  }

  lemma WideningIsWidened(s: seq<byte>)
    ensures IsWidened(s, LfToCrlf(s))
  {
    WideningIs(s, 0);
    var t := LfToCrlf(s);
    hide *;
    forall i | 0 <= i < |t| && t[i] == 10 ensures 0 < i && t[i - 1] == 13 {
      assert t[i] == LF;
    }
  }

  // ---- Which transform ------------------------------------------------------

  /** The values of `text`, or of the older `crlf`, that settle what a file is. */
  predicate Settles(v: Value) {
    v == IsTrue || v == IsFalse || v == Word("input") || v == Word("auto")
  }

  function TextOrCrlf(text: Value, crlf: Value): Value {
    if Settles(text) then text else crlf
  }

  predicate HasEol(eol: Value) {
    eol == Word("lf") || eol == Word("crlf")
  }

  /** The working file a blob is checked out as. */
  function WorkFile(text: Value, crlf: Value, eol: Value, autoCrlf: AutoCrlf, native: Eol, blob: seq<byte>): seq<byte> {
    var attrs := Check(text, crlf, eol, autoCrlf);
    if attrs.None? then blob else Checkout(attrs.value, native, blob)
  }

  /** The blob a working file is committed as. */
  function Committed(text: Value, crlf: Value, eol: Value, autoCrlf: AutoCrlf, crInIndex: bool, file: seq<byte>): seq<byte> {
    var attrs := Check(text, crlf, eol, autoCrlf);
    if attrs.None? then file else Commit(attrs.value, crInIndex, file)
  }

  /** The filter leaves a file alone in both directions if it is not text, or nothing was said of it and autocrlf is off. */
  lemma LeftAlone(text: Value, crlf: Value, eol: Value, autoCrlf: AutoCrlf)
    ensures var t := TextOrCrlf(text, crlf);
            Check(text, crlf, eol, autoCrlf).None?
            <==> t == IsFalse || (!Settles(t) && !HasEol(eol) && autoCrlf == AutoFalse)
  {
  }

  // The settings that the attributes come to.
  lemma CheckIs(text: Value, crlf: Value, eol: Value, autoCrlf: AutoCrlf)
    ensures
      var t := TextOrCrlf(text, crlf);
      Check(text, crlf, eol, autoCrlf)
      == if t == IsFalse then None
         else if eol == Word("crlf") then Some(Attrs(Crlf, EolCrlf, AutoFalse))
         else if eol == Word("lf") then Some(Attrs(Input, EolLf, AutoFalse))
         else if Settles(t) then
           Some(Attrs(if t == IsTrue then Text else if t == Word("input") then Input else Auto, EolUnset, AutoFalse))
         else if autoCrlf == AutoFalse then None
         else Some(Attrs(Guess, EolUnset, autoCrlf))
  {
  }

  /** What checkout does to a text blob, for all attributes, settings and platforms. */
  lemma CheckoutRule(text: Value, crlf: Value, eol: Value, autoCrlf: AutoCrlf, native: Eol, blob: seq<byte>)
    requires blob != [] && !IsBinary(blob)
    ensures
      var t := TextOrCrlf(text, crlf);
      var file := WorkFile(text, crlf, eol, autoCrlf, native, blob);
      if t == IsFalse then file == blob
      else if eol == Word("crlf") then IsWidened(blob, file)
      else if eol == Word("lf") || t == Word("input") then IsNarrowed(blob, file)
      else if Settles(t) then if native == EolCrlf then IsWidened(blob, file) else IsNarrowed(blob, file)
      else if autoCrlf != AutoFalse && native == EolCrlf then IsWidened(blob, file)
      else file == blob
  {
    hide IsBinary, LfToCrlf, CrlfToLf, IsNarrowed, IsWidened, Check, TextOrCrlf;
    CheckIs(text, crlf, eol, autoCrlf);
    WideningIsWidened(blob);
    NarrowingIs(blob);
  }

  lemma BinaryCheckout(text: Value, crlf: Value, eol: Value, autoCrlf: AutoCrlf, native: Eol, blob: seq<byte>)
    requires IsBinary(blob)
    ensures WorkFile(text, crlf, eol, autoCrlf, native, blob) == blob
  {
    hide IsBinary, LfToCrlf, CrlfToLf;
  }

  /** With `eol=lf` or `text=input` no CR is left before an LF exactly when there are not two before one in the blob. */
  lemma NarrowLeavesNoPair(text: Value, crlf: Value, eol: Value, autoCrlf: AutoCrlf, native: Eol, blob: seq<byte>)
    requires blob != [] && !IsBinary(blob) && TextOrCrlf(text, crlf) != IsFalse
    requires eol == Word("lf") || (TextOrCrlf(text, crlf) == Word("input") && eol != Word("crlf"))
    ensures
      var file := WorkFile(text, crlf, eol, autoCrlf, native, blob);
      (forall i :: 0 <= i < |file| - 1 ==> !(file[i] == 13 && file[i + 1] == 10)) <==> Triples(blob) == 0
  {
    hide IsBinary, LfToCrlf, CrlfToLf, Pairs, Triples;
    assert WorkFile(text, crlf, eol, autoCrlf, native, blob) == CrlfToLf(blob);
    NarrowingLeaves(blob);
    NoPairs(CrlfToLf(blob));
  }

  lemma TwoCrsBeforeLf()
    ensures CrlfToLf([13, 13, 10]) == [13, 10]
  {
    assert [CR, CR, LF][1..] == [CR, LF] && [CR, LF][1..] == [LF] && [LF][1..] == [];
  }

  /** What commit does to a file, for all attributes and settings. */
  lemma CommitRule(text: Value, crlf: Value, eol: Value, autoCrlf: AutoCrlf, crInIndex: bool, file: seq<byte>)
    ensures
      var t := TextOrCrlf(text, crlf);
      var blob := Committed(text, crlf, eol, autoCrlf, crInIndex, file);
      var convertible := !LooksLikeBinary(StatsOf(file, false)) && forall i :: 0 <= i < |file| && file[i] == 13 ==> IsCrlf(file, i);
      if t == IsFalse then blob == file
      else if HasEol(eol) || t == IsTrue || t == Word("input") then IsNarrowed(file, blob)
      else if t == Word("auto") then if convertible then IsNarrowed(file, blob) else blob == file
      else if autoCrlf != AutoFalse && convertible && !crInIndex then IsNarrowed(file, blob)
      else blob == file
  {
    hide StatsOf, CrlfToLf, IsNarrowed, LooksLikeBinary, IsCrlf, Check, TextOrCrlf;
    CheckIs(text, crlf, eol, autoCrlf);
    NarrowingIs(file);
    AllPaired(file);
  }
}
