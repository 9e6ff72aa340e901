/** Guessing whether a buffer is text (buf_text.c). */
module TextHeuristics {
  import opened Bytes
  import opened TextBuffers

  // ---- Byte order marks -----------------------------------------------------

  datatype Bom = NoBom | Utf8 | Utf16LE | Utf16BE | Utf32LE | Utf32BE

  // The mark at `offset`, and its length.
  function DetectBom(s: seq<byte>, offset: nat): (r: (Bom, nat))
    ensures r.0 != NoBom ==> offset + r.1 <= |s|
    ensures r.0.NoBom? <==> r.1 == 0
    ensures r.0.Utf8? ==> r.1 == 3 && s[offset..offset + 3] == [0xEF, 0xBB, 0xBF]
  {
    if |s| < offset + 2 then (NoBom, 0)
    else
      var p := s[offset..];
      if p[0] == 0 then
        if |p| >= 4 && p[1] == 0 && p[2] == 0xFE && p[3] == 0xFF then (Utf32BE, 4) else (NoBom, 0)
      else if p[0] == 0xEF then
        if |p| >= 3 && p[1] == 0xBB && p[2] == 0xBF then (Utf8, 3) else (NoBom, 0)
      else if p[0] == 0xFE then
        if p[1] == 0xFF then (Utf16BE, 2) else (NoBom, 0)
      else if p[0] == 0xFF then
        if p[1] != 0xFE then (NoBom, 0)
        else if |p| >= 4 && p[2] == 0 && p[3] == 0 then (Utf32LE, 4)
        else (Utf16LE, 2)
      else (NoBom, 0)
  }

  // The bytes of a mark.
  function MarkOf(bom: Bom): seq<byte> {
    match bom
    case NoBom => []
    case Utf8 => [0xEF, 0xBB, 0xBF]
    case Utf16LE => [0xFF, 0xFE]
    case Utf16BE => [0xFE, 0xFF]
    case Utf32LE => [0xFF, 0xFE, 0, 0]
    case Utf32BE => [0, 0, 0xFE, 0xFF]
  }

  /** What is detected is the longest of the marks that the bytes at `offset` begin with. */
  lemma BomIsLongest(s: seq<byte>, offset: nat)
    requires offset <= |s|
    ensures var (bom, size) := DetectBom(s, offset);
            && MarkOf(bom) <= s[offset..] && size == |MarkOf(bom)|
            && forall other: Bom :: MarkOf(other) <= s[offset..] ==> |MarkOf(other)| <= size
  {
    var p := s[offset..];
    forall other: Bom | MarkOf(other) <= p ensures |MarkOf(other)| <= DetectBom(s, offset).1 {
      var mark := MarkOf(other);
      assert forall k :: 0 <= k < |mark| ==> p[k] == mark[k];
      match other
      case NoBom =>
      case Utf8 => assert p[0] == 0xEF && p[1] == 0xBB && p[2] == 0xBF;
      case Utf16LE => assert p[0] == 0xFF && p[1] == 0xFE;
      case Utf16BE => assert p[0] == 0xFE && p[1] == 0xFF;
      case Utf32LE => assert p[0] == 0xFF && p[1] == 0xFE && p[2] == 0 && p[3] == 0;
      case Utf32BE => assert p[0] == 0 && p[1] == 0 && p[2] == 0xFE && p[3] == 0xFF;
    }
  }

  // ---- Counting -------------------------------------------------------------

  function Count(s: seq<byte>, p: byte -> bool): nat {
    if s == [] then 0 else Count(s[..|s| - 1], p) + if p(s[|s| - 1]) then 1 else 0
  }

  lemma CountNext(s: seq<byte>, i: nat, p: byte -> bool)
    requires i < |s|
    ensures Count(s[..i + 1], p) == Count(s[..i], p) + if p(s[i]) then 1 else 0
  {
    assert s[..i + 1][..i] == s[..i];
  }

  lemma {:induction false} CountConcat(a: seq<byte>, b: seq<byte>, p: byte -> bool)
    ensures Count(a + b, p) == Count(a, p) + Count(b, p)
  {
    if b == [] {
      assert a + b == a;
    } else {
      assert (a + b)[..|a + b| - 1] == a + b[..|b| - 1];
      CountConcat(a, b[..|b| - 1], p);
    }
  }

  lemma {:induction false} CountMono(s: seq<byte>, p: byte -> bool, q: byte -> bool)
    requires forall b :: b in s && p(b) ==> q(b)
    ensures Count(s, p) <= Count(s, q)
  {
    if s != [] {
      CountMono(s[..|s| - 1], p, q);
    }
  }

  lemma {:induction false} CountNone(s: seq<byte>, p: byte -> bool)
    ensures Count(s, p) == 0 <==> forall b :: b in s ==> !p(b)
  {
    if s != [] {
      CountNone(s[..|s| - 1], p);
      assert s == s[..|s| - 1] + [s[|s| - 1]];
    }
  }

  // ---- The checkout heuristic -----------------------------------------------

  predicate IsWhitespace(b: byte) {
    b == 32 || 9 <= b <= 13 || b == 0x85
  }

  predicate IsGraphic(b: byte) {
    0x1F < b < 0x7F
  }

  predicate IsOdd(b: byte) {
    !IsGraphic(b) && b != 0 && !IsWhitespace(b)
  }

  predicate IsBinary(s: seq<byte>) {
    var (bom, skip) := DetectBom(s, 0);
    || (bom != NoBom && bom != Utf8)
    || 0 in s[skip..]
    || Count(s[skip..], IsGraphic) / 128 < Count(s[skip..], IsOdd)
  }

  method LooksBinary(s: seq<byte>) returns (r: bool)
    ensures r == IsBinary(s)
  {
    hide Count;
    var (bom, skip) := DetectBom(s, 0);
    if bom != NoBom && bom != Utf8 {
      return true;
    }
    var scan := skip;
    var printable, nonprintable := 0, 0;
    ghost var t := s[skip..];
    CountsOfNone();
    assert t[..0] == [];
    while scan < |s|
      invariant skip <= scan <= |s|
      invariant 0 !in t[..scan - skip]
      invariant printable == Count(t[..scan - skip], IsGraphic)
      invariant nonprintable == Count(t[..scan - skip], IsOdd)
    {
      var c := s[scan];
      ghost var i := scan - skip;
      assert t[i] == c;
      CountNext(t, i, IsGraphic);
      CountNext(t, i, IsOdd);
      scan := scan + 1;
      if 0x1F < c < 0x7F {
        printable := printable + 1;
      } else if c == 0 {
        return true;
      } else if !IsWhitespace(c) {
        nonprintable := nonprintable + 1;
      }
      assert t[..i + 1] == t[..i] + [c];
    }
    assert t[..scan - skip] == t;
    r := printable / 128 < nonprintable;
  }

  lemma CountsOfNone()
    ensures forall p :: Count([], p) == 0
  {
  }

  // ---- The commit heuristic -------------------------------------------------

  datatype Stats = Stats(bom: Bom, nul: nat, cr: nat, lf: nat, crlf: nat, printable: nat, nonprintable: nat)

  predicate IsControlText(b: byte) {
    b == 8 || b == 9 || b == 11 || b == 12 || b == 27
  }

  predicate IsPrintable(b: byte) {
    (0x1F < b && b != 0x7F) || IsControlText(b)
  }

  predicate IsNonprintable(b: byte) {
    !IsPrintable(b) && b != CR && b != LF
  }

  predicate IsCrlf(s: seq<byte>, i: nat) {
    i + 1 < |s| && s[i] == CR && s[i + 1] == LF
  }

  function CrlfsBefore(s: seq<byte>, i: nat): nat {
    if i == 0 then 0 else CrlfsBefore(s, i - 1) + if IsCrlf(s, i - 1) then 1 else 0
  }

  // The bytes that are counted: past the mark if asked, and without a final end-of-file.
  function Counted(s: seq<byte>, skipBom: bool): seq<byte> {
    var skip := if skipBom then DetectBom(s, 0).1 else 0;
    if s != [] && s[|s| - 1] == END_OF_FILE && skip < |s| then s[skip..|s| - 1] else s[skip..]
  }

  predicate IsNul(b: byte) { b == 0 }

  predicate IsCr(b: byte) { b == CR }

  predicate IsLf(b: byte) { b == LF }

  // The stats of the first `i` counted bytes.
  function StatsUpTo(bom: Bom, t: seq<byte>, i: nat): Stats
    requires i <= |t|
  {
    Stats(bom, Count(t[..i], IsNul), Count(t[..i], IsCr), Count(t[..i], IsLf), CrlfsBefore(t, i),
          Count(t[..i], IsPrintable), Count(t[..i], IsNonprintable))
  }

  function StatsOf(s: seq<byte>, skipBom: bool): Stats {
    var t := Counted(s, skipBom);
    StatsUpTo(DetectBom(s, 0).0, t, |t|)
  }

  predicate LooksLikeBinary(stats: Stats) {
    stats.nul > 0 || stats.printable / 128 < stats.nonprintable
  }

  function OneIf(b: bool): nat {
    if b then 1 else 0
  }

  // The counts with one more byte, which a line feed may follow.
  function Tally(x: Stats, c: byte, lfNext: bool): Stats {
    Stats(x.bom, x.nul + OneIf(c == 0), x.cr + OneIf(c == CR), x.lf + OneIf(c == LF), x.crlf + OneIf(c == CR && lfNext),
          x.printable + OneIf(IsPrintable(c)), x.nonprintable + OneIf(IsNonprintable(c)))
  }

  lemma StatsNext(bom: Bom, t: seq<byte>, i: nat)
    requires i < |t|
    ensures StatsUpTo(bom, t, i + 1) == Tally(StatsUpTo(bom, t, i), t[i], i + 1 < |t| && t[i + 1] == LF)
  {
    hide Count, IsPrintable, IsNonprintable;
    CountNext(t, i, IsNul);
    CountNext(t, i, IsCr);
    CountNext(t, i, IsLf);
    CountNext(t, i, IsPrintable);
    CountNext(t, i, IsNonprintable);
  }

  lemma StatsStart(bom: Bom, t: seq<byte>)
    ensures StatsUpTo(bom, t, 0) == Stats(bom, 0, 0, 0, 0, 0, 0)
  {
  }

  method TallyByte(x: Stats, c: byte, lfNext: bool) returns (stats: Stats)
    ensures stats == Tally(x, c, lfNext)
  {
    stats := x;
    if c > 0x1F && c != 0x7F {
      stats := stats.(printable := stats.printable + 1);
    } else {
      match c {
        case 0 =>
          stats := stats.(nul := stats.nul + 1, nonprintable := stats.nonprintable + 1);
        case 10 =>
          stats := stats.(lf := stats.lf + 1);
        case 13 =>
          stats := stats.(cr := stats.cr + 1);
          if lfNext {
            stats := stats.(crlf := stats.crlf + 1);
          }
        case 9 | 12 | 11 | 8 | 27 =>
          stats := stats.(printable := stats.printable + 1);
        case _ =>
          stats := stats.(nonprintable := stats.nonprintable + 1);
      }
    }
  }

  method GatherStats(s: seq<byte>, skipBom: bool) returns (stats: Stats, binary: bool)
    ensures stats == StatsOf(s, skipBom)
    ensures binary == LooksLikeBinary(stats)
  {
    hide Count, StatsUpTo, DetectBom, Tally;
    var (bom, skip) := DetectBom(s, 0);
    var scan := if skipBom then skip else 0;
    var end := |s|;
    if 0 < |s| && s[end - 1] == END_OF_FILE && scan < |s| {
      end := end - 1;
    }
    ghost var t := s[scan..end];
    ghost var from := scan;
    assert end == |s| ==> t == s[scan..];
    stats := Stats(bom, 0, 0, 0, 0, 0, 0);
    StatsStart(bom, t);
    while scan < end
      invariant from <= scan <= end
      invariant stats == StatsUpTo(bom, t, scan - from)
    {
      var c := s[scan];
      StatsNext(bom, t, scan - from);
      scan := scan + 1;
      assert scan < end ==> t[scan - from] == s[scan];
      stats := TallyByte(stats, c, scan < end && s[scan] == LF);
    }
    binary := stats.nul > 0 || stats.printable / 128 < stats.nonprintable;
  }

  // ---- What the heuristics say ----------------------------------------------

  predicate IsPlain(s: seq<byte>) {
    forall b :: b in s ==> 0x20 <= b <= 0x7E || b == 9 || b == 10 || b == 13
  }

  lemma CountSame(s: seq<byte>, p: byte -> bool, q: byte -> bool)
    requires forall b :: b in s ==> p(b) == q(b)
    ensures Count(s, p) == Count(s, q)
  {
    CountMono(s, p, q);
    CountMono(s, q, p);
  }

  predicate IsAscii(b: byte) { 0x20 <= b <= 0x7E }

  // Control characters other than white space, and what is not ASCII.
  predicate IsStrange(b: byte) { 1 <= b <= 8 || 14 <= b <= 31 || (127 <= b && b != 0x85) }

  /**
    Checkout takes a blob for binary exactly when it has a mark of a wide encoding, or a NUL,
    or fewer than 128 ASCII characters for each strange byte.
  */
  lemma BinaryExactly(s: seq<byte>)
    ensures var (bom, skip) := DetectBom(s, 0);
            IsBinary(s) <==> (bom != NoBom && bom != Utf8) || 0 in s || Count(s[skip..], IsAscii) < 128 * Count(s[skip..], IsStrange)
  {
    hide Count, DetectBom;
    var (bom, skip) := DetectBom(s, 0);
    if bom == NoBom || bom == Utf8 {
      CountSame(s[skip..], IsGraphic, IsAscii);
      CountSame(s[skip..], IsOdd, IsStrange);
      assert s == s[..skip] + s[skip..];
      Ratio(Count(s[skip..], IsAscii), Count(s[skip..], IsStrange));
    }
  }

  lemma Ratio(n: nat, m: nat)
    ensures n / 128 < m <==> n < 128 * m
  {
  }

  /** A text of printable ASCII, tabs and line ends is binary for neither heuristic. */
  lemma PlainIsText(s: seq<byte>)
    requires IsPlain(s)
    ensures !IsBinary(s) && !LooksLikeBinary(StatsOf(s, false))
  {
    hide Count;
    var t := Counted(s, false);
    assert s[0..] == s && t[..|t|] == t && t <= s;
    assert s != [] ==> s[0] in s;
    forall b | b in t ensures b in s {
      var i :| 0 <= i < |t| && t[i] == b;
      assert s[i] == b;
    }
    CountNone(s, IsStrange);
    CountNone(t, IsNul);
    CountNone(t, IsNonprintable);
    BinaryExactly(s);
  }

  /** A file with a NUL is binary for both heuristics. */
  lemma NulIsBinary(s: seq<byte>)
    requires 0 in s
    ensures IsBinary(s) && LooksLikeBinary(StatsOf(s, false))
  {
    hide Count, DetectBom;
    BinaryExactly(s);
    CountCounted(s, IsNul);
    CountNone(s, IsNul);
    var t := Counted(s, false);
    assert t[..|t|] == t && IsNul(0);
  }

  // ---- How the heuristics relate --------------------------------------------

  lemma {:induction false} CountWidened(s: seq<byte>, afterCr: bool, p: byte -> bool)
    requires !p(CR)
    ensures Count(Widen(s, afterCr), p) == Count(s, p)
  {
    if s != [] {
      var rest := Widen(s[1..], s[0] == CR);
      CountWidened(s[1..], s[0] == CR, p);
      CountConcat([s[0]], rest, p);
      CountConcat([s[0]], s[1..], p);
      assert [s[0]] + s[1..] == s;
      if s[0] == LF && !afterCr {
        CountConcat([CR], [LF] + rest, p);
        assert [CR, LF] + rest == [CR] + ([LF] + rest);
      }
    }
  }

  lemma CountCounted(s: seq<byte>, p: byte -> bool)
    ensures Count(Counted(s, false), p) <= Count(s, p)
    ensures !p(END_OF_FILE) ==> Count(Counted(s, false), p) == Count(s, p)
  {
    assert s[0..] == s;
    if s != [] && s[|s| - 1] == END_OF_FILE {
      assert s[0..|s| - 1] == s[..|s| - 1];
    }
  }

  lemma CountPastBom(s: seq<byte>, p: byte -> bool)
    requires DetectBom(s, 0).0 == NoBom || DetectBom(s, 0).0 == Utf8
    ensures Count(s[DetectBom(s, 0).1..], p) <= Count(s, p)
    ensures !p(0xEF) && !p(0xBB) && !p(0xBF) ==> Count(s[DetectBom(s, 0).1..], p) == Count(s, p)
  {
    hide Count, DetectBom;
    var skip := DetectBom(s, 0).1;
    CountConcat(s[..skip], s[skip..], p);
    assert s == s[..skip] + s[skip..];
    if !p(0xEF) && !p(0xBB) && !p(0xBF) {
      NoneInBom(s[..skip], p);
    }
  }

  lemma NoneInBom(mark: seq<byte>, p: byte -> bool)
    requires mark == [] || mark == [0xEF, 0xBB, 0xBF]
    requires !p(0xEF) && !p(0xBB) && !p(0xBF)
    ensures Count(mark, p) == 0
  {
    CountNone(mark, p);
  }

  // What commit counts of a file that checkout widened is bounded by what checkout counted.
  lemma CountsCompared(s: seq<byte>)
    requires DetectBom(s, 0).0 == NoBom || DetectBom(s, 0).0 == Utf8
    requires 0 !in s[DetectBom(s, 0).1..]
    ensures var stats := StatsOf(LfToCrlf(s), false);
            var rest := s[DetectBom(s, 0).1..];
            && stats.nul == 0
            && stats.printable >= Count(rest, IsGraphic)
            && stats.nonprintable <= Count(rest, IsOdd)
  {
    hide Count, DetectBom, Counted;
    var wide, skip := LfToCrlf(s), DetectBom(s, 0).1;
    var t := Counted(wide, false);
    assert t[..|t|] == t;
    CountPastBom(s, IsNul);
    CountPastBom(s, IsPrintable);
    CountPastBom(s, IsNonprintable);
    CountWidened(s, false, IsNul);
    CountWidened(s, false, IsPrintable);
    CountWidened(s, false, IsNonprintable);
    CountCounted(wide, IsNul);
    CountCounted(wide, IsPrintable);
    CountCounted(wide, IsNonprintable);
    CountNone(s[skip..], IsNul);
    CountMono(s[skip..], IsGraphic, IsPrintable);
    CountMono(s[skip..], IsNonprintable, IsOdd);
  }

  /** If commit takes a widened file for binary, checkout had taken its blob for binary. */
  lemma BinaryAgrees(s: seq<byte>)
    ensures LooksLikeBinary(StatsOf(LfToCrlf(s), false)) ==> IsBinary(s)
  {
    hide Count, StatsOf, DetectBom;
    if !IsBinary(s) {
      CountsCompared(s);
    }
  }

  lemma {:induction false} WidenedPairs(s: seq<byte>, i: nat)
    requires CR !in s && i < |Widen(s, false)| && Widen(s, false)[i] == CR
    ensures IsCrlf(Widen(s, false), i)
  {
    var head := if s[0] == LF then [CR, LF] else [s[0]];
    assert s[0] in s;
    if |head| <= i {
      WidenedPairs(s[1..], i - |head|);
    }
  }

  lemma {:induction false} PairsCounted(t: seq<byte>, i: nat)
    requires i <= |t|
    ensures CrlfsBefore(t, i) <= Count(t[..i], IsCr)
    ensures CrlfsBefore(t, i) == Count(t[..i], IsCr) <==> forall k :: 0 <= k < i && t[k] == CR ==> IsCrlf(t, k)
  {
    if 0 < i {
      PairsCounted(t, i - 1);
      CountNext(t, i - 1, IsCr);
    }
  }

  /** The two counts of carriage returns agree exactly when each of them stands before a line feed. */
  lemma AllPaired(s: seq<byte>)
    ensures StatsOf(s, false).cr == StatsOf(s, false).crlf <==> forall k :: 0 <= k < |s| && s[k] == CR ==> IsCrlf(s, k)
  {
    hide Count, CrlfsBefore, DetectBom;
    var t := Counted(s, false);
    assert t <= s && (t == s || (|t| == |s| - 1 && s[|t|] == END_OF_FILE));
    assert t[..|t|] == t;
    PairsCounted(t, |t|);
    assert forall k :: 0 <= k < |t| && t[k] == CR ==> (IsCrlf(t, k) <==> IsCrlf(s, k));
  }

  // Every CR of a widened CR-free blob is counted as part of a pair.
  lemma WidenedStats(s: seq<byte>)
    requires CR !in s
    ensures var stats := StatsOf(LfToCrlf(s), false);
            stats.cr == stats.crlf && (stats.cr == 0 ==> LfToCrlf(s) == s)
  {
    hide Count, Widen, DetectBom;
    var wide := LfToCrlf(s);
    var t := Counted(wide, false);
    assert t <= wide;
    forall k | 0 <= k < |t| && t[k] == CR ensures IsCrlf(t, k) {
      WidenedPairs(s, k);
    }
    PairsCounted(t, |t|);
    assert t[..|t|] == t;
    if LF !in s {
      WidenNothing(s, 0);
      assert s[0..] == s;
    } else {
      WidenedHasCr(s);
      CountCounted(wide, IsCr);
      CountNone(wide, IsCr);
    }
  }

  lemma {:induction false} WidenedHasCr(s: seq<byte>)
    requires CR !in s && LF in s
    ensures CR in Widen(s, false)
  {
    assert s[0] in s;
    if s[0] == LF {
      assert Widen(s, false)[0] == CR;
    } else {
      WidenedHasCr(s[1..]);
    }
  }
}
