/** C strings. Characters stand for bytes; `char` is signed in the original, so byte 0x85 never is a space. */
module CStrings {
  const BACKSPACE: char := '\U{08}'
  const VTAB: char := '\U{0B}'
  const FEED: char := '\U{0C}'

  predicate IsSpace(c: char) {
    c == ' ' || c == '\t' || c == '\n' || c == FEED || c == '\r' || c == VTAB
  }

  // The character at a position of a C string, NUL at and after its end.
  function At(s: string, i: nat): char {
    if i < |s| then s[i] else '\0'
  }

  function IndexOf(s: string, c: char): (i: nat)
    ensures i <= |s|
    ensures i < |s| ==> s[i] == c
    ensures forall k :: 0 <= k < i ==> s[k] != c
  {
    if s == "" || s[0] == c then 0 else 1 + IndexOf(s[1..], c)
  }

  lemma {:induction false} FirstIndexIs(s: string, c: char, i: nat)
    requires i <= |s| && (i < |s| ==> s[i] == c)
    requires forall k :: 0 <= k < i ==> s[k] != c
    ensures IndexOf(s, c) == i
  {
    if 0 < i {
      FirstIndexIs(s[1..], c, i - 1);
    }
  }

  // strcmp: negative, zero or positive as `a` comes before, is or comes after `b`.
  function StrCmp(a: string, b: string): int {
    if a == "" && b == "" then 0
    else if a == "" then -1
    else if b == "" then 1
    else if a[0] != b[0] then a[0] as int - b[0] as int
    else StrCmp(a[1..], b[1..])
  }

  lemma {:induction false} StrCmpIs(a: string, b: string)
    ensures StrCmp(a, b) == 0 <==> a == b
    ensures StrCmp(a, b) < 0 <==> StrCmp(b, a) > 0
  {
    if a != "" && b != "" && a[0] == b[0] {
      StrCmpIs(a[1..], b[1..]);
      assert a == [a[0]] + a[1..] && b == [b[0]] + b[1..];
    }
  }

  lemma {:induction false} StrCmpTrans(a: string, b: string, c: string)
    requires StrCmp(a, b) < 0 && StrCmp(b, c) < 0
    ensures StrCmp(a, c) < 0
  {
    if a != "" && b != "" && c != "" && a[0] == b[0] == c[0] {
      StrCmpTrans(a[1..], b[1..], c[1..]);
    }
  }
}
