/** Assignments of attributes: kept sorted, found by binary search (attr_file.c, vector.c, util.c). */
module AttributeAssignments {
  import opened Bytes
  import opened CStrings

  datatype Value = IsTrue | IsFalse | IsUnset | Word(text: string)

  datatype Assignment = Assignment(name: string, hash: nat, value: Value)

  // ---- The order ------------------------------------------------------------

  const WORD: int := 0x1_0000_0000

  // A `char` of the original is signed.
  function Signed(c: char): int {
    if c as int < 128 then c as int else c as int - 256
  }

  function HashFrom(h: nat, name: string): (r: nat)
    requires h < WORD
    ensures r < WORD
    decreases |name|
  {
    if name == "" then h else HashFrom((h * 33 + Signed(name[0])) % WORD, name[1..])
  }

  function HashOf(name: string): (r: nat)
    ensures r < WORD
  {
    HashFrom(5381, name)
  }

  // By hash, and names of one hash from last to first.
  function Compare(hash: nat, name: string, a: Assignment): int {
    if a.hash < hash then 1
    else if a.hash > hash then -1
    else StrCmp(a.name, name)
  }

  predicate Before(a: Assignment, b: Assignment) {
    Compare(a.hash, a.name, b) < 0
  }

  predicate Sorted(v: seq<Assignment>) {
    && (forall i :: 0 <= i < |v| ==> v[i].hash == HashOf(v[i].name))
    && (forall i, j :: 0 <= i < j < |v| ==> Before(v[i], v[j]))
  }

  lemma CompareTrans(a: Assignment, b: Assignment, c: Assignment)
    requires Before(a, b) && Before(b, c)
    ensures Before(a, c)
  {
    if a.hash == b.hash == c.hash {
      StrCmpTrans(c.name, b.name, a.name);
    }
  }

  lemma CompareFlip(a: Assignment, b: Assignment)
    ensures Compare(a.hash, a.name, b) > 0 <==> Before(b, a)
    ensures Compare(a.hash, a.name, b) == 0 <==> a.hash == b.hash && a.name == b.name
  {
    StrCmpIs(a.name, b.name);
    StrCmpIs(b.name, a.name);
  }

  // ---- Searching ------------------------------------------------------------

  // `pos` is where the name stands in `v`, or where it belongs.
  predicate Splits(v: seq<Assignment>, hash: nat, name: string, low: nat, high: nat) {
    && low <= high <= |v|
    && (forall i :: 0 <= i < low ==> Compare(hash, name, v[i]) > 0)
    && (forall i :: high <= i < |v| ==> Compare(hash, name, v[i]) < 0)
  }

  lemma SplitAt(v: seq<Assignment>, hash: nat, name: string, low: nat, high: nat, part: nat)
    requires Sorted(v) && Splits(v, hash, name, low, high) && low <= part < high
    ensures Compare(hash, name, v[part]) > 0 ==> Splits(v, hash, name, part + 1, high)
    ensures Compare(hash, name, v[part]) < 0 ==> Splits(v, hash, name, low, part)
  {
    hide Compare;
    var key := Assignment(name, hash, IsUnset);
    CompareFlip(key, v[part]);
    forall i | 0 <= i < part && Before(v[part], key) ensures Compare(hash, name, v[i]) > 0 {
      CompareTrans(v[i], v[part], key);
      CompareFlip(key, v[i]);
    }
    forall i | part < i < |v| && Before(key, v[part]) ensures Compare(hash, name, v[i]) < 0 {
      CompareTrans(key, v[part], v[i]);
    }
  }

  method BSearch(v: seq<Assignment>, hash: nat, name: string) returns (found: bool, pos: nat)
    requires Sorted(v)
    ensures found ==> pos < |v| && Compare(hash, name, v[pos]) == 0
    ensures !found ==> Splits(v, hash, name, pos, pos)
  {
    hide Compare, Sorted;
    pos := 0;
    var lim: nat := |v|;
    while lim != 0
      invariant Splits(v, hash, name, pos, pos + lim)
      decreases lim
    {
      var part := pos + lim / 2;
      var cmp := Compare(hash, name, v[part]);
      SplitAt(v, hash, name, pos, pos + lim, part);
      if cmp == 0 {
        return true, part;
      }
      if cmp > 0 {
        pos := part + 1;
        lim := lim - 1;
      }
      lim := lim / 2;
    }
    found := false;
  }

  // What a list of assignments says: later ones override earlier ones.
  function Meaning(v: seq<Assignment>): map<string, Value> {
    if v == [] then map[] else Meaning(v[..|v| - 1])[v[|v| - 1].name := v[|v| - 1].value]
  }

  function Lookup(m: map<string, Value>, name: string): Option<Value> {
    if name in m then Some(m[name]) else None
  }

  predicate Unnamed(v: seq<Assignment>, name: string) {
    forall i :: 0 <= i < |v| ==> v[i].name != name
  }

  lemma {:induction false} MeaningNames(v: seq<Assignment>, name: string)
    ensures name in Meaning(v) <==> !Unnamed(v, name)
  {
    if v != [] {
      MeaningNames(v[..|v| - 1], name);
      assert Unnamed(v, name) <==> Unnamed(v[..|v| - 1], name) && v[|v| - 1].name != name;
    }
  }

  lemma {:induction false} MeaningConcat(v: seq<Assignment>, w: seq<Assignment>)
    ensures Meaning(v + w) == Meaning(v) + Meaning(w)
  {
    if w == [] {
      assert v + w == v;
    } else {
      assert (v + w)[..|v + w| - 1] == v + w[..|w| - 1];
      MeaningConcat(v, w[..|w| - 1]);
    }
  }

  lemma MeaningOne(a: Assignment)
    ensures Meaning([a]) == map[a.name := a.value]
  {
    assert [a][..0] == [];
  }

  lemma MeaningOverridden(x: seq<Assignment>, a: Assignment, y: seq<Assignment>)
    requires Unnamed(y, a.name)
    ensures Meaning(x + [a] + y) == (Meaning(x) + Meaning(y))[a.name := a.value]
  {
    MeaningConcat(x + [a], y);
    MeaningConcat(x, [a]);
    MeaningOne(a);
    MeaningNames(y, a.name);
  }

  lemma SortedNames(v: seq<Assignment>, i: nat, j: nat)
    requires Sorted(v) && i < j < |v|
    ensures v[i].name != v[j].name
  {
    CompareFlip(v[i], v[j]);
  }

  lemma UnnamedAfter(v: seq<Assignment>, i: nat)
    requires Sorted(v) && i < |v|
    ensures Unnamed(v[i + 1..], v[i].name)
  {
    forall j | i < j < |v| ensures v[j].name != v[i].name {
      SortedNames(v, i, j);
    }
  }

  lemma UnnamedSplit(v: seq<Assignment>, hash: nat, name: string, pos: nat)
    requires Sorted(v) && Splits(v, hash, name, pos, pos) && hash == HashOf(name)
    ensures Unnamed(v, name)
  {
    hide HashOf;
    forall i | 0 <= i < |v| ensures v[i].name != name {
      CompareFlip(Assignment(name, hash, IsUnset), v[i]);
      StrCmpIs(v[i].name, name);
    }
  }

  method Find(v: seq<Assignment>, hash: nat, name: string) returns (value: Option<Value>)
    requires Sorted(v) && hash == HashOf(name)
    ensures value == Lookup(Meaning(v), name)
  {
    hide Compare, Meaning, Sorted;
    var found, pos := BSearch(v, hash, name);
    if found {
      CompareFlip(Assignment(name, hash, IsUnset), v[pos]);
      UnnamedAfter(v, pos);
      assert v == v[..pos] + [v[pos]] + v[pos + 1..];
      MeaningOverridden(v[..pos], v[pos], v[pos + 1..]);
      value := Some(v[pos].value);
    } else {
      UnnamedSplit(v, hash, name, pos);
      MeaningNames(v, name);
      value := None;
    }
  }

  // ---- Inserting ------------------------------------------------------------

  lemma InsertedSorted(v: seq<Assignment>, a: Assignment, pos: nat)
    requires Sorted(v) && a.hash == HashOf(a.name) && Splits(v, a.hash, a.name, pos, pos)
    ensures Sorted(v[..pos] + [a] + v[pos..])
  {
    hide Compare, HashOf;
    var w := v[..pos] + [a] + v[pos..];
    forall i, j | 0 <= i < j < |w| ensures Before(w[i], w[j]) {
      if i < pos {
        CompareFlip(a, w[i]);
      }
    }
  }

  method InsertSorted(v: seq<Assignment>, a: Assignment) returns (w: seq<Assignment>)
    requires Sorted(v) && a.hash == HashOf(a.name)
    ensures Sorted(w) && Meaning(w) == Meaning(v)[a.name := a.value]
  {
    hide Compare, Meaning, Sorted;
    var found, pos := BSearch(v, a.hash, a.name);
    if found {
      CompareFlip(a, v[pos]);
      Replaced(v, a, pos);
      w := v[pos := a];
    } else {
      InsertedSorted(v, a, pos);
      Inserted(v, a, pos);
      w := v[..pos] + [a] + v[pos..];
    }
  }

  lemma Replaced(v: seq<Assignment>, a: Assignment, pos: nat)
    requires Sorted(v) && pos < |v| && v[pos].hash == a.hash && v[pos].name == a.name
    ensures Sorted(v[pos := a]) && Meaning(v[pos := a]) == Meaning(v)[a.name := a.value]
  {
    hide Meaning;
    UnnamedAfter(v, pos);
    assert v[pos := a] == v[..pos] + [a] + v[pos + 1..];
    assert v == v[..pos] + [v[pos]] + v[pos + 1..];
    MeaningOverridden(v[..pos], a, v[pos + 1..]);
    MeaningOverridden(v[..pos], v[pos], v[pos + 1..]);
  }

  lemma Inserted(v: seq<Assignment>, a: Assignment, pos: nat)
    requires Sorted(v) && Splits(v, a.hash, a.name, pos, pos) && a.hash == HashOf(a.name)
    ensures Meaning(v[..pos] + [a] + v[pos..]) == Meaning(v)[a.name := a.value]
  {
    hide Meaning, HashOf, Sorted, Compare;
    UnnamedSplit(v, a.hash, a.name, pos);
    assert Unnamed(v[pos..], a.name);
    MeaningOverridden(v[..pos], a, v[pos..]);
    MeaningConcat(v[..pos], v[pos..]);
    assert v == v[..pos] + v[pos..];
  }
}
