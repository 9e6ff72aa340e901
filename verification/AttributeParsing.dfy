/** The assignments of one attribute line, with macros expanded (git_attr_assignment__parse). */
module AttributeParsing {
  import opened Bytes
  import opened CStrings
  import opened AttributeAssignments

  // ---- What a line says -----------------------------------------------------

  predicate EndsLine(c: char) {
    c == '\0' || c == '\n'
  }

  predicate EndsWord(c: char) {
    c == '\0' || IsSpace(c)
  }

  predicate EndsName(c: char) {
    EndsWord(c) || c == '='
  }

  // The first position from `i` on where a character satisfies `p`, as NUL does.
  function Until(text: string, i: nat, p: char -> bool): (end: nat)
    requires p('\0')
    ensures i <= end && p(At(text, end))
    ensures i < end ==> end <= |text| && !p(At(text, i))
    ensures forall k :: i <= k < end ==> !p(At(text, k))
    decreases |text| - i
  {
    if p(At(text, i)) then i else Until(text, i + 1, p)
  }

  predicate EndsBlank(c: char) {
    !IsSpace(c) || c == '\n'
  }

  // A name with its value, and where the scan goes on; or no name at all.
  datatype Item = Item(name: string, value: Value, next: nat) | NoName(next: nat) | Comment(next: nat)

  // The item whose name starts at `name`, its prefix having set `value`.
  function ItemFrom(text: string, name: nat, value: Value): Item {
    var end := Until(text, name, EndsName);
    if end == name then NoName(Until(text, end, EndsWord))
    else if At(text, end) != '=' then Item(text[name..end], value, end)
    else
      var stop := Until(text, end + 1, EndsWord);
      Item(text[name..end], if end + 1 < stop then Word(text[end + 1..stop]) else value, stop)
  }

  function ItemAt(text: string, i: nat): Item {
    var start := Until(text, i, EndsBlank);
    match At(text, start)
    case '#' => Comment(start)
    case '-' => ItemFrom(text, start + 1, IsFalse)
    case '!' => ItemFrom(text, start + 1, IsUnset)
    case _ => ItemFrom(text, start, IsTrue)
  }

  lemma ItemFromAdvances(text: string, name: nat, value: Value)
    requires name <= |text|
    ensures name <= ItemFrom(text, name, value).next <= |text|
    ensures !EndsWord(At(text, name)) ==> name < ItemFrom(text, name, value).next
    ensures !ItemFrom(text, name, value).Comment?
  {
    hide Until, IsSpace;
  }

  lemma ItemAdvances(text: string, i: nat)
    requires !EndsLine(At(text, i)) && !ItemAt(text, i).Comment?
    ensures i < ItemAt(text, i).next <= |text|
  {
    hide Until, ItemFrom;
    var start := Until(text, i, EndsBlank);
    assert i == start || i < start;
    ItemFromAdvances(text, start, IsTrue);
    if At(text, start) == '-' || At(text, start) == '!' {
      ItemFromAdvances(text, start + 1, IsFalse);
      ItemFromAdvances(text, start + 1, IsUnset);
    }
  }

  // The items of a line from `i`, and where the scan stops.
  function ItemsFrom(text: string, i: nat): (r: (seq<Item>, nat))
    decreases |text| - i
  {
    if EndsLine(At(text, i)) then ([], i)
    else
      var item := ItemAt(text, i);
      if item.Comment? then ([], item.next)
      else
        ItemAdvances(text, i);
        var rest := ItemsFrom(text, item.next);
        (if item.NoName? then rest.0 else [item] + rest.0, rest.1)
  }

  // A macro that is set comes with its own assignments, which its own follows.
  function Expand(item: Item, macros: map<string, seq<Assignment>>): seq<Assignment>
    requires item.Item?
  {
    (if item.value == IsTrue && item.name in macros then macros[item.name] else [])
      + [Assignment(item.name, HashOf(item.name), item.value)]
  }

  function ExpandAll(items: seq<Item>, macros: map<string, seq<Assignment>>): seq<Assignment> {
    if items == [] then []
    else (if items[0].Item? then Expand(items[0], macros) else []) + ExpandAll(items[1..], macros)
  }

  // ---- Scanning -------------------------------------------------------------

  lemma {:induction false} UntilIs(text: string, i: nat, p: char -> bool, end: nat)
    requires p('\0') && i <= end && p(At(text, end))
    requires forall k :: i <= k < end ==> !p(At(text, k))
    ensures Until(text, i, p) == end
    decreases end - i
  {
    if i < end {
      UntilIs(text, i + 1, p, end);
    }
  }

  method ScanTo(text: string, i: nat, p: char -> bool) returns (end: nat)
    requires p('\0')
    ensures end == Until(text, i, p)
  {
    end := i;
    while !p(At(text, end))
      invariant i <= end
      invariant forall k :: i <= k < end ==> !p(At(text, k))
      decreases |text| - end
    {
      end := end + 1;
    }
    UntilIs(text, i, p, end);
  }

  lemma {:induction false} HashNext(h: nat, name: string, c: char)
    requires h < WORD
    ensures HashFrom(h, name + [c]) == (HashFrom(h, name) * 33 + Signed(c)) % WORD
    decreases |name|
  {
    if name == "" {
      assert ([c])[1..] == "";
    } else {
      assert (name + [c])[1..] == name[1..] + [c];
      HashNext((h * 33 + Signed(name[0])) % WORD, name[1..], c);
    }
  }

  method ScanName(text: string, start: nat) returns (end: nat, hash: nat)
    requires start <= |text|
    ensures end == Until(text, start, EndsName)
    ensures start <= end <= |text| && hash == HashOf(text[start..end])
  {
    hide HashFrom, IsSpace, Signed;
    end, hash := start, 5381;
    HashNothing();
    assert text[start..end] == "";
    while !EndsName(At(text, end))
      invariant start <= end <= |text|
      invariant hash < WORD && hash == HashFrom(5381, text[start..end])
      invariant forall k :: start <= k < end ==> !EndsName(At(text, k))
      decreases |text| - end
    {
      HashNext(5381, text[start..end], text[end]);
      assert text[start..end + 1] == text[start..end] + [text[end]];
      hash := (hash * 33 + Signed(text[end])) % WORD;
      end := end + 1;
    }
    UntilIs(text, start, EndsName, end);
  }

  lemma HashNothing()
    ensures HashFrom(5381, "") == 5381
  {
  }

  function PastBreaks(text: string, i: nat): nat
    decreases |text| - i
  {
    if At(text, i) == '\n' || At(text, i) == '\r' then PastBreaks(text, i + 1) else i
  }

  function NextLine(text: string, i: nat): nat {
    PastBreaks(text, Until(text, i, EndsLine))
  }

  method ScanLine(text: string, i: nat) returns (next: nat)
    ensures next == NextLine(text, i)
  {
    next := ScanTo(text, i, EndsLine);
    while At(text, next) == '\n' || At(text, next) == '\r'
      invariant PastBreaks(text, next) == NextLine(text, i)
      decreases |text| - next
    {
      next := next + 1;
    }
  }

  predicate SortedMacros(macros: map<string, seq<Assignment>>) {
    forall name :: name in macros ==> Sorted(macros[name])
  }

  // Assignments put into a sorted list one by one.
  method InsertAll(v: seq<Assignment>, more: seq<Assignment>) returns (w: seq<Assignment>)
    requires Sorted(v) && forall a :: a in more ==> a.hash == HashOf(a.name)
    ensures Sorted(w) && Meaning(w) == Meaning(v + more)
  {
    hide Sorted, Meaning, HashOf;
    w := v;
    var i := 0;
    assert v + more[..0] == v;
    while i < |more|
      invariant i <= |more|
      invariant Sorted(w) && Meaning(w) == Meaning(v + more[..i])
    {
      w := InsertSorted(w, more[i]);
      assert v + more[..i + 1] == v + more[..i] + [more[i]];
      MeaningConcat(v + more[..i], [more[i]]);
      MeaningOne(more[i]);
      i := i + 1;
    }
    assert more[..i] == more;
  }

  lemma {:induction false} ExpandNext(items: seq<Item>, item: Item, macros: map<string, seq<Assignment>>)
    requires item.Item?
    ensures ExpandAll(items + [item], macros) == ExpandAll(items, macros) + Expand(item, macros)
  {
    hide Expand;
    if items == [] {
      assert [item][1..] == [];
      assert Expand(item, macros) + [] == Expand(item, macros) == [] + Expand(item, macros);
      assert [] + [item] == [item];
    } else {
      var head := if items[0].Item? then Expand(items[0], macros) else [];
      assert (items + [item])[1..] == items[1..] + [item];
      ExpandNext(items[1..], item, macros);
      ConcatAssociates(head, ExpandAll(items[1..], macros), Expand(item, macros));
    }
  }

  method AddItem(v: seq<Assignment>, item: Item, hash: nat, macros: map<string, seq<Assignment>>)
    returns (w: seq<Assignment>)
    requires Sorted(v) && SortedMacros(macros) && item.Item? && hash == HashOf(item.name)
    ensures Sorted(w) && w != [] && Meaning(w) == Meaning(v + Expand(item, macros))
  {
    hide Meaning, HashOf;
    var own := Assignment(item.name, hash, item.value);
    w := v;
    var expanded: seq<Assignment> := [];
    if item.value == IsTrue && item.name in macros {
      expanded := macros[item.name];
      w := InsertAll(w, expanded);
    }
    assert v + [] == v;
    MeaningConcat(v + expanded, [own]);
    MeaningOne(own);
    assert v + (expanded + [own]) == (v + expanded) + [own];
    w := InsertSorted(w, own);
    MeaningNames([], own.name);
  }

  method ScanNamed(text: string, start: nat, prefix: Value) returns (item: Item, hash: nat)
    requires start <= |text|
    ensures item == ItemFrom(text, start, prefix)
    ensures item.Item? ==> hash == HashOf(item.name)
  {
    hide HashOf, Until, IsSpace;
    var end;
    end, hash := ScanName(text, start);
    if end == start {
      var stop := ScanTo(text, end, EndsWord);
      return NoName(stop), 0;
    }
    if At(text, end) != '=' {
      return Item(text[start..end], prefix, end), hash;
    }
    var value := prefix;
    var stop := ScanTo(text, end + 1, EndsWord);
    if end + 1 < stop {
      value := Word(text[end + 1..stop]);
    }
    item := Item(text[start..end], value, stop);
  }

  method ScanItem(text: string, i: nat) returns (item: Item, hash: nat)
    requires i <= |text|
    ensures item == ItemAt(text, i)
    ensures item.Item? ==> hash == HashOf(item.name)
  {
    hide HashOf, Until, ItemFrom;
    var start := ScanTo(text, i, EndsBlank);
    if At(text, start) == '-' {
      item, hash := ScanNamed(text, start + 1, IsFalse);
    } else if At(text, start) == '!' {
      item, hash := ScanNamed(text, start + 1, IsUnset);
    } else if At(text, start) == '#' {
      return Comment(start), 0;
    } else {
      item, hash := ScanNamed(text, start, IsTrue);
    }
  }

  // The list so far means the items so far.
  ghost predicate Parsed(assigns: seq<Assignment>, items: seq<Item>, macros: map<string, seq<Assignment>>) {
    && Sorted(assigns) && Meaning(assigns) == Meaning(ExpandAll(items, macros))
    && (assigns == [] <==> items == [])
  }

  lemma ParsedNext(v: seq<Assignment>, items: seq<Item>, item: Item, macros: map<string, seq<Assignment>>,
                   w: seq<Assignment>)
    requires Parsed(v, items, macros) && item.Item?
    requires Sorted(w) && w != [] && Meaning(w) == Meaning(v + Expand(item, macros))
    ensures Parsed(w, items + [item], macros)
  {
    hide Meaning, Sorted, ExpandAll, Expand;
    MeaningConcat(v, Expand(item, macros));
    MeaningConcat(ExpandAll(items, macros), Expand(item, macros));
    ExpandNext(items, item, macros);
  }

  /** Parses a line: the list is sorted, without duplicates, and means what the items say from left to right. */
  method ParseAssignments(macros: map<string, seq<Assignment>>, text: string, base: nat)
    returns (assigns: seq<Assignment>, next: nat, found: bool)
    requires base <= |text| && SortedMacros(macros)
    ensures Sorted(assigns)
    ensures Meaning(assigns) == Meaning(ExpandAll(ItemsFrom(text, base).0, macros))
    ensures next == NextLine(text, ItemsFrom(text, base).1)
    ensures found <==> ItemsFrom(text, base).0 != []
  {
    hide Meaning, ExpandAll, Expand, SortedMacros, ItemAt, HashOf;
    assigns := [];
    ghost var done: seq<Item> := [];
    ghost var all := ItemsFrom(text, base);
    var scan := base;
    assert [] + all.0 == all.0;
    ExpandNothing(macros);
    while !EndsLine(At(text, scan))
      invariant base <= scan <= |text| && Parsed(assigns, done, macros)
      invariant all.0 == done + ItemsFrom(text, scan).0 && all.1 == ItemsFrom(text, scan).1
      decreases |text| - scan
    {
      ItemsUnfold(text, scan);
      var item, hash := ScanItem(text, scan);
      if item.Comment? {
        scan := item.next;
        assert done + [] == done;
        break;
      }
      scan := item.next;
      if item.Item? {
        ghost var before := assigns;
        assigns := AddItem(assigns, item, hash, macros);
        ParsedNext(before, done, item, macros, assigns);
        ConcatAssociates(done, [item], ItemsFrom(text, scan).0);
        done := done + [item];
      } else {
        assert [] + ItemsFrom(text, scan).0 == ItemsFrom(text, scan).0;
      }
    }
    assert done + [] == done;
    assert all.0 == done && all.1 == scan;
    found := assigns != [];
    next := ScanLine(text, scan);
  }

  lemma ExpandNothing(macros: map<string, seq<Assignment>>)
    ensures ExpandAll([], macros) == []
  {
  }

  lemma ItemsUnfold(text: string, i: nat)
    requires !EndsLine(At(text, i))
    ensures var item := ItemAt(text, i);
            if item.Comment? then ItemsFrom(text, i) == ([], item.next)
            else i < item.next <= |text|
                 && ItemsFrom(text, i).1 == ItemsFrom(text, item.next).1
                 && ItemsFrom(text, i).0
                    == (if item.Item? then [item] else []) + ItemsFrom(text, item.next).0
  {
    hide ItemAt;
    if !ItemAt(text, i).Comment? {
      ItemAdvances(text, i);
    }
  }
}
