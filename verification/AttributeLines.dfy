/** What lines of attributes mean, from their text. */
module AttributeLines {
  import opened Bytes
  import opened CStrings
  import opened AttributeAssignments
  import opened AttributeParsing

  // A name spelled without anything that the scan takes for a prefix or an end.
  predicate IsPlainName(name: string) {
    && name != "" && name[0] != '-' && name[0] != '!' && name[0] != '#'
    && forall k :: 0 <= k < |name| ==> name[k] != '\0' && name[k] != '=' && !IsSpace(name[k])
  }

  predicate IsPlainWord(word: string) {
    word != "" && forall k :: 0 <= k < |word| ==> word[k] != '\0' && !IsSpace(word[k])
  }

  function LineMeaning(text: string, macros: map<string, seq<Assignment>>): map<string, Value> {
    Meaning(ExpandAll(ItemsFrom(text, 0).0, macros))
  }

  lemma NameEnds(text: string, start: nat, name: string)
    requires IsPlainName(name) && start + |name| <= |text| && text[start..start + |name|] == name
    requires start + |name| == |text| || text[start + |name|] == '='
    ensures Until(text, start, EndsName) == start + |name|
  {
    forall k | start <= k < start + |name| ensures !EndsName(At(text, k)) {
      assert text[start..start + |name|][k - start] == text[k];
    }
    hide IsSpace;
    UntilIs(text, start, EndsName, start + |name|);
  }

  lemma OneItem(text: string, item: Item)
    requires text != "" && !EndsLine(text[0]) && ItemAt(text, 0) == item && item.Item? && item.next == |text|
    ensures ItemsFrom(text, 0).0 == [item]
  {
    hide ItemAt;
    ItemsUnfold(text, 0);
    assert ItemsFrom(text, |text|).0 == [];
    assert [item] + [] == [item];
  }

  lemma OneItemMeans(item: Item, macros: map<string, seq<Assignment>>)
    requires item.Item?
    ensures Meaning(ExpandAll([item], macros)) == Meaning(Expand(item, macros))
  {
    hide Expand, Meaning;
    assert [item][1..] == [];
    assert Expand(item, macros) + [] == Expand(item, macros);
  }

  lemma ItemMeans(item: Item, macros: map<string, seq<Assignment>>)
    requires item.Item?
    ensures Meaning(Expand(item, macros))
         == (if item.value == IsTrue && item.name in macros then Meaning(macros[item.name]) else map[])[item.name := item.value]
  {
    hide HashOf, Meaning;
    var own := Assignment(item.name, HashOf(item.name), item.value);
    var before := if item.value == IsTrue && item.name in macros then macros[item.name] else [];
    MeaningConcat(before, [own]);
    MeaningOne(own);
    MeaningOfNone();
  }

  lemma MeaningOfNone()
    ensures Meaning([]) == map[]
  {
  }

  /** A name alone sets the attribute, and with it what a macro of that name stands for. */
  lemma NameSets(name: string, macros: map<string, seq<Assignment>>)
    requires IsPlainName(name)
    ensures LineMeaning(name, macros) == (if name in macros then Meaning(macros[name]) else map[])[name := IsTrue]
  {
    hide Expand, Meaning;
    assert name[0..|name|] == name;
    NameEnds(name, 0, name);
    var item := Item(name, IsTrue, |name|);
    assert ItemAt(name, 0) == item;
    OneItem(name, item);
    OneItemMeans(item, macros);
    ItemMeans(item, macros);
  }

  /** A name behind `-` turns the attribute off, behind `!` it leaves it unspecified; no macro is expanded. */
  lemma PrefixedName(prefix: char, name: string, macros: map<string, seq<Assignment>>)
    requires IsPlainName(name) && (prefix == '-' || prefix == '!')
    ensures LineMeaning([prefix] + name, macros) == map[name := if prefix == '-' then IsFalse else IsUnset]
  {
    hide Expand, Meaning;
    var text := [prefix] + name;
    assert text[1..1 + |name|] == name;
    NameEnds(text, 1, name);
    var item := Item(name, if prefix == '-' then IsFalse else IsUnset, |text|);
    assert ItemAt(text, 0) == item;
    OneItem(text, item);
    OneItemMeans(item, macros);
    ItemMeans(item, macros);
  }

  /** A name with a value has that value; no macro is expanded. */
  lemma NameWithValue(name: string, word: string, macros: map<string, seq<Assignment>>)
    requires IsPlainName(name) && IsPlainWord(word)
    ensures LineMeaning(name + "=" + word, macros) == map[name := Word(word)]
  {
    hide Expand, Meaning;
    var text := name + "=" + word;
    assert text[0..|name|] == name && text[|name|] == '=' && text[|name| + 1..|text|] == word;
    NameEnds(text, 0, name);
    forall k | |name| + 1 <= k < |text| ensures !EndsWord(At(text, k)) {
      assert text[|name| + 1..|text|][k - |name| - 1] == text[k];
    }
    UntilIs(text, |name| + 1, EndsWord, |text|);
    var item := Item(name, Word(word), |text|);
    assert text[0] == name[0];
    assert ItemAt(text, 0) == item;
    OneItem(text, item);
    OneItemMeans(item, macros);
    ItemMeans(item, macros);
  }

  /** Of the items of a line, later ones override earlier ones. */
  lemma {:induction false} LaterOverrides(items: seq<Item>, more: seq<Item>, macros: map<string, seq<Assignment>>)
    ensures Meaning(ExpandAll(items + more, macros)) == Meaning(ExpandAll(items, macros)) + Meaning(ExpandAll(more, macros))
  {
    hide Expand, Meaning;
    if items == [] {
      assert items + more == more;
      MeaningConcat([], ExpandAll(more, macros));
      assert [] + ExpandAll(more, macros) == ExpandAll(more, macros);
    } else {
      assert (items + more)[1..] == items[1..] + more;
      var head := if items[0].Item? then Expand(items[0], macros) else [];
      LaterOverrides(items[1..], more, macros);
      MeaningConcat(head, ExpandAll(items[1..] + more, macros));
      MeaningConcat(head, ExpandAll(items[1..], macros));
    }
  }
}
