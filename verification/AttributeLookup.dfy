/** Looking attributes up: one name, several names, or all of them (attr.c). */
module AttributeLookup {
  import opened Bytes
  import opened AttributeAssignments

  /** A rule of an attribute file; `matches` tells whether it applies to the path asked about. */
  datatype Rule = Rule(matches: bool, assigns: seq<Assignment>)

  type File = seq<Rule>

  predicate SortedRules(file: File) {
    forall j :: 0 <= j < |file| ==> Sorted(file[j].assigns)
  }

  predicate AllSorted(files: seq<File>) {
    forall i :: 0 <= i < |files| ==> SortedRules(files[i])
  }

  // ---- What applies to a path -----------------------------------------------

  function RuleSays(rule: Rule): seq<Assignment> {
    if rule.matches then rule.assigns else []
  }

  // The assignments that apply, strongest first: later rules of a file before earlier ones.
  function FileSays(file: File): seq<Assignment> {
    if file == [] then [] else RuleSays(file[|file| - 1]) + FileSays(file[..|file| - 1])
  }

  function AllSay(files: seq<File>): seq<Assignment> {
    if files == [] then [] else FileSays(files[0]) + AllSay(files[1..])
  }

  // The value of an attribute: what the first assignment to it says.
  function First(v: seq<Assignment>, name: string): Option<Value> {
    if v == [] then None else if v[0].name == name then Some(v[0].value) else First(v[1..], name)
  }

  function Or(a: Option<Value>, b: Option<Value>): Option<Value> {
    if a.Some? then a else b
  }

  lemma {:induction false} FirstConcat(a: seq<Assignment>, b: seq<Assignment>, name: string)
    ensures First(a + b, name) == Or(First(a, name), First(b, name))
  {
    if a == [] {
      assert a + b == b;
    } else {
      assert (a + b)[1..] == a[1..] + b;
      FirstConcat(a[1..], b, name);
    }
  }

  lemma {:induction false} FirstOfSorted(v: seq<Assignment>, name: string)
    requires Sorted(v)
    ensures First(v, name) == Lookup(Meaning(v), name)
  {
    hide Meaning, Sorted;
    if v == [] {
      MeaningNames(v, name);
    } else {
      SortedTail(v);
      FirstOfSorted(v[1..], name);
      assert v == [v[0]] + v[1..];
      MeaningConcat([v[0]], v[1..]);
      MeaningOne(v[0]);
      UnnamedAfter(v, 0);
      MeaningNames(v[1..], v[0].name);
    }
  }

  lemma SortedTail(v: seq<Assignment>)
    requires Sorted(v) && v != []
    ensures Sorted(v[1..])
  {
  }

  /** The rule applies and says something of the attribute. */
  predicate Assigns(rule: Rule, name: string) {
    rule.matches && name in Meaning(rule.assigns)
  }

  predicate Silent(file: File, name: string) {
    forall k :: 0 <= k < |file| ==> !Assigns(file[k], name)
  }

  lemma {:induction false} FileDecides(file: File, name: string, j: nat)
    requires SortedRules(file) && j <= |file| && Silent(file[j..], name)
    requires j > 0 ==> Assigns(file[j - 1], name)
    ensures First(FileSays(file), name) == if j == 0 then None else Some(Meaning(file[j - 1].assigns)[name])
  {
    hide Meaning, Sorted, First;
    FirstOfNothing(name);
    if file != [] {
      var n := |file| - 1;
      FirstConcat(RuleSays(file[n]), FileSays(file[..n]), name);
      FirstOfSorted(file[n].assigns, name);
      if j <= n {
        assert file[j..][n - j] == file[n];
        assert forall k :: 0 <= k < n - j ==> file[..n][j..][k] == file[j..][k];
        FileDecides(file[..n], name, j);
      }
    }
  }

  lemma {:induction false} FilesSilent(files: seq<File>, name: string)
    requires AllSorted(files) && forall i :: 0 <= i < |files| ==> Silent(files[i], name)
    ensures First(AllSay(files), name) == None
  {
    hide Meaning, SortedRules, First, FileSays, Silent;
    FirstOfNothing(name);
    if files != [] {
      assert files[0][0..] == files[0];
      FileDecides(files[0], name, 0);
      FirstConcat(FileSays(files[0]), AllSay(files[1..]), name);
      FilesSilent(files[1..], name);
    }
  }

  /** A rule decides if no file before its own says anything of the attribute, and no later rule of its own file. */
  lemma {:induction false} StrongestDecides(files: seq<File>, i: nat, j: nat, name: string)
    requires AllSorted(files) && i < |files| && j < |files[i]| && Assigns(files[i][j], name)
    requires (forall k :: 0 <= k < i ==> Silent(files[k], name)) && Silent(files[i][j + 1..], name)
    ensures First(AllSay(files), name) == Some(Meaning(files[i][j].assigns)[name])
    decreases i
  {
    hide Meaning, SortedRules, First, FileSays, Silent;
    FirstConcat(FileSays(files[0]), AllSay(files[1..]), name);
    if i == 0 {
      FileDecides(files[0], name, j + 1);
    } else {
      assert files[0][0..] == files[0];
      FileDecides(files[0], name, 0);
      StrongestDecides(files[1..], i - 1, j, name);
    }
  }

  // What is left to read: the first `j` rules of file `i`, and the files after it.
  function Left(files: seq<File>, i: nat, j: nat): seq<Assignment>
    requires i < |files| && j <= |files[i]|
  {
    FileSays(files[i][..j]) + AllSay(files[i + 1..])
  }

  lemma LeftStart(files: seq<File>, i: nat)
    requires i < |files|
    ensures Left(files, i, |files[i]|) == AllSay(files[i..])
    ensures Left(files, i, 0) == AllSay(files[i + 1..])
  {
    assert files[i][..|files[i]|] == files[i];
    assert files[i..][1..] == files[i + 1..];
  }

  lemma LeftNext(files: seq<File>, i: nat, j: nat)
    requires i < |files| && 0 < j <= |files[i]|
    ensures Left(files, i, j) == RuleSays(files[i][j - 1]) + Left(files, i, j - 1)
  {
    assert files[i][..j][..j - 1] == files[i][..j - 1];
    ConcatAssociates(RuleSays(files[i][j - 1]), FileSays(files[i][..j - 1]), AllSay(files[i + 1..]));
  }

  // ---- One name -------------------------------------------------------------

  method Get(files: seq<File>, name: string) returns (value: Option<Value>)
    requires AllSorted(files)
    ensures value == First(AllSay(files), name)
  {
    hide AllSay, Left, First, Meaning, Sorted, HashOf;
    var hash := HashOf(name);
    var i := 0;
    assert files[0..] == files;
    while i < |files|
      invariant i <= |files|
      invariant First(AllSay(files), name) == First(AllSay(files[i..]), name)
    {
      var j: nat := |files[i]|;
      LeftStart(files, i);
      while j > 0
        invariant j <= |files[i]|
        invariant First(AllSay(files), name) == First(Left(files, i, j), name)
      {
        LeftNext(files, i, j);
        j := j - 1;
        var rule := files[i][j];
        FirstConcat(RuleSays(rule), Left(files, i, j), name);
        FirstOfNothing(name);
        if rule.matches {
          FirstOfSorted(rule.assigns, name);
          var found := Find(rule.assigns, hash, name);
          if found.Some? {
            return found;
          }
        }
      }
      i := i + 1;
    }
    assert files[i..] == [];
    NothingSaid();
    FirstOfNothing(name);
    value := None;
  }

  lemma FirstOfNothing(name: string)
    ensures First([], name) == None
  {
  }

  lemma NothingSaid()
    ensures AllSay([]) == []
  {
  }

  // ---- Several names --------------------------------------------------------

  function CountTrue(s: seq<bool>): (n: nat)
    ensures n <= |s|
    ensures n == |s| ==> forall k :: 0 <= k < |s| ==> s[k]
  {
    if s == [] then 0 else CountTrue(s[..|s| - 1]) + if s[|s| - 1] then 1 else 0
  }

  lemma {:induction false} CountSet(s: seq<bool>, k: nat)
    requires k < |s| && !s[k]
    ensures CountTrue(s[k := true]) == CountTrue(s) + 1
  {
    if k < |s| - 1 {
      CountSet(s[..|s| - 1], k);
      assert s[k := true][..|s| - 1] == s[..|s| - 1][k := true];
    } else {
      assert s[k := true][..|s| - 1] == s[..|s| - 1];
    }
  }

  // Either the name has its value already, or what is left to read decides it.
  ghost predicate Answered(found: bool, value: Option<Value>, name: string, all: seq<Assignment>, left: seq<Assignment>) {
    if found then value.Some? && value == First(all, name) else First(all, name) == First(left, name)
  }

  method AskRule(assigns: seq<Assignment>, names: seq<string>, values: array<Option<Value>>, found: array<bool>,
                 hashes: array<Option<nat>>, numFound: nat, ghost all: seq<Assignment>, ghost left: seq<Assignment>)
    returns (n: nat)
    requires values.Length == found.Length == hashes.Length == |names| && Sorted(assigns)
    requires values != hashes as object && CountTrue(found[..]) == numFound
    requires forall k :: 0 <= k < |names| ==> Answered(found[k], values[k], names[k], all, assigns + left)
    requires forall k :: 0 <= k < |names| && hashes[k].Some? ==> hashes[k].value == HashOf(names[k])
    modifies values, found, hashes
    ensures CountTrue(found[..]) == n
    ensures n == |names| || forall k :: 0 <= k < |names| ==> Answered(found[k], values[k], names[k], all, left)
    ensures n == |names| ==> forall k :: 0 <= k < |names| ==> values[k] == First(all, names[k])
    ensures forall k :: 0 <= k < |names| && hashes[k].Some? ==> hashes[k].value == HashOf(names[k])
  {
    hide First, CountTrue, Meaning, Sorted, HashOf;
    n := numFound;
    var k := 0;
    while k < |names|
      invariant k <= |names| && CountTrue(found[..]) == n
      invariant forall i :: 0 <= i < k ==> Answered(found[i], values[i], names[i], all, left)
      invariant forall i :: k <= i < |names| ==> Answered(found[i], values[i], names[i], all, assigns + left)
      invariant forall i :: 0 <= i < |names| && hashes[i].Some? ==> hashes[i].value == HashOf(names[i])
    {
      if !found[k] {
        if hashes[k].None? {
          hashes[k] := Some(HashOf(names[k]));
        }
        FirstConcat(assigns, left, names[k]);
        FirstOfSorted(assigns, names[k]);
        var value := Find(assigns, hashes[k].value, names[k]);
        if value.Some? {
          CountSet(found[..], k);
          ghost var before := found[..];
          found[k] := true;
          assert found[..] == before[k := true];
          values[k] := value;
          n := n + 1;
          if n == |names| {
            assert value == First(all, names[k]);
            forall i | 0 <= i < |names| ensures values[i] == First(all, names[i]) {
              assert found[..][i];
              assert i < k ==> Answered(found[i], values[i], names[i], all, left);
              assert i > k ==> Answered(found[i], values[i], names[i], all, assigns + left);
            }
            return;
          }
        }
      }
      k := k + 1;
    }
  }

  method GetMany(files: seq<File>, names: seq<string>, values: array<Option<Value>>)
    requires AllSorted(files) && values.Length == |names|
    modifies values
    ensures forall k :: 0 <= k < |names| ==> values[k] == First(AllSay(files), names[k])
  {
    hide AllSay, Left, First, CountTrue, Sorted, HashOf;
    var found := new bool[|names|](_ => false);
    var hashes := new Option<nat>[|names|](_ => None);
    ghost var all := AllSay(files);
    var numFound := 0;
    NoneTrue(found[..]);
    var i := 0;
    assert files[0..] == files;
    while i < |files|
      invariant i <= |files| && CountTrue(found[..]) == numFound
      invariant forall k :: 0 <= k < |names| ==> Answered(found[k], values[k], names[k], all, AllSay(files[i..]))
      invariant forall k :: 0 <= k < |names| && hashes[k].Some? ==> hashes[k].value == HashOf(names[k])
    {
      var j: nat := |files[i]|;
      LeftStart(files, i);
      while j > 0
        invariant j <= |files[i]| && CountTrue(found[..]) == numFound
        invariant forall k :: 0 <= k < |names| ==> Answered(found[k], values[k], names[k], all, Left(files, i, j))
        invariant forall k :: 0 <= k < |names| && hashes[k].Some? ==> hashes[k].value == HashOf(names[k])
      {
        LeftNext(files, i, j);
        j := j - 1;
        var rule := files[i][j];
        assert RuleSays(rule) == [] ==> RuleSays(rule) + Left(files, i, j) == Left(files, i, j);
        if rule.matches {
          numFound := AskRule(rule.assigns, names, values, found, hashes, numFound, all, Left(files, i, j));
          if numFound == |names| {
            return;
          }
        }
      }
      i := i + 1;
    }
    NothingSaid();
    assert files[i..] == [];
    ClearUnfound(names, values, found, all);
  }

  method ClearUnfound(names: seq<string>, values: array<Option<Value>>, found: array<bool>, ghost all: seq<Assignment>)
    requires values.Length == found.Length == |names|
    requires forall k :: 0 <= k < |names| ==> Answered(found[k], values[k], names[k], all, [])
    modifies values
    ensures forall k :: 0 <= k < |names| ==> values[k] == First(all, names[k])
  {
    hide First;
    var k := 0;
    while k < |names|
      modifies values
      invariant k <= |names|
      invariant forall m :: 0 <= m < k ==> values[m] == First(all, names[m])
      invariant forall m :: k <= m < |names| ==> Answered(found[m], values[m], names[m], all, [])
    {
      FirstOfNothing(names[k]);
      if !found[k] {
        values[k] := None;
      }
      k := k + 1;
    }
  }

  lemma {:induction false} NoneTrue(s: seq<bool>)
    requires forall k :: 0 <= k < |s| ==> !s[k]
    ensures CountTrue(s) == 0
  {
    if s != [] {
      NoneTrue(s[..|s| - 1]);
    }
  }

  // ---- All of them ----------------------------------------------------------

  // The first assignment to each name that has not been seen.
  function Reports(v: seq<Assignment>, seen: set<string>): seq<Assignment> {
    if v == [] then []
    else if v[0].name in seen then Reports(v[1..], seen)
    else [v[0]] + Reports(v[1..], seen + {v[0].name})
  }

  function Names(v: seq<Assignment>): set<string> {
    set i | 0 <= i < |v| :: v[i].name
  }

  /** Each name that is assigned and has not been seen is reported once, with the value the first assignment gives it. */
  lemma {:induction false} ReportsAreFirst(v: seq<Assignment>, seen: set<string>, name: string)
    ensures var r := Reports(v, seen);
            && (forall i, j :: 0 <= i < j < |r| ==> r[i].name != r[j].name)
            && First(r, name) == if name in seen then None else First(v, name)
  {
    if v != [] {
      var a := v[0];
      if a.name in seen {
        ReportsAreFirst(v[1..], seen, name);
      } else {
        var rest := Reports(v[1..], seen + {a.name});
        ReportsAreFirst(v[1..], seen + {a.name}, name);
        forall i | 0 <= i < |rest| ensures rest[i].name != a.name {
          ReportsAreFirst(v[1..], seen + {a.name}, a.name);
          FirstSome(rest, i);
        }
      }
    }
  }

  lemma {:induction false} FirstSome(v: seq<Assignment>, i: nat)
    requires i < |v|
    ensures First(v, v[i].name).Some?
  {
    if 0 < i {
      FirstSome(v[1..], i - 1);
    }
  }

  // The callback took every one of these.
  ghost predicate Accepted(reported: seq<Assignment>, callback: (string, Value) -> int) {
    forall k :: 0 <= k < |reported| ==> callback(reported[k].name, reported[k].value) == 0
  }

  // What has been reported when the callback has ended the run with `error`, or when all is said.
  ghost predicate IsRun(reported: seq<Assignment>, error: int, callback: (string, Value) -> int, all: seq<Assignment>) {
    if error == 0 then reported == all && Accepted(reported, callback)
    else
      && reported != [] && reported <= all
      && Accepted(reported[..|reported| - 1], callback)
      && callback(reported[|reported| - 1].name, reported[|reported| - 1].value) == error
  }

  lemma RunGrows(before: seq<Assignment>, more: seq<Assignment>, error: int, callback: (string, Value) -> int,
                 rest: seq<Assignment>)
    requires Accepted(before, callback) && IsRun(more, error, callback, rest)
    ensures IsRun(before + more, error, callback, before + rest)
  {
    if error != 0 {
      var r := before + more;
      assert r[..|r| - 1] == before + more[..|more| - 1];
      assert more == rest[..|more|];
      assert r == (before + rest)[..|r|];
    }
  }

  // Runs through one rule; what is left is reported after it.
  method ReportRule(assigns: seq<Assignment>, seen: set<string>, callback: (string, Value) -> int)
    returns (reported: seq<Assignment>, now: set<string>, error: int)
    ensures IsRun(reported, error, callback, Reports(assigns, seen))
    ensures now == seen + Names(reported)
  {
    hide Names, Reports;
    NamesOfNothing();
    reported, now, error := [], seen, 0;
    var k := 0;
    assert assigns[0..] == assigns;
    while k < |assigns|
      invariant k <= |assigns| && now == seen + Names(reported) && Accepted(reported, callback)
      invariant Reports(assigns, seen) == reported + Reports(assigns[k..], now)
    {
      var assign := assigns[k];
      ReportsNext(assigns, k, now);
      if assign.name !in now {
        ConcatAssociates(reported, [assign], Reports(assigns[k + 1..], now + {assign.name}));
        NamesSnoc(reported, assign);
        reported := reported + [assign];
        now := now + {assign.name};
        error := callback(assign.name, assign.value);
        if error != 0 {
          assert reported[..|reported| - 1] + [assign] == reported;
          return;
        }
      }
      k := k + 1;
    }
    assert assigns[k..] == [] && reported + [] == reported;
    NothingReported(now);
  }

  lemma ReportsNext(v: seq<Assignment>, k: nat, seen: set<string>)
    requires k < |v|
    ensures Reports(v[k..], seen) ==
            if v[k].name in seen then Reports(v[k + 1..], seen) else [v[k]] + Reports(v[k + 1..], seen + {v[k].name})
  {
    assert v[k..][1..] == v[k + 1..];
  }

  lemma NamesSnoc(v: seq<Assignment>, a: Assignment)
    ensures Names(v + [a]) == Names(v) + {a.name}
  {
    NamesConcat(v, [a]);
    NamesCons(a, []);
    NamesOfNothing();
  }

  lemma {:induction false} ReportsConcat(a: seq<Assignment>, b: seq<Assignment>, seen: set<string>)
    ensures Reports(a + b, seen) == Reports(a, seen) + Reports(b, seen + Names(Reports(a, seen)))
  {
    if a == [] {
      assert a + b == b;
      assert seen + Names([]) == seen;
      assert [] + Reports(b, seen) == Reports(b, seen);
    } else {
      assert (a + b)[1..] == a[1..] + b;
      if a[0].name in seen {
        ReportsConcat(a[1..], b, seen);
      } else {
        var more := seen + {a[0].name};
        var rest := Reports(a[1..], more);
        ReportsConcat(a[1..], b, more);
        NamesCons(a[0], rest);
        assert more + Names(rest) == seen + Names([a[0]] + rest);
        ConcatAssociates([a[0]], rest, Reports(b, more + Names(rest)));
      }
    }
  }

  lemma NamesOfNothing()
    ensures Names([]) == {}
  {
  }

  lemma NamesCons(a: Assignment, rest: seq<Assignment>)
    ensures Names([a] + rest) == {a.name} + Names(rest)
  {
    var v := [a] + rest;
    assert v[0] == a && forall i :: 0 <= i < |rest| ==> v[i + 1] == rest[i];
    forall name | name in {a.name} + Names(rest) ensures name in Names(v) {
      if name != a.name {
        var i :| 0 <= i < |rest| && rest[i].name == name;
        assert v[i + 1].name == name;
      }
    }
  }

  lemma NamesConcat(a: seq<Assignment>, b: seq<Assignment>)
    ensures Names(a + b) == Names(a) + Names(b)
  {
    var v := a + b;
    forall name | name in Names(a) + Names(b) ensures name in Names(v) {
      if name in Names(a) {
        var i :| 0 <= i < |a| && a[i].name == name;
        assert v[i].name == name;
      } else {
        var i :| 0 <= i < |b| && b[i].name == name;
        assert v[|a| + i].name == name;
      }
    }
  }

  /** Reports to the callback until it refuses. */
  method Foreach(files: seq<File>, callback: (string, Value) -> int) returns (reported: seq<Assignment>, error: int)
    ensures IsRun(reported, error, callback, Reports(AllSay(files), {}))
  {
    hide AllSay, Left, Reports, IsRun, Names;
    ghost var all := Reports(AllSay(files), {});
    var seen: set<string> := {};
    reported, error := [], 0;
    var i := 0;
    assert files[0..] == files;
    while i < |files|
      invariant i <= |files|
      invariant Accepted(reported, callback)
      invariant all == reported + Reports(AllSay(files[i..]), seen)
    {
      var j: nat := |files[i]|;
      LeftStart(files, i);
      while j > 0
        invariant j <= |files[i]|
        invariant Accepted(reported, callback)
        invariant all == reported + Reports(Left(files, i, j), seen)
      {
        LeftNext(files, i, j);
        j := j - 1;
        var rule := files[i][j];
        assert RuleSays(rule) == [] ==> RuleSays(rule) + Left(files, i, j) == Left(files, i, j);
        if rule.matches {
          ReportsConcat(rule.assigns, Left(files, i, j), seen);
          ghost var before, rest := reported, Reports(Left(files, i, j), seen + Names(Reports(rule.assigns, seen)));
          var more;
          ghost var was := seen;
          more, seen, error := ReportRule(rule.assigns, seen, callback);
          RunExtends(more, error, callback, Reports(rule.assigns, was), []);
          RunGrows(before, more, error, callback, Reports(rule.assigns, was));
          ConcatAssociates(before, Reports(rule.assigns, was), rest);
          reported := reported + more;
          RunExtends(reported, error, callback, before + Reports(rule.assigns, was), rest);
          if error != 0 {
            return;
          }
        }
      }
      i := i + 1;
    }
    assert files[i..] == [];
    NothingSaid();
    NothingReported(seen);
    assert reported + [] == reported;
    RunEnds(reported, callback);
  }

  lemma NothingReported(seen: set<string>)
    ensures Reports([], seen) == []
  {
  }

  lemma RunEnds(reported: seq<Assignment>, callback: (string, Value) -> int)
    requires Accepted(reported, callback)
    ensures IsRun(reported, 0, callback, reported)
  {
  }

  lemma RunExtends(reported: seq<Assignment>, error: int, callback: (string, Value) -> int,
                   all: seq<Assignment>, rest: seq<Assignment>)
    requires IsRun(reported, error, callback, all)
    ensures error != 0 ==> IsRun(reported, error, callback, all + rest)
    ensures error == 0 ==> reported == all && Accepted(reported, callback)
  {
  }
}
