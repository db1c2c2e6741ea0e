// The three ways of asking the attribute files that apply to a path: one
// name, many names, and every name.

module AttrLookup {
  import opened Wrappers
  import opened AttrRules

  // A rule, with whether it matches the path.
  datatype Rule = Rule(matches: bool, assigns: seq<Assign>)

  type File = seq<Rule>

  // The matching rules of a file, from the bottom to the top.
  function Matching(rules: File): seq<seq<Assign>> {
    if |rules| == 0 then []
    else
      var last := rules[|rules| - 1];
      (if last.matches then [last.assigns] else []) + Matching(rules[..|rules| - 1])
  }

  // All of them, in the order of precedence.
  function Stack(files: seq<File>): seq<seq<Assign>> {
    if |files| == 0 then [] else Matching(files[0]) + Stack(files[1..])
  }

  // The first rule that assigns the name decides.
  function Lookup(stack: seq<seq<Assign>>, name: string): Option<Value> {
    if |stack| == 0 then None
    else if name in Assigned(stack[0]) then Some(Assigned(stack[0])[name].value)
    else Lookup(stack[1..], name)
  }

  predicate AllSorted(files: seq<File>) {
    forall i, j :: 0 <= i < |files| && 0 <= j < |files[i]| ==> Sorted(files[i][j].assigns)
  }

  // The rules still to be asked in the i-th file below its j-th, and after it.
  function Rest(files: seq<File>, i: nat, j: nat): seq<seq<Assign>>
    requires i < |files| && j <= |files[i]|
  {
    Matching(files[i][..j]) + Stack(files[i + 1..])
  }

  lemma RestStep(files: seq<File>, i: nat, j: nat)
    requires i < |files| && j < |files[i]|
    ensures var rule := files[i][j];
      Rest(files, i, j + 1) == (if rule.matches then [rule.assigns] else []) + Rest(files, i, j)
  {
    assert files[i][..j + 1][..j] == files[i][..j];
  }

  lemma RestEnds(files: seq<File>, i: nat)
    requires i < |files|
    ensures Rest(files, i, |files[i]|) == Stack(files[i..])
    ensures Rest(files, i, 0) == Stack(files[i + 1..])
  {
    assert files[i][..|files[i]|] == files[i] && files[i..][1..] == files[i + 1..];
  }

  lemma LookupStep(rule: Rule, rest: seq<seq<Assign>>, name: string)
    ensures Lookup((if rule.matches then [rule.assigns] else []) + rest, name) ==
            if rule.matches && name in Assigned(rule.assigns) then Some(Assigned(rule.assigns)[name].value)
            else Lookup(rest, name)
  {
    assert rule.matches ==> ([rule.assigns] + rest)[1..] == rest;
    assert [] + rest == rest;
  }

  // The j-th rule of the i-th file matches and assigns the name.
  predicate Assigns(files: seq<File>, i: nat, j: nat, name: string) {
    i < |files| && j < |files[i]| && files[i][j].matches && name in Assigned(files[i][j].assigns)
  }

  // No later rule of its file does, and no rule of an earlier file.
  ghost predicate Precedes(files: seq<File>, i: nat, j: nat, name: string) {
    && Assigns(files, i, j, name)
    && (forall k: nat :: k > j ==> !Assigns(files, i, k, name))
    && forall h: nat, k: nat :: h < i ==> !Assigns(files, h, k, name)
  }

  // The last matching rule of the first file that assigns the name decides, and
  // without one there is no value.
  lemma {:induction false} LookupPrecedes(files: seq<File>, name: string)
    ensures forall i: nat, j: nat :: Precedes(files, i, j, name) ==>
              Lookup(Stack(files), name) == Some(Assigned(files[i][j].assigns)[name].value)
    ensures Lookup(Stack(files), name) == None <==> forall i: nat, j: nat :: !Assigns(files, i, j, name)
    ensures Lookup(Stack(files), name).Some? ==> exists i: nat, j: nat :: Precedes(files, i, j, name)
    decreases |files|
  {
    hide Matching, Lookup, Assigned;
    if |files| == 0 {
      NoRules(name);
    } else {
      var file, rest := files[0], files[1..];
      LookupPrecedes(rest, name);
      LookupAppend(Matching(file), Stack(rest), name);
      FilePrecedes(file, name);
      forall i: nat, j: nat ensures i > 0 ==> Assigns(files, i, j, name) == Assigns(rest, i - 1, j, name) { }
      forall j: nat ensures Assigns(files, 0, j, name) == Assigns([file], 0, j, name) { }
      if Lookup(Matching(file), name).Some? {
        var j: nat :| Precedes([file], 0, j, name);
        assert Precedes(files, 0, j, name);
        forall i: nat, k: nat | Precedes(files, i, k, name) ensures i == 0 && Precedes([file], 0, k, name) {
          assert !Assigns(files, 0, j, name) || i == 0;
        }
      } else {
        forall j: nat ensures !Assigns(files, 0, j, name) { }
        forall i: nat, j: nat | Precedes(rest, i, j, name) ensures Precedes(files, i + 1, j, name) {
          forall h: nat, k: nat | h < i + 1 ensures !Assigns(files, h, k, name) {
            if h > 0 { assert !Assigns(rest, h - 1, k, name); }
          }
        }
        forall i: nat, j: nat | Precedes(files, i, j, name) ensures i > 0 && Precedes(rest, i - 1, j, name) {
          var below: nat := i - 1;
          forall h: nat, k: nat | h < below ensures !Assigns(rest, h, k, name) {
            assert !Assigns(files, h + 1, k, name);
          }
          forall k: nat | k > j ensures !Assigns(rest, below, k, name) { assert !Assigns(files, i, k, name); }
        }
        if exists i: nat, j: nat :: Assigns(files, i, j, name) {
          var i: nat, j: nat :| Assigns(files, i, j, name);
          assert Assigns(rest, i - 1, j, name);
        }
        if exists i: nat, j: nat :: Assigns(rest, i, j, name) {
          var i: nat, j: nat :| Assigns(rest, i, j, name);
          assert Assigns(files, i + 1, j, name);
        }
      }
    }
  }

  lemma {:induction false} LookupAppend(a: seq<seq<Assign>>, b: seq<seq<Assign>>, name: string)
    ensures Lookup(a + b, name) == if Lookup(a, name).Some? then Lookup(a, name) else Lookup(b, name)
    decreases |a|
  {
    hide Assigned;
    if |a| == 0 {
      assert a + b == b;
    } else {
      assert (a + b)[1..] == a[1..] + b;
      LookupAppend(a[1..], b, name);
    }
  }

  // Within one file.
  lemma {:induction false} FilePrecedes(file: File, name: string)
    ensures forall j: nat :: Precedes([file], 0, j, name) ==>
              Lookup(Matching(file), name) == Some(Assigned(file[j].assigns)[name].value)
    ensures Lookup(Matching(file), name) == None <==> forall j: nat :: !Assigns([file], 0, j, name)
    ensures Lookup(Matching(file), name).Some? ==> exists j: nat :: Precedes([file], 0, j, name)
    decreases |file|
  {
    hide Assigned, Lookup;
    if |file| == 0 {
      NoRules(name);
    } else {
      var n := |file| - 1;
      var front := file[..n];
      FilePrecedes(front, name);
      LookupStep(file[n], Matching(front), name);
      forall j: nat ensures j != n ==> Assigns([file], 0, j, name) == Assigns([front], 0, j, name) { }
      assert Assigns([file], 0, n, name) <==> file[n].matches && name in Assigned(file[n].assigns);
      if Assigns([file], 0, n, name) {
        assert Precedes([file], 0, n, name);
        forall j: nat | Precedes([file], 0, j, name) ensures j == n { }
      } else {
        forall j: nat | Precedes([front], 0, j, name) ensures Precedes([file], 0, j, name) { }
        forall j: nat | Precedes([file], 0, j, name) ensures Precedes([front], 0, j, name) { }
      }
    }
  }

  // git_attr_get.
  method AttrGet(files: seq<File>, name: string) returns (value: Option<Value>)
    requires AllSorted(files)
    ensures value == Lookup(Stack(files), name)
  {
    hide Lookup, Stack, Rest, Sorted, NameHash, Assigned;
    var hash := NameHashLoop(name);
    var key := Assign(name, hash, True);
    var i := 0;
    assert files[0..] == files;
    while i < |files|
      invariant i <= |files| && Lookup(Stack(files[i..]), name) == Lookup(Stack(files), name)
    {
      var file := files[i];
      RestEnds(files, i);
      var j := |file|;
      while j > 0
        invariant 0 <= j <= |file| && Lookup(Rest(files, i, j), name) == Lookup(Stack(files), name)
      {
        j := j - 1;
        RestStep(files, i, j);
        LookupStep(file[j], Rest(files, i, j), name);
        if file[j].matches {
          var found, pos := BinarySearch(file[j].assigns, key);
          if found {
            return Some(file[j].assigns[pos].value);
          }
        }
      }
      i := i + 1;
    }
    NoRules(name);
    assert files[i..] == [];
    value := None;
  }

  lemma NoRules(name: string)
    ensures Lookup(Stack([]), name) == None
  {
  }

  // -------------------------------------------------------------- many names

  function Count(found: seq<bool>): (n: nat)
    ensures n <= |found|
    ensures n == |found| ==> forall k :: 0 <= k < |found| ==> found[k]
  {
    if |found| == 0 then 0 else Count(found[..|found| - 1]) + if found[|found| - 1] then 1 else 0
  }

  lemma {:induction false} CountUp(found: seq<bool>, k: nat)
    requires k < |found| && !found[k]
    ensures Count(found[k := true]) == Count(found) + 1
    decreases |found|
  {
    var n := |found| - 1;
    if k == n {
      assert found[k := true][..n] == found[..n];
    } else {
      CountUp(found[..n], k);
      assert found[k := true][..n] == found[..n][k := true];
    }
  }

  // An answer is settled, or `rest` still decides it.
  predicate Settled(name: string, value: Option<Value>, found: bool, rest: seq<seq<Assign>>, all: seq<seq<Assign>>) {
    if found then value == Lookup(all, name) else Lookup(rest, name) == Lookup(all, name)
  }

  // The loop over the names for one matching rule.
  method AskRule(assigns: seq<Assign>, names: seq<string>, values: array<Option<Value>>, found: array<bool>,
                 count: nat, ghost rest: seq<seq<Assign>>, ghost all: seq<seq<Assign>>) returns (numFound: nat)
    requires Sorted(assigns) && values.Length == found.Length == |names| > 0
    requires count == Count(found[..]) && count < |names|
    requires forall k :: 0 <= k < |names| ==> Settled(names[k], values[k], found[k], [assigns] + rest, all)
    modifies values, found
    ensures numFound == Count(found[..])
    ensures forall k :: 0 <= k < |names| ==> Settled(names[k], values[k], found[k], rest, all)
  {
    hide Lookup, Sorted, NameHash, Assigned, Count;
    numFound := count;
    var k := 0;
    while k < |names|
      invariant k <= |names| && numFound == Count(found[..])
      invariant forall m :: 0 <= m < k ==> Settled(names[m], values[m], found[m], rest, all)
      invariant forall m :: k <= m < |names| ==> Settled(names[m], values[m], found[m], [assigns] + rest, all)
    {
      LookupStep(Rule(true, assigns), rest, names[k]);
      if !found[k] {
        var hash := NameHashLoop(names[k]);
        var hit, pos := BinarySearch(assigns, Assign(names[k], hash, True));
        if hit {
          CountUp(found[..], k);
          found[k] := true;
          values[k] := Some(assigns[pos].value);
          numFound := numFound + 1;
          if numFound == |names| {
            AllFound(found[..]);
            return;
          }
        }
      }
      k := k + 1;
    }
  }

  lemma AllFound(found: seq<bool>)
    requires Count(found) == |found|
    ensures forall k :: 0 <= k < |found| ==> found[k]
  {
  }

  // git_attr_get_many_with_session: for every requested name, what
  // git_attr_get returns, wherever the loops stop.
  method AttrGetMany(files: seq<File>, names: seq<string>, values: array<Option<Value>>)
    requires AllSorted(files) && values.Length == |names|
    modifies values
    ensures forall k :: 0 <= k < |names| ==> values[k] == Lookup(Stack(files), names[k])
  {
    hide Lookup, Stack, Rest, Sorted, Count;
    if |names| == 0 { return; }
    ghost var all := Stack(files);
    var found := new bool[|names|](_ => false);
    var numFound := 0;
    NoneFound(found[..]);
    assert files[0..] == files;
    var i := 0;
    while i < |files|
      invariant i <= |files| && numFound == Count(found[..]) < |names| && fresh(found)
      invariant forall k :: 0 <= k < |names| ==> Settled(names[k], values[k], found[k], Stack(files[i..]), all)
    {
      var file := files[i];
      RestEnds(files, i);
      var j := |file|;
      while j > 0
        invariant 0 <= j <= |file| && numFound == Count(found[..]) < |names|
        invariant forall k :: 0 <= k < |names| ==> Settled(names[k], values[k], found[k], Rest(files, i, j), all)
      {
        j := j - 1;
        RestStep(files, i, j);
        if file[j].matches {
          numFound := AskRule(file[j].assigns, names, values, found, numFound, Rest(files, i, j), all);
          if numFound == |names| {
            AllFound(found[..]);
            return;
          }
        } else {
          assert [] + Rest(files, i, j) == Rest(files, i, j);
        }
      }
      i := i + 1;
    }
    assert files[i..] == [];
    forall k | 0 <= k < |names| ensures !found[k] ==> Lookup(all, names[k]) == None {
      NoRules(names[k]);
      assert Settled(names[k], values[k], found[k], Stack(files[i..]), all);
    }
    var k := 0;
    while k < |names|
      invariant k <= |names| && fresh(found)
      invariant forall m :: 0 <= m < |names| ==> (m < k || found[m] ==> values[m] == Lookup(all, names[m]))
      invariant forall m :: 0 <= m < |names| ==> (!found[m] ==> Lookup(all, names[m]) == None)
    {
      if !found[k] {
        values[k] := None;
      }
      k := k + 1;
    }
  }

  lemma {:induction false} NoneFound(found: seq<bool>)
    requires forall k :: 0 <= k < |found| ==> !found[k]
    ensures Count(found) == 0
    decreases |found|
  {
    if |found| > 0 { NoneFound(found[..|found| - 1]); }
  }

  // --------------------------------------------------------------- every name

  function Flat(stack: seq<seq<Assign>>): seq<Assign> {
    if |stack| == 0 then [] else stack[0] + Flat(stack[1..])
  }

  // The first assignment of each name not seen before.
  function Firsts(list: seq<Assign>, seen: set<string>): seq<Assign> {
    if |list| == 0 then []
    else if list[0].name in seen then Firsts(list[1..], seen)
    else [list[0]] + Firsts(list[1..], seen + {list[0].name})
  }

  // Calls made so far and those still to come are all there are to make.
  predicate Continues(reported: seq<Assign>, rest: seq<Assign>, seen: set<string>, all: seq<Assign>) {
    reported + Firsts(rest, seen) == all
  }

  // git_attr_foreach.  answers(n) is what the callback returns the n-th time;
  // the first that is not 0 ends the report.
  method AttrForeach(files: seq<File>, answers: nat -> int) returns (reported: seq<Assign>, error: int)
    ensures var all := Firsts(Flat(Stack(files)), {});
      && reported <= all
      && (error == 0 ==> reported == all)
      && (error != 0 ==> |reported| > 0 && error == answers(|reported| - 1))
      && forall n :: 0 <= n < |reported| - (if error == 0 then 0 else 1) ==> answers(n) == 0
  {
    hide Firsts, Flat, Stack, Rest;
    ghost var all := Firsts(Flat(Stack(files)), {});
    var seen: set<string> := {};
    reported, error := [], 0;
    assert files[0..] == files;
    assert [] + all == all;
    var i := 0;
    while i < |files|
      invariant i <= |files| && error == 0
      invariant Continues(reported, Flat(Stack(files[i..])), seen, all)
      invariant forall n :: 0 <= n < |reported| ==> answers(n) == 0
    {
      var file := files[i];
      RestEnds(files, i);
      var j := |file|;
      while j > 0
        invariant 0 <= j <= |file| && error == 0
        invariant Continues(reported, Flat(Rest(files, i, j)), seen, all)
        invariant forall n :: 0 <= n < |reported| ==> answers(n) == 0
      {
        j := j - 1;
        RestStep(files, i, j);
        FlatStep(file[j], Rest(files, i, j));
        if file[j].matches {
          var assigns := file[j].assigns;
          ghost var rest := Flat(Rest(files, i, j));
          var k := 0;
          assert assigns[0..] == assigns;
          while k < |assigns|
            invariant k <= |assigns| && error == 0
            invariant Continues(reported, assigns[k..] + rest, seen, all)
            invariant forall n :: 0 <= n < |reported| ==> answers(n) == 0
          {
            FirstsStep(assigns, k, rest, seen);
            if assigns[k].name !in seen {
              seen := seen + {assigns[k].name};
              error := answers(|reported|);
              ghost var before := reported;
              reported := reported + [assigns[k]];
              assert before + ([assigns[k]] + Firsts(assigns[k + 1..] + rest, seen)) ==
                  reported + Firsts(assigns[k + 1..] + rest, seen);
              if error != 0 { return; }
            }
            k := k + 1;
          }
          assert assigns[k..] + rest == rest;
        }
      }
      i := i + 1;
    }
    assert files[i..] == [];
    NothingLeft(seen);
  }

  lemma FlatStep(rule: Rule, rest: seq<seq<Assign>>)
    ensures Flat((if rule.matches then [rule.assigns] else []) + rest) ==
            (if rule.matches then rule.assigns + Flat(rest) else Flat(rest))
  {
    assert rule.matches ==> ([rule.assigns] + rest)[1..] == rest;
    assert [] + rest == rest;
  }

  lemma FirstsStep(assigns: seq<Assign>, k: nat, rest: seq<Assign>, seen: set<string>)
    requires k < |assigns|
    ensures Firsts(assigns[k..] + rest, seen) ==
            if assigns[k].name in seen then Firsts(assigns[k + 1..] + rest, seen)
            else [assigns[k]] + Firsts(assigns[k + 1..] + rest, seen + {assigns[k].name})
  {
    assert (assigns[k..] + rest)[1..] == assigns[k + 1..] + rest;
  }

  lemma NothingLeft(seen: set<string>)
    ensures Firsts(Flat(Stack([])), seen) == []
  {
  }

  // ------------------------------------------------------------ the agreement

  predicate SortedStack(stack: seq<seq<Assign>>) {
    forall i :: 0 <= i < |stack| ==> Sorted(stack[i])
  }

  // The first assignment of the name in a list.
  function FirstOf(list: seq<Assign>, name: string): Option<Value> {
    if |list| == 0 then None
    else if list[0].name == name then Some(list[0].value)
    else FirstOf(list[1..], name)
  }

  lemma {:induction false} FirstOfAppend(a: seq<Assign>, b: seq<Assign>, name: string)
    ensures FirstOf(a + b, name) == if FirstOf(a, name).Some? then FirstOf(a, name) else FirstOf(b, name)
    decreases |a|
  {
    if |a| == 0 {
      assert a + b == b;
    } else {
      FirstOfAppend(a[1..], b, name);
      assert (a + b)[1..] == a[1..] + b;
    }
  }

  // In a sorted vector a scan and a binary search find the same.
  lemma {:induction false} FirstOfSorted(v: seq<Assign>, i: nat, name: string)
    requires Sorted(v) && i <= |v| && (forall k :: 0 <= k < i ==> v[k].name != name)
    ensures FirstOf(v[i..], name) == if name in Assigned(v) then Some(Assigned(v)[name].value) else None
    decreases |v| - i
  {
    AssignedIn(v, name);
    if i < |v| {
      assert v[i..][1..] == v[i + 1..];
      if v[i].name == name {
        SortedAt(v, i);
      } else {
        FirstOfSorted(v, i + 1, name);
      }
    }
  }

  lemma {:induction false} LookupIsFirst(stack: seq<seq<Assign>>, name: string)
    requires SortedStack(stack)
    ensures Lookup(stack, name) == FirstOf(Flat(stack), name)
    decreases |stack|
  {
    if |stack| > 0 {
      assert SortedStack(stack[1..]);
      LookupIsFirst(stack[1..], name);
      FirstOfAppend(stack[0], Flat(stack[1..]), name);
      FirstOfSorted(stack[0], 0, name);
      assert stack[0][0..] == stack[0];
    }
  }

  // The report names everything assigned, once, with its first value.
  lemma {:induction false} FirstsAre(list: seq<Assign>, seen: set<string>, name: string)
    ensures var r := Firsts(list, seen);
      && (forall i :: 0 <= i < |r| ==> r[i].name !in seen)
      && (forall i, j :: 0 <= i < j < |r| ==> r[i].name != r[j].name)
      && FirstOf(r, name) == if name in seen then None else FirstOf(list, name)
    decreases |list|
  {
    if |list| > 0 {
      if list[0].name in seen {
        FirstsAre(list[1..], seen, name);
      } else {
        var seen' := seen + {list[0].name};
        FirstsAre(list[1..], seen', name);
        var r, rest := Firsts(list, seen), Firsts(list[1..], seen');
        assert r == [list[0]] + rest && r[1..] == rest;
        forall i, j | 0 <= i < j < |r| ensures r[i].name != r[j].name {
          assert r[j] == rest[j - 1];
          if i > 0 { assert r[i] == rest[i - 1]; }
        }
      }
    }
  }

  // A name is reported exactly when git_attr_get finds it, with that value,
  // and no name is reported twice.
  lemma ForeachAgrees(stack: seq<seq<Assign>>, name: string)
    requires SortedStack(stack)
    ensures var r := Firsts(Flat(stack), {});
      && FirstOf(r, name) == Lookup(stack, name)
      && forall i, j :: 0 <= i < j < |r| ==> r[i].name != r[j].name
  {
    LookupIsFirst(stack, name);
    FirstsAre(Flat(stack), {}, name);
  }

  lemma {:induction false} MatchingSorted(rules: File)
    requires forall j :: 0 <= j < |rules| ==> Sorted(rules[j].assigns)
    ensures SortedStack(Matching(rules))
    decreases |rules|
  {
    if |rules| > 0 { MatchingSorted(rules[..|rules| - 1]); }
  }

  // Files built by the parser stack sorted rules.
  lemma {:induction false} StackSorted(files: seq<File>)
    requires AllSorted(files)
    ensures SortedStack(Stack(files))
    decreases |files|
  {
    if |files| > 0 {
      MatchingSorted(files[0]);
      StackSorted(files[1..]);
    }
  }
}
