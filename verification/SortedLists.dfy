// The sorted list, the index over a list, and what their binary search finds.

module SortedLists {
  import opened Strings
  import opened Sorting
  import opened Containers

  // Texts as they are compared.
  function Key(s: string, caseSensitive: bool): string {
    if caseSensitive then s else LowerCase(s)
  }

  // StrCmp or StrCmpi.
  function Cmp(s: string, t: string, caseSensitive: bool): int {
    StrCmp(Key(s, caseSensitive), Key(t, caseSensitive), false)
  }

  lemma CmpTrans(s: string, t: string, u: string, cs: bool)
    requires Cmp(s, t, cs) <= 0 && Cmp(t, u, cs) <= 0
    ensures Cmp(s, u, cs) <= 0
    ensures Cmp(s, t, cs) < 0 || Cmp(t, u, cs) < 0 ==> Cmp(s, u, cs) < 0
  {
    LeTrans(Key(s, cs), Key(t, cs), Key(u, cs), false);
    LeTotal(Key(s, cs), Key(t, cs), false);
    LeTotal(Key(t, cs), Key(u, cs), false);
    LeTotal(Key(s, cs), Key(u, cs), false);
    StrTotal(Key(s, cs), Key(t, cs));
    StrTotal(Key(t, cs), Key(u, cs));
  }

  lemma CmpFlip(s: string, t: string, cs: bool)
    ensures Cmp(s, t, cs) < 0 <==> Cmp(t, s, cs) > 0
    ensures Cmp(s, t, cs) == 0 <==> Key(s, cs) == Key(t, cs)
  {
    StrTotal(Key(s, cs), Key(t, cs));
  }

  predicate InOrder(list: seq<string>, cs: bool) {
    forall i, j :: 0 <= i < j < |list| ==> Cmp(list[i], list[j], cs) <= 0
  }

  predicate StrictlyInOrder(list: seq<string>, cs: bool) {
    forall i, j :: 0 <= i < j < |list| ==> Cmp(list[i], list[j], cs) < 0
  }

  // BinarySearch: the place of an equal text, or -1 and where it belongs.
  function BinarySearch(list: seq<string>, s: string, min: nat, max: int, cs: bool): (r: (int, nat))
    requires min <= max + 1 <= |list|
    ensures -1 <= r.0 < |list| && r.1 <= |list|
    decreases max - min + 1
  {
    if max < min then (-1, min)
    else
      var mid := min + (max - min) / 2;
      var diff := Cmp(list[mid], s, cs);
      if diff > 0 then BinarySearch(list, s, min, mid - 1, cs)
      else if diff < 0 then BinarySearch(list, s, mid + 1, max, cs)
      else (mid, 0)
  }

  function Search(list: seq<string>, s: string, cs: bool): (r: (int, nat))
    ensures -1 <= r.0 < |list| && r.1 <= |list|
  {
    BinarySearch(list, s, 0, |list| - 1, cs)
  }

  // Everything before the place is smaller, everything from it on greater.
  predicate Splits(list: seq<string>, s: string, pos: nat, cs: bool) {
    && pos <= |list|
    && (forall i :: 0 <= i < pos ==> Cmp(list[i], s, cs) < 0)
    && forall i :: pos <= i < |list| ==> Cmp(list[i], s, cs) > 0
  }

  lemma {:induction false} SearchBetween(list: seq<string>, s: string, min: nat, max: int, cs: bool)
    requires InOrder(list, cs) && min <= max + 1 <= |list|
    requires forall i :: 0 <= i < min ==> Cmp(list[i], s, cs) < 0
    requires forall i :: max < i < |list| ==> Cmp(list[i], s, cs) > 0
    ensures var r := BinarySearch(list, s, min, max, cs);
      if r.0 >= 0 then Cmp(list[r.0], s, cs) == 0 else Splits(list, s, r.1, cs)
    decreases max - min + 1
  {
    hide Cmp, InOrder;
    if min > max {
      assert BinarySearch(list, s, min, max, cs) == (-1, min);
    } else {
      var mid := min + (max - min) / 2;
      var diff := Cmp(list[mid], s, cs);
      if diff > 0 {
        GreaterFrom(list, s, mid, cs);
        SearchBetween(list, s, min, mid - 1, cs);
      } else if diff < 0 {
        SmallerUpto(list, s, mid, cs);
        SearchBetween(list, s, mid + 1, max, cs);
      }
    }
  }

  lemma GreaterFrom(list: seq<string>, s: string, mid: nat, cs: bool)
    requires InOrder(list, cs) && mid < |list| && Cmp(list[mid], s, cs) > 0
    ensures forall i :: mid - 1 < i < |list| ==> Cmp(list[i], s, cs) > 0
  {
    hide Cmp;
    forall i | mid < i < |list| ensures Cmp(list[i], s, cs) > 0 { CmpAbove(list[mid], list[i], s, cs); }
  }

  lemma SmallerUpto(list: seq<string>, s: string, mid: nat, cs: bool)
    requires InOrder(list, cs) && mid < |list| && Cmp(list[mid], s, cs) < 0
    ensures forall i :: 0 <= i < mid + 1 ==> Cmp(list[i], s, cs) < 0
  {
    hide Cmp;
    forall i | 0 <= i < mid ensures Cmp(list[i], s, cs) < 0 { CmpTrans(list[i], list[mid], s, cs); }
  }

  lemma CmpAbove(s: string, t: string, u: string, cs: bool)
    requires Cmp(s, t, cs) <= 0 && Cmp(s, u, cs) > 0
    ensures Cmp(t, u, cs) > 0
  {
    CmpFlip(u, s, cs);
    CmpFlip(u, t, cs);
    CmpTrans(u, s, t, cs);
  }

  // Binary search succeeds exactly when a scan does.
  lemma SearchFinds(list: seq<string>, s: string, cs: bool)
    requires InOrder(list, cs)
    ensures var r := Search(list, s, cs);
      && (if r.0 >= 0 then Cmp(list[r.0], s, cs) == 0 else Splits(list, s, r.1, cs))
      && (r.0 >= 0 <==> exists i :: 0 <= i < |list| && Cmp(list[i], s, cs) == 0)
  {
    hide Cmp;
    SearchBetween(list, s, 0, |list| - 1, cs);
  }

  function InsertAt<T>(list: seq<T>, pos: nat, x: T): (r: seq<T>)
    requires pos <= |list|
    ensures |r| == |list| + 1
    ensures forall i :: 0 <= i < |r| ==> r[i] == if i < pos then list[i] else if i == pos then x else list[i - 1]
    ensures multiset(r) == multiset(list) + multiset{x}
  {
    assert list == list[..pos] + list[pos..];
    list[..pos] + [x] + list[pos..]
  }

  // Inserting where the search says keeps the order.
  lemma InsertKeepsOrder(list: seq<string>, s: string, pos: nat, cs: bool)
    requires Splits(list, s, pos, cs)
    ensures InOrder(list, cs) ==> InOrder(InsertAt(list, pos, s), cs)
    ensures StrictlyInOrder(list, cs) ==> StrictlyInOrder(InsertAt(list, pos, s), cs)
  {
    hide Cmp;
    forall i | pos <= i < |list| ensures Cmp(s, list[i], cs) < 0 { CmpFlip(s, list[i], cs); }
  }

  lemma InsertEqualKeepsOrder(list: seq<string>, s: string, pos: nat, cs: bool)
    requires InOrder(list, cs) && pos < |list| && Cmp(list[pos], s, cs) == 0
    ensures InOrder(InsertAt(list, pos, s), cs)
  {
    hide Cmp;
    CmpFlip(s, list[pos], cs);
    CmpFlip(list[pos], s, cs);
    forall i | 0 <= i < pos ensures Cmp(list[i], s, cs) <= 0 { CmpTrans(list[i], list[pos], s, cs); }
    forall i | pos <= i < |list| ensures Cmp(s, list[i], cs) <= 0 {
      if i > pos { CmpTrans(s, list[pos], list[i], cs); }
    }
  }

  class CWSortedList {
    const Unique: bool
    const CaseSensitive: bool
    var Strings: seq<string>

    ghost predicate Valid()
      reads this
    {
      if Unique then StrictlyInOrder(Strings, CaseSensitive) else InOrder(Strings, CaseSensitive)
    }

    constructor (caseSensitive: bool, unique: bool)
      ensures Valid() && Strings == [] && CaseSensitive == caseSensitive && Unique == unique
    {
      CaseSensitive := caseSensitive;
      Unique := unique;
      Strings := [];
    }

    // Add: where the text went or was, and whether an equal one was there.
    method Add(s: string) returns (index: nat, duplicate: bool)
      requires Valid()
      modifies this
      ensures Valid()
      ensures duplicate <==> exists i :: 0 <= i < |old(Strings)| && Cmp(old(Strings)[i], s, CaseSensitive) == 0
      ensures index < |Strings| && Cmp(Strings[index], s, CaseSensitive) == 0
      ensures index <= |old(Strings)|
      ensures Strings == if duplicate && Unique then old(Strings) else InsertAt(old(Strings), index, s)
    {
      hide Cmp;
      OrderWeakens(Strings, CaseSensitive);
      SearchFinds(Strings, s, CaseSensitive);
      CmpFlip(s, s, CaseSensitive);
      var r := Search(Strings, s, CaseSensitive);
      if r.0 >= 0 {
        if !Unique {
          InsertEqualKeepsOrder(Strings, s, r.0, CaseSensitive);
          Strings := InsertAt(Strings, r.0, s);
        }
        return r.0, true;
      }
      InsertKeepsOrder(Strings, s, r.1, CaseSensitive);
      Strings := InsertAt(Strings, r.1, s);
      index, duplicate := r.1, false;
    }

    // Every text of a list is added in turn.
    method Merge(list: CWStringList)
      requires Valid()
      modifies this
      ensures Valid()
      ensures multiset(Strings) == multiset(Merged(old(Strings), list.Strings, CaseSensitive, Unique))
    {
      hide Cmp, HasEqual, InOrder, StrictlyInOrder, InsertAt;
      ghost var texts := list.Strings;
      var count := |list.Strings|;
      var i := 0;
      while i < count
        invariant i <= count == |texts| && list.Strings == texts && Valid()
        invariant multiset(Strings) == multiset(Merged(old(Strings), texts[..i], CaseSensitive, Unique))
      {
        ghost var before := Strings;
        var index, duplicate := Add(list.Strings[i]);
        MergeStep(old(Strings), texts, before, i, index, CaseSensitive, Unique, duplicate);
        i := i + 1;
      }
      assert texts[..count] == texts;
    }

    // Find: found exactly when an equal text is in the list.
    method Find(s: string) returns (index: int)
      requires Valid()
      ensures index >= 0 ==> index < |Strings| && Cmp(Strings[index], s, CaseSensitive) == 0
      ensures index < 0 ==> forall i :: 0 <= i < |Strings| ==> Cmp(Strings[i], s, CaseSensitive) != 0
    {
      hide Cmp;
      OrderWeakens(Strings, CaseSensitive);
      SearchFinds(Strings, s, CaseSensitive);
      index := Search(Strings, s, CaseSensitive).0;
    }
  }

  predicate HasEqual(list: seq<string>, s: string, cs: bool) {
    exists i :: 0 <= i < |list| && Cmp(list[i], s, cs) == 0
  }

  // What merging texts keeps: all of them, or of equal ones the first.
  function Merged(base: seq<string>, texts: seq<string>, cs: bool, unique: bool): seq<string> {
    if |texts| == 0 then base
    else
      var last := texts[|texts| - 1];
      var soFar := Merged(base, texts[..|texts| - 1], cs, unique);
      if unique && HasEqual(soFar, last, cs) then soFar else soFar + [last]
  }

  lemma MergeStep(base: seq<string>, texts: seq<string>, before: seq<string>, i: nat, index: nat, cs: bool,
                  unique: bool, duplicate: bool)
    requires i < |texts| && index <= |before|
    requires multiset(before) == multiset(Merged(base, texts[..i], cs, unique))
    requires duplicate <==> exists k :: 0 <= k < |before| && Cmp(before[k], texts[i], cs) == 0
    ensures var after := if duplicate && unique then before else InsertAt(before, index, texts[i]);
      multiset(after) == multiset(Merged(base, texts[..i + 1], cs, unique))
  {
    hide Cmp;
    var soFar := Merged(base, texts[..i], cs, unique);
    assert texts[..i + 1][..i] == texts[..i];
    HasPermuted(before, soFar, texts[i], cs);
  }

  lemma HasPermuted(s: seq<string>, t: seq<string>, w: string, cs: bool)
    requires multiset(s) == multiset(t)
    ensures HasEqual(s, w, cs) <==> HasEqual(t, w, cs)
  {
    hide Cmp;
    if i :| 0 <= i < |s| && Cmp(s[i], w, cs) == 0 { assert s[i] in multiset(t); }
    if i :| 0 <= i < |t| && Cmp(t[i], w, cs) == 0 { assert t[i] in multiset(s); }
  }

  // Merging loses no text but for its case, and keeps duplicates unless the
  // list is a unique one.
  lemma {:induction false} MergedIs(base: seq<string>, texts: seq<string>, cs: bool, unique: bool, s: string)
    ensures !unique ==> Merged(base, texts, cs, unique) == base + texts
    ensures HasEqual(Merged(base, texts, cs, unique), s, cs) <==> HasEqual(base, s, cs) || HasEqual(texts, s, cs)
  {
    hide Cmp, HasEqual;
    if |texts| == 0 {
      assert base + texts == base;
      HasNone(s, cs);
    } else {
      var init, last := texts[..|texts| - 1], texts[|texts| - 1];
      assert texts == init + [last] && base + texts == base + init + [last];
      MergedIs(base, init, cs, unique, s);
      var soFar := Merged(base, init, cs, unique);
      HasOneMore(init, last, s, cs);
      HasOneMore(soFar, last, s, cs);
      if Cmp(last, s, cs) == 0 { HasAlike(soFar, last, s, cs); }
    }
  }

  lemma HasNone(s: string, cs: bool)
    ensures !HasEqual([], s, cs)
  {
  }

  lemma HasOneMore(list: seq<string>, last: string, s: string, cs: bool)
    ensures HasEqual(list + [last], s, cs) <==> HasEqual(list, s, cs) || Cmp(last, s, cs) == 0
  {
    hide Cmp;
    var more := list + [last];
    assert more[|list|] == last;
    if i :| 0 <= i < |list| && Cmp(list[i], s, cs) == 0 { assert more[i] == list[i]; }
  }

  lemma HasAlike(list: seq<string>, last: string, s: string, cs: bool)
    requires Cmp(last, s, cs) == 0
    ensures HasEqual(list, last, cs) ==> HasEqual(list, s, cs)
  {
    hide Cmp;
    if i :| 0 <= i < |list| && Cmp(list[i], last, cs) == 0 {
      CmpFlip(list[i], last, cs);
      CmpFlip(last, s, cs);
      CmpFlip(list[i], s, cs);
    }
  }

  lemma OrderWeakens(list: seq<string>, cs: bool)
    ensures StrictlyInOrder(list, cs) ==> InOrder(list, cs)
  {
  }

  // -------------------------------------------------------------- the index

  // CWStringList::Find: the first equal text at or after `from`, or -1.
  function FindFrom(list: seq<string>, s: string, cs: bool, from: nat): (i: int)
    ensures -1 <= i < |list|
    decreases |list| - from
  {
    if from >= |list| then -1
    else if Cmp(list[from], s, cs) == 0 then from
    else FindFrom(list, s, cs, from + 1)
  }

  lemma {:induction false} FindIs(list: seq<string>, s: string, cs: bool, from: nat)
    ensures var i := FindFrom(list, s, cs, from);
      && (i >= 0 ==> from <= i && Cmp(list[i], s, cs) == 0)
      && forall j :: from <= j < (if i >= 0 then i else |list|) ==> Cmp(list[j], s, cs) != 0
    decreases |list| - from
  {
    hide Cmp;
    if from < |list| { FindIs(list, s, cs, from + 1); }
  }

  // It is the first, so nothing else can be.
  lemma FindUnique(list: seq<string>, s: string, cs: bool, i: nat)
    requires i < |list| && Cmp(list[i], s, cs) == 0
    requires forall j: nat :: j < i ==> Cmp(list[j], s, cs) != 0
    ensures FindFrom(list, s, cs, 0) == i
  {
    hide Cmp;
    FindIs(list, s, cs, 0);
  }

  method FindLoop(list: CWStringList, s: string, cs: bool, start: nat) returns (i: int)
    ensures i == FindFrom(list.Strings, s, cs, start)
  {
    hide Cmp;
    i := start;
    while i < |list.Strings|
      invariant start <= i
          && (i <= |list.Strings| ==> FindFrom(list.Strings, s, cs, i) == FindFrom(list.Strings, s, cs, start))
      invariant i > |list.Strings| ==> i == start
    {
      if Cmp(list.Strings[i], s, cs) == 0 { return; }
      i := i + 1;
    }
    i := -1;
  }

  // The texts the positions select.
  function Selected(list: seq<string>, positions: seq<nat>): (r: seq<string>)
    requires forall k :: 0 <= k < |positions| ==> positions[k] < |list|
    ensures |r| == |positions|
    ensures forall k :: 0 <= k < |r| ==> r[k] == list[positions[k]]
  {
    seq(|positions|, k requires 0 <= k < |positions| => list[positions[k]])
  }

  predicate InRange(positions: seq<nat>, n: nat) {
    forall k :: 0 <= k < |positions| ==> positions[k] < n
  }

  function Iota(n: nat): (r: seq<nat>)
    ensures |r| == n
  {
    seq(n, i requires 0 <= i < n => i)
  }

  // An index over the first n texts: every position once, in order.
  predicate Indexes(list: seq<string>, positions: seq<nat>, n: nat, cs: bool)
    requires n <= |list|
  {
    && InRange(positions, n)
    && multiset(positions) == multiset(Iota(n))
    && InOrder(Selected(list, positions), cs)
  }

  // A unique index over them: exactly the first occurrences, strictly in order.
  predicate IndexesFirst(list: seq<string>, positions: seq<nat>, n: nat, cs: bool)
    requires n <= |list|
  {
    && InRange(positions, n)
    && (forall k :: 0 <= k < |positions| ==> FindFrom(list, list[positions[k]], cs, 0) == positions[k])
    && (forall i: nat :: i < n ==> Covered(list, positions, n, list[i], cs))
    && StrictlyInOrder(Selected(list, positions), cs)
  }

  // Some position selects an equal text.
  predicate Covered(list: seq<string>, positions: seq<nat>, n: nat, s: string, cs: bool)
    requires n <= |list| && InRange(positions, n)
  {
    exists k :: 0 <= k < |positions| && Cmp(list[positions[k]], s, cs) == 0
  }

  lemma SelectedInsert(list: seq<string>, positions: seq<nat>, pos: nat, i: nat)
    requires InRange(positions, |list|) && pos <= |positions| && i < |list|
    ensures InRange(InsertAt(positions, pos, i), |list|)
    ensures Selected(list, InsertAt(positions, pos, i)) == InsertAt(Selected(list, positions), pos, list[i])
  {
  }

  // One round of Rebuild keeps an index.
  lemma IndexOneMore(list: seq<string>, positions: seq<nat>, n: nat, pos: nat, cs: bool)
    requires n < |list| && Indexes(list, positions, n, cs) && pos <= |positions|
    requires InOrder(InsertAt(Selected(list, positions), pos, list[n]), cs)
    ensures Indexes(list, InsertAt(positions, pos, n), n + 1, cs)
  {
    hide InOrder;
    SelectedInsert(list, positions, pos, n);
    assert Iota(n + 1) == Iota(n) + [n];
  }

  // Every text up to n is covered once the n-th has a position.
  lemma CoverOneMore(list: seq<string>, positions: seq<nat>, n: nat, pos: nat, i: nat, cs: bool)
    requires n < |list| && InRange(positions, n) && pos <= |positions| && i <= n
    requires i < n ==> Covered(list, positions, n, list[i], cs)
    ensures InRange(InsertAt(positions, pos, n), n + 1)
    ensures Covered(list, InsertAt(positions, pos, n), n + 1, list[i], cs)
  {
    hide Cmp;
    var after := InsertAt(positions, pos, n);
    if i < n {
      var k :| 0 <= k < |positions| && Cmp(list[positions[k]], list[i], cs) == 0;
      assert after[if k < pos then k else k + 1] == positions[k];
    } else {
      CmpFlip(list[n], list[n], cs);
      assert after[pos] == n;
    }
  }

  // And a unique one, whether the text is new or not.
  lemma FirstOneMore(list: seq<string>, positions: seq<nat>, n: nat, pos: nat, cs: bool)
    requires n < |list| && IndexesFirst(list, positions, n, cs) && Splits(Selected(list, positions), list[n], pos, cs)
    ensures IndexesFirst(list, InsertAt(positions, pos, n), n + 1, cs)
  {
    hide Cmp, FindFrom, Covered, StrictlyInOrder, InsertAt, Splits, Iota;
    SplitsWithin(Selected(list, positions), list[n], pos, cs);
    var after := InsertAt(positions, pos, n);
    SelectedInsert(list, positions, pos, n);
    InsertKeepsOrder(Selected(list, positions), list[n], pos, cs);
    NewIsFirst(list, positions, n, pos, cs);
    AllFirst(list, positions, n, pos, cs);
    forall i: nat | i < n + 1 ensures Covered(list, after, n + 1, list[i], cs) {
      CoverOneMore(list, positions, n, pos, i, cs);
    }
  }

  lemma AllFirst(list: seq<string>, positions: seq<nat>, n: nat, pos: nat, cs: bool)
    requires n < |list| && InRange(positions, n) && pos <= |positions| && FindFrom(list, list[n], cs, 0) == n
    requires forall k :: 0 <= k < |positions| ==> FindFrom(list, list[positions[k]], cs, 0) == positions[k]
    ensures var after := InsertAt(positions, pos, n);
      InRange(after, n + 1) && forall k :: 0 <= k < |after| ==> FindFrom(list, list[after[k]], cs, 0) == after[k]
  {
    hide FindFrom;
  }

  lemma NewIsFirst(list: seq<string>, positions: seq<nat>, n: nat, pos: nat, cs: bool)
    requires n < |list| && IndexesFirst(list, positions, n, cs) && Splits(Selected(list, positions), list[n], pos, cs)
    ensures FindFrom(list, list[n], cs, 0) == n
  {
    hide Cmp, FindFrom, StrictlyInOrder;
    CmpFlip(list[n], list[n], cs);
    forall j: nat | j < n ensures Cmp(list[j], list[n], cs) != 0 {
      assert Covered(list, positions, n, list[j], cs);
      var k :| 0 <= k < |positions| && Cmp(list[positions[k]], list[j], cs) == 0;
      assert Selected(list, positions)[k] == list[positions[k]];
      CmpFlip(list[positions[k]], list[j], cs);
      CmpFlip(list[j], list[n], cs);
      CmpFlip(list[positions[k]], list[n], cs);
    }
    FindUnique(list, list[n], cs, n);
  }

  lemma FirstKept(list: seq<string>, positions: seq<nat>, n: nat, at: nat, cs: bool)
    requires n < |list| && IndexesFirst(list, positions, n, cs)
    requires at < |positions| && Cmp(Selected(list, positions)[at], list[n], cs) == 0
    ensures IndexesFirst(list, positions, n + 1, cs)
  {
    hide Cmp, FindFrom, Covered, StrictlyInOrder;
    forall i: nat | i < n + 1 ensures Covered(list, positions, n + 1, list[i], cs) {
      if i < n {
        assert Covered(list, positions, n, list[i], cs);
        CoverWider(list, positions, n, list[i], cs);
      } else {
        CoveredBy(list, positions, n + 1, at, list[n], cs);
      }
    }
  }

  lemma CoverWider(list: seq<string>, positions: seq<nat>, n: nat, s: string, cs: bool)
    requires n < |list| && InRange(positions, n) && Covered(list, positions, n, s, cs)
    ensures Covered(list, positions, n + 1, s, cs)
  {
    hide Cmp;
  }

  lemma CoveredBy(list: seq<string>, positions: seq<nat>, n: nat, at: nat, s: string, cs: bool)
    requires n <= |list| && InRange(positions, n) && at < |positions|
    requires Cmp(list[positions[at]], s, cs) == 0
    ensures Covered(list, positions, n, s, cs)
  {
    hide Cmp;
  }

  class CWStringIndex {
    const List: CWStringList?
    var Unique: bool
    var CaseSensitive: bool
    var Positions: seq<nat>

    // Built over the list as it stands.
    ghost predicate Valid()
      reads this, List
    {
      if List == null then Positions == []
      else if Unique then IndexesFirst(List.Strings, Positions, |List.Strings|, CaseSensitive)
      else Indexes(List.Strings, Positions, |List.Strings|, CaseSensitive)
    }

    constructor (list: CWStringList?, caseSensitive: bool, unique: bool)
      ensures List == list && Valid() && CaseSensitive == caseSensitive && Unique == unique
    {
      List := list;
      CaseSensitive, Unique, Positions := caseSensitive, unique, [];
      new;
      Rebuild(caseSensitive, unique);
    }

    // Rebuild: every text is looked up among those before it.
    method Rebuild(caseSensitive: bool, unique: bool)
      modifies this
      ensures Valid() && CaseSensitive == caseSensitive && Unique == unique
    {
      hide InOrder, StrictlyInOrder, Cmp, Search, Splits, FindFrom, Indexes, IndexesFirst, Selected;
      CaseSensitive, Unique := caseSensitive, unique;
      Positions := [];
      if List == null { return; }
      var list := List.Strings;
      EmptyIndex(list, caseSensitive);
      var i := 0;
      while i < |list|
        invariant i <= |list| && List.Strings == list && CaseSensitive == caseSensitive && Unique == unique
        invariant if Unique then IndexesFirst(list, Positions, i, CaseSensitive)
            else Indexes(list, Positions, i, CaseSensitive)
      {
        if Unique {
          FirstParts(list, Positions, i, CaseSensitive);
        } else {
          IndexParts(list, Positions, i, CaseSensitive);
        }
        var selected := Selected(list, Positions);
        SearchFinds(selected, list[i], CaseSensitive);
        var r := Search(selected, list[i], CaseSensitive);
        if r.0 >= 0 {
          if !Unique {
            InsertEqualKeepsOrder(selected, list[i], r.0, CaseSensitive);
            IndexOneMore(list, Positions, i, r.0, CaseSensitive);
            Positions := InsertAt(Positions, r.0, i);
          } else {
            FirstKept(list, Positions, i, r.0, CaseSensitive);
          }
        } else {
          SplitsWithin(selected, list[i], r.1, CaseSensitive);
          InsertKeepsOrder(selected, list[i], r.1, CaseSensitive);
          if Unique {
            FirstOneMore(list, Positions, i, r.1, CaseSensitive);
          } else {
            IndexOneMore(list, Positions, i, r.1, CaseSensitive);
          }
          Positions := InsertAt(Positions, r.1, i);
        }
        i := i + 1;
      }
    }

    // Find: in a unique index what the list's own Find returns; in any index
    // something exactly when that finds something.
    method Find(s: string) returns (at: int)
      requires Valid()
      ensures List == null ==> at == -1
      ensures List != null && Unique ==> at == FindFrom(List.Strings, s, CaseSensitive, 0)
      ensures List != null ==> (at >= 0 <==> FindFrom(List.Strings, s, CaseSensitive, 0) >= 0)
      ensures List != null && at >= 0 ==> at < |List.Strings| && Cmp(List.Strings[at], s, CaseSensitive) == 0
    {
      hide InOrder, StrictlyInOrder, Cmp, Search, Splits, FindFrom, Indexes, IndexesFirst;
      if List == null {
        return -1;
      }
      var list := List.Strings;
      if Unique {
        FirstParts(list, Positions, |list|, CaseSensitive);
        FirstFinds(list, Positions, s, CaseSensitive);
      } else {
        IndexParts(list, Positions, |list|, CaseSensitive);
        IndexFinds(list, Positions, s, CaseSensitive);
      }
      var selected := Selected(list, Positions);
      SearchFinds(selected, s, CaseSensitive);
      var r := Search(selected, s, CaseSensitive);
      if r.0 < 0 {
        return -1;
      }
      at := Positions[r.0];
      if Unique { SameFirst(list, list[at], s, CaseSensitive); }
    }
  }

  lemma IndexParts(list: seq<string>, positions: seq<nat>, n: nat, cs: bool)
    requires n <= |list| && Indexes(list, positions, n, cs)
    ensures InRange(positions, |list|) && InOrder(Selected(list, positions), cs)
  {
  }

  lemma FirstParts(list: seq<string>, positions: seq<nat>, n: nat, cs: bool)
    requires n <= |list| && IndexesFirst(list, positions, n, cs)
    ensures InRange(positions, |list|)
    ensures InOrder(Selected(list, positions), cs) && StrictlyInOrder(Selected(list, positions), cs)
    ensures forall k :: 0 <= k < |positions| ==> FindFrom(list, list[positions[k]], cs, 0) == positions[k]
  {
    hide FindFrom, Cmp;
  }

  lemma EmptyIndex(list: seq<string>, cs: bool)
    ensures Indexes(list, [], 0, cs) && IndexesFirst(list, [], 0, cs)
  {
    assert Iota(0) == [];
  }

  lemma SplitsWithin(list: seq<string>, s: string, pos: nat, cs: bool)
    requires Splits(list, s, pos, cs)
    ensures pos <= |list|
  {
  }

  lemma FirstFinds(list: seq<string>, positions: seq<nat>, s: string, cs: bool)
    requires IndexesFirst(list, positions, |list|, cs)
    ensures FindFrom(list, s, cs, 0) >= 0 <==>
        exists k :: 0 <= k < |positions| && Cmp(Selected(list, positions)[k], s, cs) == 0
  {
    hide Cmp, FindFrom, Selected, Covered, StrictlyInOrder;
    if FindFrom(list, s, cs, 0) >= 0 {
      var k := FoundSelected(list, positions, s, cs);
    } else if exists k :: 0 <= k < |positions| && Cmp(Selected(list, positions)[k], s, cs) == 0 {
      var k :| 0 <= k < |positions| && Cmp(Selected(list, positions)[k], s, cs) == 0;
      SelectedFound(list, positions, s, k, cs);
    }
  }

  lemma FoundSelected(list: seq<string>, positions: seq<nat>, s: string, cs: bool) returns (k: nat)
    requires IndexesFirst(list, positions, |list|, cs) && FindFrom(list, s, cs, 0) >= 0
    ensures k < |positions| && Cmp(Selected(list, positions)[k], s, cs) == 0
  {
    hide Cmp, StrictlyInOrder, FindFrom;
    FindIs(list, s, cs, 0);
    var x := list[FindFrom(list, s, cs, 0)];
    assert Covered(list, positions, |list|, x, cs);
    k :| 0 <= k < |positions| && Cmp(list[positions[k]], x, cs) == 0;
    CmpFlip(list[positions[k]], x, cs);
    CmpFlip(x, s, cs);
    CmpFlip(list[positions[k]], s, cs);
  }

  lemma SelectedFound(list: seq<string>, positions: seq<nat>, s: string, k: nat, cs: bool)
    requires IndexesFirst(list, positions, |list|, cs) && k < |positions|
    requires Cmp(Selected(list, positions)[k], s, cs) == 0
    ensures FindFrom(list, s, cs, 0) >= 0
  {
    hide Cmp, StrictlyInOrder, FindFrom;
    FindIs(list, s, cs, 0);
    assert Cmp(list[positions[k]], s, cs) == 0;
  }

  lemma IndexFinds(list: seq<string>, positions: seq<nat>, s: string, cs: bool)
    requires Indexes(list, positions, |list|, cs)
    ensures FindFrom(list, s, cs, 0) >= 0 <==>
        exists k :: 0 <= k < |positions| && Cmp(Selected(list, positions)[k], s, cs) == 0
  {
    hide Cmp, InOrder, FindFrom;
    FindIs(list, s, cs, 0);
    var i := FindFrom(list, s, cs, 0);
    if i >= 0 {
      assert Iota(|list|)[i] in multiset(positions);
      var k :| 0 <= k < |positions| && positions[k] == i;
      assert Cmp(Selected(list, positions)[k], s, cs) == 0;
    }
  }

  // Equal texts have the same first occurrence.
  lemma {:induction false} SameFirstFrom(list: seq<string>, s: string, t: string, cs: bool, from: nat)
    requires Cmp(s, t, cs) == 0
    ensures FindFrom(list, s, cs, from) == FindFrom(list, t, cs, from)
    decreases |list| - from
  {
    hide Cmp;
    if from < |list| {
      CmpFlip(s, t, cs);
      CmpFlip(list[from], s, cs);
      CmpFlip(list[from], t, cs);
      SameFirstFrom(list, s, t, cs, from + 1);
    }
  }

  lemma SameFirst(list: seq<string>, s: string, t: string, cs: bool)
    requires Cmp(s, t, cs) == 0
    ensures FindFrom(list, s, cs, 0) == FindFrom(list, t, cs, 0)
  {
    SameFirstFrom(list, s, t, cs, 0);
  }
}
