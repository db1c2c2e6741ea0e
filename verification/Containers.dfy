// String lists, tables of string columns, and their quicksort.

module Containers {
  import opened Strings
  import opened Sorting

  lemma ScanStart(keys: seq<string>, descending: bool, start: nat, end: nat)
    requires start < end < |keys|
    ensures Scanning(keys, descending, start, end + 1, start, end, keys[start])
    ensures Le(keys[start], keys[start], descending)
  {
    LeTotal(keys[start], keys[start], descending);
  }

  // The two inner loops of the sort: past the texts not above the pivot, back
  // over those above it.
  method Scan(keys: seq<string>, descending: bool, start: nat, end: nat, from: nat, to: nat) returns (i: nat, k: nat)
    requires start <= from < to <= end < |keys|
    requires Scanning(keys, descending, start, end + 1, from, to, keys[start])
    requires Le(keys[from], keys[start], descending)
    ensures from <= i <= k + 1 && k <= to && start <= k && i <= end && start < i
    ensures Scanning(keys, descending, start, end + 1, i, k, keys[start])
    ensures Le(keys[k], keys[start], descending)
    ensures k > i ==> !Le(keys[i], keys[start], descending)
  {
    hide StrLess;
    i, k := from, to;
    while Le(keys[i], keys[start], descending) && i <= end && k > i
      invariant from <= i <= k && Scanning(keys, descending, start, end + 1, i, k, keys[start])
      invariant i == from ==> Le(keys[i], keys[start], descending)
      decreases k - i
    {
      i := i + 1;
    }
    while !Le(keys[k], keys[start], descending) && k >= start && k >= i
      invariant start < i <= k + 1
      invariant Scanning(keys, descending, start, end + 1, i, k, keys[start])
      decreases k - i + 1
    {
      k := k - 1;
    }
  }

  class CWStringList {
    var Strings: seq<string>

    constructor ()
      ensures Strings == []
    {
      Strings := [];
    }

    method Swap(i: nat, k: nat)
      requires i < |Strings| && k < |Strings|
      modifies this
      ensures Strings == SwapAt(old(Strings), i, k)
    {
      Strings := Strings[i := Strings[k]][k := Strings[i]];
    }

    // The swap of two texts, skipped when they are the same.
    method Exchange(i: nat, k: nat, ghost lo: nat, ghost hi: nat)
      requires lo <= i < hi <= |Strings| && lo <= k < hi
      modifies this
      ensures Strings == SwapAt(old(Strings), i, k) && |Strings| == |old(Strings)|
      ensures Permuted(Strings, old(Strings), lo, hi)
    {
      SwapPermutes(Strings, i, k, lo, hi);
      if Strings[i] != Strings[k] {
        Swap(i, k);
      }
    }

    // The scans of Sort: the pivot ends up at k, with nothing greater before it
    // and nothing smaller after it.
    method Partition(descending: bool, start: nat, end: nat) returns (k: nat)
      requires start < end < |Strings|
      modifies this
      ensures |Strings| == |old(Strings)| && Permuted(Strings, old(Strings), start, end + 1)
      ensures start <= k <= end && Parted(Strings, descending, start, k, end + 1)
    {
      hide Permuted, SwapAt, Scanning, Parted, Le;
      PermutedSelf(Strings, start, end + 1);
      ScanStart(Strings, descending, start, end);
      ghost var hi, pivot := end + 1, Strings[start];
      var i := start;
      k := end;
      while k > i
        invariant start <= i <= k + 1 && start <= k <= end && i <= end
        invariant |Strings| == |old(Strings)| && Permuted(Strings, old(Strings), start, hi)
        invariant Scanning(Strings, descending, start, hi, i, k, pivot) && pivot == Strings[start]
        invariant Le(Strings[if k > i then i else k], pivot, descending)
        decreases k - i
      {
        i, k := Scan(Strings, descending, start, end, i, k);
        if k > i {
          ghost var before := Strings;
          SwapScanning(Strings, descending, start, hi, i, k, pivot);
          Exchange(i, k, start, hi);
          PermutedTrans(Strings, before, old(Strings), start, hi);
        }
      }
      ghost var before := Strings;
      PlacePivot(Strings, descending, start, hi, i, k, pivot);
      Exchange(start, k, start, hi);
      PermutedTrans(Strings, before, old(Strings), start, hi);
    }

    // Sort between two positions, in place.
    method SortRange(descending: bool, start: nat, end: int)
      requires start <= end + 1 <= |Strings|
      modifies this
      ensures |Strings| == |old(Strings)| && Permuted(Strings, old(Strings), start, end + 1)
      ensures Ordered(Strings, descending, start, end + 1)
      decreases end - start
    {
      hide Permuted, Parted, Ordered;
      ghost var before := Strings;
      SortedAlready(Strings, descending, start, end + 1);
      if end - start < 1 { return; }
      var k := Partition(descending, start, end);
      ghost var s0 := Strings;
      if k > start {
        SortRange(descending, start, k - 1);
      }
      ghost var s1 := Strings;
      if k < end {
        SortRange(descending, k + 1, end);
      }
      SortedThrough(before, s0, s1, Strings, descending, start, k, end + 1);
    }

    method Sort(descending: bool)
      modifies this
      ensures multiset(Strings) == multiset(old(Strings))
      ensures forall x, y :: 0 <= x < y < |Strings| ==> StrCmp(Strings[x], Strings[y], descending) <= 0
    {
      SortRange(descending, 0, |Strings| - 1);
      assert Strings[0..|Strings|] == Strings && old(Strings)[0..|old(Strings)|] == old(Strings);
      assert forall x, y :: 0 <= x < y < |Strings| ==> Le(Strings[x], Strings[y], descending);
    }
  }

  function Blank(n: nat): (row: seq<string>)
    ensures |row| == n
  {
    seq(n, i => "")
  }

  // A cell of a table; blank outside it.
  function Cell(rows: seq<seq<string>>, col: int, row: int): string {
    if 0 <= row < |rows| && 0 <= col < |rows[row]| then rows[row][col] else ""
  }

  ghost predicate SameCells(rows: seq<seq<string>>, before: seq<seq<string>>) {
    forall c, r :: Cell(rows, c, r) == Cell(before, c, r)
  }

  lemma ColKeepsCells(rows: seq<seq<string>>, before: seq<seq<string>>)
    requires |rows| == |before| && forall r :: 0 <= r < |rows| ==> rows[r] == before[r] + [""]
    ensures SameCells(rows, before)
  {
  }

  lemma RowKeepsCells(before: seq<seq<string>>, n: nat)
    ensures SameCells(before + [Blank(n)], before)
  {
  }

  lemma SetIs(after: seq<seq<string>>, rows: seq<seq<string>>, before: seq<seq<string>>, col: nat, row: nat,
              value: string)
    requires row < |rows| && col < |rows[row]| && after == rows[row := rows[row][col := value]]
    requires SameCells(rows, before)
    ensures forall c, r :: Cell(after, c, r) == if c == col && r == row then value else Cell(before, c, r)
  {
    forall c, r ensures Cell(after, c, r) == if c == col && r == row then value else Cell(rows, c, r) {
      if 0 <= r < |rows| { assert |after[r]| == |rows[r]|; }
    }
  }

  // A table of columns of the same length, no two the same object.
  class CWStringTable {
    var Columns: seq<CWStringList>

    // The rows as tuples.
    ghost var Rows: seq<seq<string>>

    ghost predicate Valid()
      reads this, Columns
    {
      && (|Columns| == 0 ==> |Rows| == 0)
      && (forall c, d :: 0 <= c < d < |Columns| ==> Columns[c] != Columns[d])
      && (forall c :: 0 <= c < |Columns| ==> |Columns[c].Strings| == |Rows|)
      && (forall r :: 0 <= r < |Rows| ==> |Rows[r]| == |Columns|)
      && forall r, c :: 0 <= r < |Rows| && 0 <= c < |Columns| ==> Rows[r][c] == Columns[c].Strings[r]
    }

    method RowCount() returns (n: nat)
      requires Valid()
      ensures n == |Rows|
    {
      if |Columns| == 0 { return 0; }
      n := |Columns[0].Strings|;
    }

    constructor ()
      ensures Valid() && Columns == [] && Rows == []
    {
      Columns, Rows := [], [];
    }

    method Clear()
      modifies this
      ensures Valid() && Columns == [] && Rows == []
    {
      Columns, Rows := [], [];
    }

    // A blank row at the end, when there is a column to hold it.
    method AddRow()
      requires Valid()
      modifies this`Rows, Columns
      ensures Valid()
      ensures Rows == if |Columns| == 0 then [] else old(Rows) + [Blank(|Columns|)]
    {
      var c := 0;
      while c < |Columns|
        invariant c <= |Columns| && Rows == old(Rows)
        invariant forall d :: 0 <= d < c ==> Columns[d].Strings == old(Columns[d].Strings) + [""]
        invariant forall d :: c <= d < |Columns| ==> Columns[d].Strings == old(Columns[d].Strings)
      {
        Columns[c].Strings := Columns[c].Strings + [""];
        c := c + 1;
      }
      Rows := if |Columns| == 0 then [] else Rows + [Blank(|Columns|)];
    }

    // A column at the right, with the same text in every row.
    method AddCol(value: string) returns (col: CWStringList)
      requires Valid()
      modifies this
      ensures Valid() && fresh(col) && Columns == old(Columns) + [col]
      ensures |Rows| == |old(Rows)| && forall r :: 0 <= r < |Rows| ==> Rows[r] == old(Rows)[r] + [value]
    {
      col := new CWStringList();
      var rowCount := RowCount();
      var i := 0;
      while i < rowCount
        invariant i <= rowCount && |col.Strings| == i && forall r :: 0 <= r < i ==> col.Strings[r] == value
        invariant fresh(col) && Columns == old(Columns) && Rows == old(Rows) && rowCount == |Rows|
        invariant forall d :: 0 <= d < |Columns| ==> Columns[d].Strings == old(Columns[d].Strings)
      {
        col.Strings := col.Strings + [value];
        i := i + 1;
      }
      Columns := Columns + [col];
      Rows := seq(|Rows|, r requires 0 <= r < |Rows| reads this => Rows[r] + [value]);
    }

    // GetValue: blank outside the table.
    method GetValue(col: int, row: int) returns (value: string)
      requires Valid()
      ensures value == Cell(Rows, col, row)
    {
      if col < 0 || col >= |Columns| { return ""; }
      var rowCount := RowCount();
      if row < 0 || row >= rowCount { return ""; }
      value := Columns[col].Strings[row];
    }

    // Blank columns until there is one at `col`.
    method GrowCols(col: nat)
      requires Valid()
      modifies this
      ensures Valid() && |Columns| > col && |Rows| == |old(Rows)|
      ensures old(Columns) <= Columns && fresh(Columns[|old(Columns)|..])
      ensures SameCells(Rows, old(Rows))
    {
      hide Cell;
      while |Columns| <= col
        invariant Valid() && |Rows| == |old(Rows)|
        invariant old(Columns) <= Columns && fresh(Columns[|old(Columns)|..])
        invariant SameCells(Rows, old(Rows))
      {
        ghost var rows, columns := Rows, Columns;
        var added := AddCol("");
        ColKeepsCells(Rows, rows);
        assert Columns[|old(Columns)|..] == columns[|old(Columns)|..] + [added];
      }
    }

    method GrowRows(row: nat)
      requires Valid() && |Columns| > 0
      modifies this`Rows, Columns
      ensures Valid() && |Rows| > row && |Rows| >= |old(Rows)|
      ensures SameCells(Rows, old(Rows))
    {
      hide Cell;
      var rowCount := RowCount();
      while rowCount <= row
        invariant Valid() && rowCount == |Rows| >= |old(Rows)|
        invariant SameCells(Rows, old(Rows))
      {
        RowKeepsCells(Rows, |Columns|);
        AddRow();
        rowCount := RowCount();
      }
    }

    // SetValue changes one cell and no other; the table grows to hold it if
    // it may.
    method SetValue(col: int, row: int, value: string, expand: bool)
      requires Valid()
      modifies this, Columns
      ensures Valid()
      ensures var applies := col >= 0 && row >= 0 && (expand || (col < |old(Columns)| && row < |old(Rows)|));
        forall c, r :: Cell(Rows, c, r) == if applies && c == col && r == row then value else Cell(old(Rows), c, r)
      ensures old(Columns) <= Columns && fresh(Columns[|old(Columns)|..]) && |Rows| >= |old(Rows)|
      ensures !expand ==> |Columns| == |old(Columns)| && |Rows| == |old(Rows)|
    {
      hide Cell;
      if col < 0 || row < 0 { return; }
      if col >= |Columns| {
        if !expand { return; }
        GrowCols(col);
      }
      var rowCount := RowCount();
      if row >= rowCount {
        if !expand { return; }
        GrowRows(row);
      }
      ghost var grown := Rows;
      assert SameCells(grown, old(Rows));
      assert if col < |old(Columns)| then Columns[col] == old(Columns)[col]
             else Columns[col] == Columns[|old(Columns)|..][col - |old(Columns)|];
      SetCell(col, row, value);
      SetIs(Rows, grown, old(Rows), col, row, value);
    }

    method SetCell(col: nat, row: nat, value: string)
      requires Valid() && col < |Columns| && row < |Rows|
      modifies this`Rows, Columns[col]
      ensures Valid() && Rows == old(Rows)[row := old(Rows)[row][col := value]]
    {
      Columns[col].Strings := Columns[col].Strings[row := value];
      Rows := Rows[row := Rows[row][col := value]];
    }

    // Every column is swapped, so whole rows are.
    method SwapRows(i: nat, k: nat)
      requires Valid() && i < |Rows| && k < |Rows|
      modifies this`Rows, Columns
      ensures Valid() && Rows == SwapAt(old(Rows), i, k)
      ensures forall c :: 0 <= c < |Columns| ==>
                |Columns[c].Strings| == |Rows| == |old(Rows)|
                && Columns[c].Strings == SwapAt(old(Columns[c].Strings), i, k)
    {
      var c := 0;
      while c < |Columns|
        invariant c <= |Columns| && Rows == old(Rows)
        invariant forall d :: 0 <= d < c ==> Columns[d].Strings == SwapAt(old(Columns[d].Strings), i, k)
        invariant forall d :: c <= d < |Columns| ==> Columns[d].Strings == old(Columns[d].Strings)
      {
        Columns[c].Swap(i, k);
        c := c + 1;
      }
      Rows := SwapAt(Rows, i, k);
    }

    // The swap of two rows, skipped when their keys are the same.
    method Exchange(col: nat, i: nat, k: nat, ghost lo: nat, ghost hi: nat)
      requires Valid() && col < |Columns| && lo <= i < hi <= |Rows| && lo <= k < hi
      modifies this`Rows, Columns
      ensures Valid() && |Rows| == |old(Rows)| == |Columns[col].Strings|
      ensures Columns[col].Strings == SwapAt(old(Columns[col].Strings), i, k)
      ensures Permuted(Columns[col].Strings, old(Columns[col].Strings), lo, hi)
      ensures Permuted(Rows, old(Rows), lo, hi)
    {
      hide Permuted;
      SwapPermutes(Rows, i, k, lo, hi);
      SwapPermutes(Columns[col].Strings, i, k, lo, hi);
      PermutedSelf(Rows, lo, hi);
      if Columns[col].Strings[i] != Columns[col].Strings[k] {
        SwapRows(i, k);
      }
    }

    // The scans of Sort over the key column, moving rows.
    method Partition(col: nat, descending: bool, start: nat, end: nat) returns (k: nat)
      requires Valid() && col < |Columns| && start < end < |Rows|
      modifies this`Rows, Columns
      ensures Valid() && |Rows| == |old(Rows)| && Permuted(Rows, old(Rows), start, end + 1)
      ensures Permuted(Columns[col].Strings, old(Columns[col].Strings), start, end + 1)
      ensures start <= k <= end && Parted(Columns[col].Strings, descending, start, k, end + 1)
    {
      hide Permuted, SwapAt, Scanning, Parted, Le;
      var key := Columns[col];
      ghost var rows, keys := Rows, key.Strings;
      PermutedSelf(rows, start, end + 1);
      PermutedSelf(keys, start, end + 1);
      assert |keys| == |Rows|;
      ScanStart(keys, descending, start, end);
      ghost var hi, pivot := end + 1, keys[start];
      var i := start;
      k := end;
      while k > i
        invariant start <= i <= k + 1 && start <= k <= end && i <= end
        invariant Valid() && |Rows| == |rows| == |key.Strings| && Permuted(Rows, rows, start, hi)
        invariant Permuted(key.Strings, keys, start, hi) && pivot == key.Strings[start]
        invariant Scanning(key.Strings, descending, start, hi, i, k, pivot)
        invariant Le(key.Strings[if k > i then i else k], pivot, descending)
        decreases k - i
      {
        i, k := Scan(key.Strings, descending, start, end, i, k);
        if k > i {
          ghost var r, s := Rows, key.Strings;
          SwapScanning(key.Strings, descending, start, hi, i, k, pivot);
          Exchange(col, i, k, start, hi);
          PermutedTrans(Rows, r, rows, start, hi);
          PermutedTrans(key.Strings, s, keys, start, hi);
        }
      }
      ghost var r, s := Rows, key.Strings;
      PlacePivot(key.Strings, descending, start, hi, i, k, pivot);
      Exchange(col, start, k, start, hi);
      PermutedTrans(Rows, r, rows, start, hi);
      PermutedTrans(key.Strings, s, keys, start, hi);
    }

    method SortRange(col: nat, descending: bool, start: nat, end: int)
      requires Valid() && col < |Columns| && start <= end + 1 <= |Rows|
      modifies this`Rows, Columns
      ensures Valid() && |Rows| == |old(Rows)| && Permuted(Rows, old(Rows), start, end + 1)
      ensures Permuted(Columns[col].Strings, old(Columns[col].Strings), start, end + 1)
      ensures Ordered(Columns[col].Strings, descending, start, end + 1)
      decreases end - start
    {
      hide Parted, Ordered, Permuted;
      ghost var hi, before, keys := end + 1, Rows, Columns[col].Strings;
      PermutedSelf(Rows, start, hi);
      SortedAlready(keys, descending, start, hi);
      if end - start < 1 { return; }
      var k := Partition(col, descending, start, end);
      ghost var r0, s0 := Rows, Columns[col].Strings;
      if k > start {
        SortRange(col, descending, start, k - 1);
      }
      ghost var r1, s1 := Rows, Columns[col].Strings;
      if k < end {
        SortRange(col, descending, k + 1, end);
      }
      SortedThrough(keys, s0, s1, Columns[col].Strings, descending, start, k, hi);
      PermutedThrough(before, r0, r1, Rows, start, k, hi);
    }

    // Sort by a column: its texts come out in order and the table still has
    // the rows it had.
    method Sort(col: nat, descending: bool)
      requires Valid() && col < |Columns|
      modifies this`Rows, Columns
      ensures Valid() && multiset(Rows) == multiset(old(Rows))
      ensures forall x, y :: 0 <= x < y < |Rows| ==>
          StrCmp(Columns[col].Strings[x], Columns[col].Strings[y], descending) <= 0
    {
      SortRange(col, descending, 0, |Columns[0].Strings| - 1);
      assert Rows[0..|Rows|] == Rows && old(Rows)[0..|old(Rows)|] == old(Rows);
      ghost var keys := Columns[col].Strings;
      assert forall x, y :: 0 <= x < y < |keys| ==> Le(keys[x], keys[y], descending);
    }
  }

  // A partition and a sort of either side sort the whole.
  lemma SortedThrough(before: seq<string>, s0: seq<string>, s1: seq<string>, s2: seq<string>,
                      descending: bool, lo: nat, k: nat, hi: nat)
    requires Permuted(s0, before, lo, hi) && Parted(s0, descending, lo, k, hi)
    requires if k > lo then Permuted(s1, s0, lo, k) && Ordered(s1, descending, lo, k) else s1 == s0
    requires if k + 1 < hi then Permuted(s2, s1, k + 1, hi) && Ordered(s2, descending, k + 1, hi) else s2 == s1
    ensures Permuted(s2, before, lo, hi) && Ordered(s2, descending, lo, hi)
  {
    AfterLeft(s1, s0, descending, lo, k, hi);
    AfterRight(s2, s1, descending, lo, k, hi);
    PermutedThrough(before, s0, s1, s2, lo, k, hi);
  }

  lemma PermutedThrough<T>(before: seq<T>, s0: seq<T>, s1: seq<T>, s2: seq<T>, lo: nat, k: nat, hi: nat)
    requires Permuted(s0, before, lo, hi) && lo <= k < hi <= |s0|
    requires if k > lo then Permuted(s1, s0, lo, k) else s1 == s0
    requires if k + 1 < hi then Permuted(s2, s1, k + 1, hi) else s2 == s1
    ensures Permuted(s2, before, lo, hi)
  {
    if k > lo { Widen(s1, s0, lo, k, lo, hi); }
    if k + 1 < hi { Widen(s2, s1, k + 1, hi, lo, hi); }
  }

  lemma PermutedSelf<T>(s: seq<T>, lo: nat, hi: nat)
    requires lo <= hi <= |s|
    ensures Permuted(s, s, lo, hi)
  {
  }

  // A range of at most one text is in order.
  lemma SortedAlready(s: seq<string>, descending: bool, lo: nat, hi: nat)
    requires lo <= hi <= |s|
    ensures Permuted(s, s, lo, hi) && (hi <= lo + 1 ==> Ordered(s, descending, lo, hi))
  {
  }

  lemma AfterLeft(s1: seq<string>, s0: seq<string>, descending: bool, lo: nat, k: nat, hi: nat)
    requires Parted(s0, descending, lo, k, hi)
    requires if k > lo then Permuted(s1, s0, lo, k) && Ordered(s1, descending, lo, k) else s1 == s0
    ensures Parted(s1, descending, lo, k, hi) && Ordered(s1, descending, lo, k)
  {
    if k > lo { PartedLeft(s1, s0, descending, lo, k, hi); }
  }

  lemma AfterRight(s2: seq<string>, s1: seq<string>, descending: bool, lo: nat, k: nat, hi: nat)
    requires Parted(s1, descending, lo, k, hi) && Ordered(s1, descending, lo, k)
    requires if k + 1 < hi then Permuted(s2, s1, k + 1, hi) && Ordered(s2, descending, k + 1, hi) else s2 == s1
    ensures Ordered(s2, descending, lo, hi)
  {
    if k + 1 < hi {
      PartedRight(s2, s1, descending, lo, k, hi);
      OrderedKept(s2, s1, descending, lo, k, k + 1, hi);
    }
    OrderedAround(s2, descending, lo, k, hi);
  }
}
