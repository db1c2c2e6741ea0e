// The single-column Levenshtein loop, the three-way recursion it computes, and
// that this is the least number of single-character edits.

module Levenshtein {

  function ToUpper(c: char): char {
    if 'a' <= c <= 'z' then (c as int - 'a' as int + 'A' as int) as char else c
  }

  predicate SameChar(c: char, d: char, caseSensitive: bool) {
    if caseSensitive then c == d else ToUpper(c) == ToUpper(d)
  }

  function Cost(c: char, d: char, caseSensitive: bool): nat {
    if SameChar(c, d, caseSensitive) then 0 else 1
  }

  function Min3(a: int, b: int, c: int): int {
    if a < b then (if a < c then a else c) else (if b < c then b else c)
  }

  function Init(s: string): string
    requires |s| > 0
  {
    s[..|s| - 1]
  }

  function Last(s: string): char
    requires |s| > 0
  {
    s[|s| - 1]
  }

  // Drop the last character of either, or match or replace both.
  function Dist(s: string, t: string, cs: bool): nat
    decreases |s| + |t|
  {
    if |s| == 0 then |t|
    else if |t| == 0 then |s|
    else Min3(Dist(Init(s), t, cs) + 1, Dist(s, Init(t), cs) + 1,
        Dist(Init(s), Init(t), cs) + Cost(Last(s), Last(t), cs))
  }

  // Equal but for the case of letters when that does not count.
  predicate SameText(s: string, t: string, cs: bool) {
    |s| == |t| && forall i :: 0 <= i < |s| ==> SameChar(s[i], t[i], cs)
  }

  lemma Edges(s: string, t: string, cs: bool)
    ensures |s| == 0 ==> Dist(s, t, cs) == |t|
    ensures |t| == 0 ==> Dist(s, t, cs) == |s|
  {
  }

  // ------------------------------------------------------------ the loop itself

  // The distance of the first y characters of s from the first x of t.
  function Cell(s: string, t: string, y: nat, x: nat, cs: bool): nat
    requires y <= |s| && x <= |t|
  {
    Dist(s[..y], t[..x], cs)
  }

  lemma EdgeCell(s: string, t: string, y: nat, x: nat, cs: bool)
    requires y <= |s| && x <= |t|
    ensures y == 0 ==> Cell(s, t, y, x, cs) == x
    ensures x == 0 ==> Cell(s, t, y, x, cs) == y
    ensures y == |s| && x == |t| ==> Cell(s, t, y, x, cs) == Dist(s, t, cs)
  {
    Edges(s[..y], t[..x], cs);
    assert s[..|s|] == s && t[..|t|] == t;
  }

  lemma NextCell(s: string, t: string, y: nat, x: nat, cs: bool)
    requires 1 <= y <= |s| && 1 <= x <= |t|
    ensures Cell(s, t, y, x, cs) ==
            Min3(Cell(s, t, y, x - 1, cs) + 1, Cell(s, t, y - 1, x, cs) + 1,
                 Cell(s, t, y - 1, x - 1, cs) + Cost(s[y - 1], t[x - 1], cs))
  {
    assert Init(s[..y]) == s[..y - 1] && Init(t[..x]) == t[..x - 1];
    hide Min3, Cost;
  }

  // On two empty strings the column's only cell is never set.
  method LevenshteinDist(s1: string, s2: string, cs: bool) returns (d: int)
    ensures |s1| + |s2| > 0 ==> d == Dist(s1, s2, cs)
  {
    hide Min3, Cost, Cell, Dist;
    var column := new int[|s1| + 1];
    var y := 1;
    while y <= |s1|
      invariant 1 <= y <= |s1| + 1
      invariant forall k :: 1 <= k < y ==> column[k] == Cell(s1, s2, k, 0, cs)
    {
      EdgeCell(s1, s2, y, 0, cs);
      column[y] := y;
      y := y + 1;
    }
    var x := 1;
    while x <= |s2|
      invariant 1 <= x <= |s2| + 1
      invariant forall k :: 1 <= k <= |s1| ==> column[k] == Cell(s1, s2, k, x - 1, cs)
      invariant x > 1 ==> column[0] == Cell(s1, s2, 0, x - 1, cs)
    {
      EdgeCell(s1, s2, 0, x, cs);
      EdgeCell(s1, s2, 0, x - 1, cs);
      column[0] := x;
      y := 1;
      var lastdiag := x - 1;
      while y <= |s1|
        invariant 1 <= y <= |s1| + 1
        invariant lastdiag == Cell(s1, s2, y - 1, x - 1, cs)
        invariant forall k :: 0 <= k < y ==> column[k] == Cell(s1, s2, k, x, cs)
        invariant forall k :: y <= k <= |s1| ==> column[k] == Cell(s1, s2, k, x - 1, cs)
      {
        var olddiag := column[y];
        NextCell(s1, s2, y, x, cs);
        column[y] := Min3(column[y] + 1, column[y - 1] + 1, lastdiag + Cost(s1[y - 1], s2[x - 1], cs));
        lastdiag := olddiag;
        y := y + 1;
      }
      x := x + 1;
    }
    d := column[|s1|];
    EdgeCell(s1, s2, |s1|, |s2|, cs);
  }

  // -------------------------------------------------------------- a distance

  lemma {:induction false} Symmetric(s: string, t: string, cs: bool)
    ensures Dist(s, t, cs) == Dist(t, s, cs)
    decreases |s| + |t|
  {
    if |s| > 0 && |t| > 0 {
      Symmetric(Init(s), t, cs);
      Symmetric(s, Init(t), cs);
      Symmetric(Init(s), Init(t), cs);
    }
  }

  // Between the difference of the lengths and the longer of them.
  lemma {:induction false} Bounds(s: string, t: string, cs: bool)
    ensures |s| - |t| <= Dist(s, t, cs) && |t| - |s| <= Dist(s, t, cs)
    ensures Dist(s, t, cs) <= if |s| < |t| then |t| else |s|
    decreases |s| + |t|
  {
    if |s| > 0 && |t| > 0 {
      Bounds(Init(s), t, cs);
      Bounds(s, Init(t), cs);
      Bounds(Init(s), Init(t), cs);
    }
  }

  lemma {:induction false} ZeroIffSame(s: string, t: string, cs: bool)
    ensures Dist(s, t, cs) == 0 <==> SameText(s, t, cs)
    decreases |s|
  {
    if |s| > 0 && |t| > 0 {
      ZeroIffSame(Init(s), Init(t), cs);
      hide Dist, SameChar;
      Unfold(s, t, cs);
      if SameText(Init(s), Init(t), cs) && SameChar(Last(s), Last(t), cs) {
        forall i | 0 <= i < |s| ensures SameChar(s[i], t[i], cs) {
          if i < |s| - 1 { assert SameChar(Init(s)[i], Init(t)[i], cs); }
        }
      }
      if SameText(s, t, cs) {
        forall i | 0 <= i < |s| - 1 ensures SameChar(Init(s)[i], Init(t)[i], cs) { assert SameChar(s[i], t[i], cs); }
      }
    }
  }

  // The three ways, as bounds and as cases.
  lemma Unfold(s: string, t: string, cs: bool)
    requires |s| > 0 && |t| > 0
    ensures Dist(s, t, cs) <= Dist(Init(s), t, cs) + 1
    ensures Dist(s, t, cs) <= Dist(s, Init(t), cs) + 1
    ensures Dist(s, t, cs) <= Dist(Init(s), Init(t), cs) + Cost(Last(s), Last(t), cs)
    ensures Dist(s, t, cs) == Dist(Init(s), t, cs) + 1 || Dist(s, t, cs) == Dist(s, Init(t), cs) + 1
            || Dist(s, t, cs) == Dist(Init(s), Init(t), cs) + Cost(Last(s), Last(t), cs)
  {
  }

  lemma CostTriangle(c: char, d: char, e: char, cs: bool)
    ensures Cost(c, e, cs) <= Cost(c, d, cs) + Cost(d, e, cs)
  {
  }

  lemma {:induction false} Triangle(s: string, t: string, u: string, cs: bool)
    ensures Dist(s, u, cs) <= Dist(s, t, cs) + Dist(t, u, cs)
    decreases |s| + |t| + |u|
  {
    hide Cost;
    if |s| == 0 || |t| == 0 || |u| == 0 {
      Bounds(s, u, cs);
      Bounds(s, t, cs);
      Bounds(t, u, cs);
    } else {
      hide Dist;
      Unfold(s, t, cs);
      Unfold(t, u, cs);
      Unfold(s, u, cs);
      CostTriangle(Last(s), Last(t), Last(u), cs);
      Triangle(Init(s), t, u, cs);
      Triangle(s, t, Init(u), cs);
      Triangle(s, Init(t), u, cs);
      Triangle(s, Init(t), Init(u), cs);
      Triangle(Init(s), Init(t), u, cs);
      Triangle(Init(s), Init(t), Init(u), cs);
    }
  }

  // ------------------------------------------------------------------- edits

  datatype Edit = Insert(at: nat, c: char) | Delete(at: nat) | Replace(at: nat, c: char)

  predicate Applies(e: Edit, s: string) {
    if e.Insert? then e.at <= |s| else e.at < |s|
  }

  function Apply(e: Edit, s: string): string
    requires Applies(e, s)
  {
    match e
    case Insert(i, c) => s[..i] + [c] + s[i..]
    case Delete(i) => s[..i] + s[i + 1..]
    case Replace(i, c) => s[..i] + [c] + s[i + 1..]
  }

  predicate AllApply(edits: seq<Edit>, s: string) {
    |edits| == 0 || (Applies(edits[0], s) && AllApply(edits[1..], Apply(edits[0], s)))
  }

  function Run(edits: seq<Edit>, s: string): string
    requires AllApply(edits, s)
  {
    if |edits| == 0 then s else Run(edits[1..], Apply(edits[0], s))
  }

  // A common ending does not add to the distance.
  lemma {:induction false} CommonEnd(p: string, p': string, q: string, cs: bool)
    ensures Dist(p + q, p' + q, cs) <= Dist(p, p', cs)
    decreases |q|
  {
    if |q| == 0 {
      assert p + q == p && p' + q == p';
    } else {
      assert Init(p + q) == p + Init(q) && Init(p' + q) == p' + Init(q);
      CommonEnd(p, p', Init(q), cs);
      Unfold(p + q, p' + q, cs);
    }
  }

  lemma OneEdit(e: Edit, s: string, cs: bool)
    requires Applies(e, s)
    ensures Dist(s, Apply(e, s), cs) <= 1
  {
    var p := s[..e.at];
    ZeroIffSame(p, p, cs);
    hide Dist;
    match e {
      case Insert(i, c) =>
        assert s == p + s[i..] && Init(p + [c]) == p;
        CommonEnd(p, p + [c], s[i..], cs);
        Extend(p, c, cs);
      case Delete(i) =>
        assert s == p + [s[i]] + s[i + 1..];
        CommonEnd(p + [s[i]], p, s[i + 1..], cs);
        Extend(p, s[i], cs);
        Symmetric(p, p + [s[i]], cs);
      case Replace(i, c) =>
        assert s == p + [s[i]] + s[i + 1..];
        CommonEnd(p + [s[i]], p + [c], s[i + 1..], cs);
        assert Init(p + [s[i]]) == p && Init(p + [c]) == p;
        Unfold(p + [s[i]], p + [c], cs);
    }
  }

  lemma Extend(p: string, c: char, cs: bool)
    ensures Dist(p, p + [c], cs) <= 1
  {
    ZeroIffSame(p, p, cs);
    if |p| > 0 {
      assert Init(p + [c]) == p;
      Unfold(p, p + [c], cs);
    }
  }

  // No shorter run of edits leads from s to t.
  lemma {:induction false} NoShorter(edits: seq<Edit>, s: string, t: string, cs: bool)
    requires AllApply(edits, s) && SameText(Run(edits, s), t, cs)
    ensures Dist(s, t, cs) <= |edits|
    decreases |edits|
  {
    if |edits| == 0 {
      ZeroIffSame(s, t, cs);
    } else {
      var s' := Apply(edits[0], s);
      NoShorter(edits[1..], s', t, cs);
      OneEdit(edits[0], s, cs);
      Triangle(s, s', t, cs);
    }
  }

  // Edits of a prefix leave what follows it.
  lemma {:induction false} RunPrefix(edits: seq<Edit>, s: string, c: char)
    requires AllApply(edits, s)
    ensures AllApply(edits, s + [c]) && Run(edits, s + [c]) == Run(edits, s) + [c]
    decreases |edits|
  {
    if |edits| > 0 {
      assert Apply(edits[0], s + [c]) == Apply(edits[0], s) + [c];
      RunPrefix(edits[1..], Apply(edits[0], s), c);
    }
  }

  lemma {:induction false} RunThen(edits: seq<Edit>, s: string, e: Edit)
    requires AllApply(edits, s) && Applies(e, Run(edits, s))
    ensures AllApply(edits + [e], s) && Run(edits + [e], s) == Apply(e, Run(edits, s))
    decreases |edits|
  {
    if |edits| == 0 {
      assert edits + [e] == [e];
      var none: seq<Edit> := [e][1..];
      assert none == [] && AllApply(none, Apply(e, s));
    } else {
      RunThen(edits[1..], Apply(edits[0], s), e);
      assert (edits + [e])[1..] == edits[1..] + [e];
    }
  }

  lemma ThenInsert(edits: seq<Edit>, s: string, c: char)
    requires AllApply(edits, s)
    ensures var e := Insert(|Run(edits, s)|, c);
      AllApply(edits + [e], s) && Run(edits + [e], s) == Run(edits, s) + [c]
  {
    var r := Run(edits, s);
    RunThen(edits, s, Insert(|r|, c));
    assert r[..|r|] + [c] + r[|r|..] == r + [c];
  }

  lemma ThenReplace(edits: seq<Edit>, s: string, c: char, d: char)
    requires AllApply(edits, s)
    ensures var e := Replace(|Run(edits, s)|, d);
      AllApply(edits + [e], s + [c]) && Run(edits + [e], s + [c]) == Run(edits, s) + [d]
  {
    var r := Run(edits, s);
    RunPrefix(edits, s, c);
    RunThen(edits, s + [c], Replace(|r|, d));
    assert (r + [c])[..|r|] + [d] + (r + [c])[|r| + 1..] == r + [d];
  }

  lemma DeleteThen(s: string, c: char, edits: seq<Edit>)
    requires AllApply(edits, s)
    ensures AllApply([Delete(|s|)] + edits, s + [c]) && Run([Delete(|s|)] + edits, s + [c]) == Run(edits, s)
  {
    assert (s + [c])[..|s|] + (s + [c])[|s| + 1..] == s;
    assert ([Delete(|s|)] + edits)[1..] == edits;
  }

  // Some run of exactly that many edits does.
  lemma {:induction false} Reached(s: string, t: string, cs: bool) returns (edits: seq<Edit>)
    ensures |edits| == Dist(s, t, cs) && AllApply(edits, s) && SameText(Run(edits, s), t, cs)
    decreases |s| + |t|
  {
    Edges(s, t, cs);
    if |s| > 0 && |t| > 0 { Unfold(s, t, cs); }
    assert |s| > 0 ==> Init(s) + [Last(s)] == s;
    assert |t| > 0 ==> Init(t) + [Last(t)] == t;
    hide Dist, AllApply, Run, SameText;
    if |s| == 0 && |t| == 0 {
      edits := NoEdits(cs);
    } else if |t| == 0 || (|s| > 0 && Dist(s, t, cs) == Dist(Init(s), t, cs) + 1) {
      edits := Reached(Init(s), t, cs);
      Edges(Init(s), t, cs);
      DeleteThen(Init(s), Last(s), edits);
      edits := [Delete(|Init(s)|)] + edits;
    } else if |s| == 0 || Dist(s, t, cs) == Dist(s, Init(t), cs) + 1 {
      edits := Reached(s, Init(t), cs);
      Edges(s, Init(t), cs);
      var r := Run(edits, s);
      ThenInsert(edits, s, Last(t));
      edits := edits + [Insert(|r|, Last(t))];
      AppendSame(r, Init(t), Last(t), Last(t), cs);
    } else {
      edits := Reached(Init(s), Init(t), cs);
      var r := Run(edits, Init(s));
      if SameChar(Last(s), Last(t), cs) {
        RunPrefix(edits, Init(s), Last(s));
        AppendSame(r, Init(t), Last(s), Last(t), cs);
      } else {
        ThenReplace(edits, Init(s), Last(s), Last(t));
        edits := edits + [Replace(|r|, Last(t))];
        AppendSame(r, Init(t), Last(t), Last(t), cs);
      }
    }
  }

  lemma NoEdits(cs: bool) returns (edits: seq<Edit>)
    ensures |edits| == 0 && AllApply(edits, "") && SameText(Run(edits, ""), "", cs)
  {
    edits := [];
  }

  lemma AppendSame(s: string, t: string, c: char, d: char, cs: bool)
    requires SameText(s, t, cs) && SameChar(c, d, cs)
    ensures SameText(s + [c], t + [d], cs)
  {
  }
}
