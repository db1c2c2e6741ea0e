// The string helpers of cppw_string.cpp that the parsers and printers rest on.

module Strings {

  // The target of a `string*` argument.
  class StringBuffer {
    var value: string

    constructor (s: string)
      ensures value == s
    {
      value := s;
    }
  }

  // `sub` occurs in `s` at position i.
  predicate OccursAt(s: string, sub: string, i: nat) {
    i + |sub| <= |s| && s[i..i + |sub|] == sub
  }

  // input[i], where the byte after the last one is the terminator.
  function CharAt(s: string, i: nat): char {
    if i < |s| then s[i] else '\0'
  }

  lemma Split(s: string, a: string, b: string, pos: nat)
    requires OccursAt(s, a + b, pos)
    ensures OccursAt(s, a, pos) && OccursAt(s, b, pos + |a|)
  {
    assert s[pos..pos + |a|] == s[pos..pos + |a + b|][..|a|];
    assert s[pos + |a|..pos + |a| + |b|] == s[pos..pos + |a + b|][|a|..];
  }

  lemma CharOf(s: string, t: string, pos: nat, i: nat)
    requires OccursAt(s, t, pos) && i < |t|
    ensures pos + i < |s| && s[pos + i] == t[i]
  {
    assert s[pos..pos + |t|][i] == s[pos + i];
  }

  lemma Bound(s: string, t: string, pos: nat)
    requires OccursAt(s, t, pos)
    ensures pos + |t| <= |s|
  {
  }

  lemma Slice(s: string, t: string, pos: nat)
    requires OccursAt(s, t, pos)
    ensures pos + |t| <= |s| && s[pos..pos + |t|] == t
  {
  }

  // FindChar: up to the terminator.
  function FindChar(s: string, c: char, pos: nat): (i: int)
    requires pos <= |s|
    ensures i >= 0 ==> pos <= i < |s|
    decreases |s| - pos
  {
    if CharAt(s, pos) == '\0' then -1 else if s[pos] == c then pos else FindChar(s, c, pos + 1)
  }

  // The first such character, unless the terminator comes before it.
  lemma {:induction false} FindCharIs(s: string, c: char, pos: nat)
    requires pos <= |s|
    ensures var i := FindChar(s, c, pos);
      if i >= 0 then s[i] == c && forall j :: pos <= j < i ==> s[j] != c && s[j] != '\0'
      else forall j :: pos <= j < |s| && s[j] == c ==> exists k :: pos <= k <= j && s[k] == '\0'
    decreases |s| - pos
  {
    if CharAt(s, pos) != '\0' && s[pos] != c { FindCharIs(s, c, pos + 1); }
  }

  lemma NoMatch(s: string, sub: string, i: nat, k: nat)
    requires k < |sub|
    requires i + k < |s| ==> s[i + k] != sub[k]
    ensures !OccursAt(s, sub, i)
  {
    if i + |sub| <= |s| {
      assert s[i..i + |sub|][k] == s[i + k];
    }
  }

  // std::string::find: the first occurrence at or after `start`, or -1.
  function Find(s: string, sub: string, start: nat): (i: int)
    requires |sub| > 0
    ensures i >= 0 ==> start <= i && OccursAt(s, sub, i)
    ensures forall j: nat :: start <= j && (i < 0 || j < i) ==> !OccursAt(s, sub, j)
    decreases |s| - start
  {
    if start + |sub| > |s| then -1
    else if OccursAt(s, sub, start) then start
    else Find(s, sub, start + 1)
  }

  // FindSubString for a case-sensitive search that need not match whole words.
  function FindSubString(s: string, sub: string, start: nat): (i: int) {
    if |s| == 0 || |sub| == 0 then -1 else Find(s, sub, start)
  }

  // Every leftmost, non-overlapping occurrence of `o` replaced by `n`.
  function ReplaceAll(s: string, o: string, n: string): string
  {
    if |o| == 0 || |s| < |o| then s
    else if s[..|o|] == o then n + ReplaceAll(s[|o|..], o, n)
    else [s[0]] + ReplaceAll(s[1..], o, n)
  }

  lemma Shifted(s: string, o: string, from: nat, i: nat)
    requires from <= |s|
    ensures OccursAt(s[from..], o, i) == OccursAt(s, o, from + i)
  {
    if from + i + |o| <= |s| {
      assert s[from..][i..i + |o|] == s[from + i..from + i + |o|];
    }
  }

  lemma ReplaceStep(s: string, o: string, n: string)
    requires |o| > 0 && |s| > 0 && !OccursAt(s, o, 0)
    ensures ReplaceAll(s, o, n) == [s[0]] + ReplaceAll(s[1..], o, n)
  {
    if |s| < |o| {
      ReplaceShort(s[1..], o, n);
    } else {
      assert s[0..|o|] == s[..|o|];
    }
  }

  // Where nothing matches, replacement only copies.
  lemma {:induction false} ReplaceSkips(t: string, rest: string, o: string, n: string)
    requires |o| > 0
    requires forall i: nat :: i < |t| ==> !OccursAt(t + rest, o, i)
    ensures ReplaceAll(t + rest, o, n) == t + ReplaceAll(rest, o, n)
  {
    hide ReplaceAll, OccursAt;
    if |t| == 0 {
      assert t + rest == rest;
    } else {
      var s := t + rest;
      assert s[1..] == t[1..] + rest;
      forall i: nat | i < |t| - 1 ensures !OccursAt(t[1..] + rest, o, i) {
        Shifted(s, o, 1, i);
      }
      ReplaceSkips(t[1..], rest, o, n);
      ReplaceStep(s, o, n);
    }
  }

  lemma ReplaceShort(s: string, o: string, n: string)
    requires |s| < |o|
    ensures ReplaceAll(s, o, n) == s
  {
  }

  lemma ReplaceMatch(rest: string, o: string, n: string)
    requires |o| > 0
    ensures ReplaceAll(o + rest, o, n) == n + ReplaceAll(rest, o, n)
  {
    assert (o + rest)[..|o|] == o && (o + rest)[|o|..] == rest;
  }

  // The loop over FindSubString that rewrites the buffer in place.
  method ReplaceSubString(p: StringBuffer, o: string, n: string)
    modifies p
    ensures p.value == ReplaceAll(old(p.value), o, n)
  {
    hide ReplaceAll, Find;
    ghost var before := p.value;
    var pos := FindSubString(p.value, o, 0);
    var from: nat := 0;
    assert p.value[from..] == p.value;
    while pos >= 0
      invariant from <= |p.value|
      invariant pos == FindSubString(p.value, o, from)
      invariant p.value[..from] + ReplaceAll(p.value[from..], o, n) == ReplaceAll(before, o, n)
      decreases |p.value| - from, pos >= 0
    {
      var s := p.value;
      TailMatch(s, from, pos, o, n);
      p.value := s[..pos] + n + s[pos + |o|..];
      Spliced(s, from, pos, pos + |o|, n, ReplaceAll(s[pos + |o|..], o, n));
      from := pos + |n|;
      pos := FindSubString(p.value, o, from);
    }
    NoMore(p.value, from, o, n);
    assert p.value[..from] + p.value[from..] == p.value;
  }

  lemma Spliced(s: string, from: nat, pos: nat, end: nat, n: string, done: string)
    requires from <= pos <= end <= |s|
    ensures var s' := s[..pos] + n + s[end..];
      s'[pos + |n|..] == s[end..] && s'[..pos + |n|] + done == s[..from] + (s[from..pos] + n + done)
  {
    assert s[..pos] == s[..from] + s[from..pos];
  }

  lemma Cut(s: string, from: nat, pos: nat, o: string)
    requires from <= pos && OccursAt(s, o, pos)
    ensures s[from..] == s[from..pos] + s[pos..]
    ensures s[pos..] == o + s[pos + |o|..]
  {
  }

  // The next match splits what is still to be rewritten.
  lemma TailMatch(s: string, from: nat, pos: nat, o: string, n: string)
    requires from <= |s| && |o| > 0 && pos == Find(s, o, from)
    ensures from <= pos && pos + |o| <= |s|
    ensures ReplaceAll(s[from..], o, n) == s[from..pos] + n + ReplaceAll(s[pos + |o|..], o, n)
  {
    var t := s[from..pos];
    var rest := s[pos..];
    Cut(s, from, pos, o);
    hide ReplaceAll, Find, OccursAt;
    forall i: nat | i < |t| ensures !OccursAt(t + rest, o, i) {
      Shifted(s, o, from, i);
    }
    ReplaceSkips(t, rest, o, n);
    ReplaceMatch(s[pos + |o|..], o, n);
  }

  lemma NoMore(s: string, from: nat, o: string, n: string)
    requires from <= |s| && FindSubString(s, o, from) < 0
    ensures ReplaceAll(s[from..], o, n) == s[from..]
  {
    if |s| > 0 && |o| > 0 {
      var t := s[from..];
      forall i: nat | i < |t| ensures !OccursAt(t + "", o, i) {
        assert t + "" == t;
        Shifted(s, o, from, i);
      }
      ReplaceSkips(t, "", o, n);
      ReplaceShort("", o, n);
      assert t + "" == t;
    }
  }

  // s with c appended unless c is its last character already.
  function EnsureLastChar(s: string, c: char): string {
    if |s| == 0 || s[|s| - 1] != c then s + [c] else s
  }

  // ------------------------------------------------------------ comparing text

  // strcmp(s, t) < 0.
  predicate StrLess(s: string, t: string) {
    if |t| == 0 then false
    else if |s| == 0 then true
    else if s[0] != t[0] then s[0] < t[0]
    else StrLess(s[1..], t[1..])
  }

  lemma {:induction false} StrTotal(s: string, t: string)
    ensures StrLess(s, t) || StrLess(t, s) || s == t
    ensures !(StrLess(s, t) && StrLess(t, s)) && !StrLess(s, s)
  {
    if |s| > 0 { StrTotal(s[1..], s[1..]); }
    if |s| > 0 && |t| > 0 {
      StrTotal(s[1..], t[1..]);
      if s[0] == t[0] && s[1..] == t[1..] { assert s == [s[0]] + s[1..] && t == [t[0]] + t[1..]; }
    }
  }

  // Either text may be the shorter one; otherwise the first difference decides.
  lemma {:induction false} StrLessIs(s: string, t: string)
    ensures StrLess(s, t) <==> exists n: nat :: DiffersAt(s, t, n)
  {
    if |s| > 0 && |t| > 0 && s[0] == t[0] {
      StrLessIs(s[1..], t[1..]);
      forall n: nat | DiffersAt(s, t, n) ensures n > 0 && DiffersAt(s[1..], t[1..], n - 1) {
        assert s[..n][1..] == s[1..][..n - 1] && t[..n][1..] == t[1..][..n - 1];
      }
      forall n: nat | DiffersAt(s[1..], t[1..], n) ensures DiffersAt(s, t, n + 1) {
        assert s[..n + 1] == [s[0]] + s[1..][..n] && t[..n + 1] == [t[0]] + t[1..][..n];
      }
    } else {
      forall n: nat | DiffersAt(s, t, n) ensures n == 0 {
        if n > 0 { FirstSame(s, t, n); }
      }
      assert s[..0] == t[..0];
      if StrLess(s, t) { assert DiffersAt(s, t, 0); }
    }
  }

  lemma FirstSame(s: string, t: string, n: nat)
    requires DiffersAt(s, t, n) && n > 0
    ensures |s| > 0 && |t| > 0 && s[0] == t[0]
  {
    assert s[..n][0] == t[..n][0];
  }

  predicate DiffersAt(s: string, t: string, n: nat) {
    n <= |s| && n < |t| && s[..n] == t[..n] && (n == |s| || s[n] < t[n])
  }

  lemma {:induction false} StrTrans(s: string, t: string, u: string)
    requires StrLess(s, t) && StrLess(t, u)
    ensures StrLess(s, u)
  {
    if |s| > 0 && s[0] == t[0] == u[0] {
      StrTrans(s[1..], t[1..], u[1..]);
    }
  }

  function Lower(c: char): char {
    if 'A' <= c <= 'Z' then (c as int - 'A' as int + 'a' as int) as char else c
  }

  function LowerCase(s: string): (r: string)
    ensures |r| == |s|
  {
    if |s| == 0 then "" else [Lower(s[0])] + LowerCase(s[1..])
  }

  const UPPER: string := "ABCDEFGHIJKLMNOPQRSTUVWXYZ"
  const LOWER: string := "abcdefghijklmnopqrstuvwxyz"

  // The 26 letters become small and every other character stays.
  lemma LowerCaseIs(s: string, i: nat)
    requires i < |s|
    ensures |UPPER| == |LOWER| == 26
    ensures forall k :: 0 <= k < 26 && s[i] == UPPER[k] ==> LowerCase(s)[i] == LOWER[k]
    ensures s[i] !in UPPER ==> LowerCase(s)[i] == s[i]
  {
    hide UPPER, LOWER, LowerCase;
    LowerCaseAt(s, i);
    LettersAre();
    var c := s[i];
    if 'A' <= c <= 'Z' { assert UPPER[c as int - 'A' as int] == c; }
  }

  lemma {:induction false} LowerCaseAt(s: string, i: nat)
    requires i < |s|
    ensures LowerCase(s)[i] == Lower(s[i])
    decreases |s|
  {
    if i > 0 { LowerCaseAt(s[1..], i - 1); }
  }

  lemma LettersAre()
    ensures |UPPER| == |LOWER| == 26
    ensures forall k :: 0 <= k < 26 ==>
              UPPER[k] as int == 'A' as int + k && LOWER[k] as int == 'a' as int + k
  {
  }
}
