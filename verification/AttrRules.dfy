// Attribute assignments of one line, kept in a sorted vector.

module AttrRules {
  import opened Strings

  datatype Value = True | False | Unset | Text(text: string)

  // name_hash is kept beside the name it was computed from.
  datatype Assign = Assign(name: string, hash: nat, value: Value)

  const HASH_MOD: int := 0x1_0000_0000

  // A byte as a signed char.
  function CharValue(c: char): int {
    var v := c as int % 256;
    if v < 128 then v else v - 256
  }

  // ((h << 5) + h) + c in 32 bits.
  function HashStep(h: nat, c: char): nat {
    (h * 33 + CharValue(c)) % HASH_MOD
  }

  function HashFrom(h: nat, name: string): nat
    decreases |name|
  {
    if |name| == 0 then h else HashFrom(HashStep(h, name[0]), name[1..])
  }

  // git_attr_file__name_hash.
  function NameHash(name: string): nat {
    HashFrom(5381, name)
  }

  method NameHashLoop(name: string) returns (h: nat)
    ensures h == NameHash(name)
  {
    h := 5381;
    var i := 0;
    assert name[0..] == name;
    while i < |name|
      invariant i <= |name| && HashFrom(h, name[i..]) == NameHash(name)
    {
      assert name[i..][1..] == name[i + 1..];
      h := HashStep(h, name[i]);
      i := i + 1;
    }
  }

  // Each character counts 33 times what the next one does.
  lemma HashOfTwo(c: char, d: char)
    ensures NameHash([c, d]) == (5381 * 33 * 33 + CharValue(c) * 33 + CharValue(d)) % HASH_MOD
  {
    assert [c, d][1..] == [d] && [d][1..] == "";
    var x: int := 5381 * 33 + CharValue(c);
    assert HashStep(5381, c) == x;
    assert HashFrom(5381, [c, d]) == HashFrom(x, [d]) == HashFrom(HashStep(x, d), "") == HashStep(x, d);
  }

  lemma {:induction false} HashAppend(h: nat, s: string, c: char)
    ensures HashFrom(h, s + [c]) == HashStep(HashFrom(h, s), c)
    decreases |s|
  {
    if |s| == 0 {
      assert (s + [c])[1..] == "";
    } else {
      HashAppend(HashStep(h, s[0]), s[1..], c);
      assert (s + [c])[1..] == s[1..] + [c];
    }
  }

  // ---------------------------------------------------------------- the order

  // sort_by_hash_and_name: by hash, and among equal hashes by name, downwards.
  predicate Before(a: Assign, b: Assign) {
    a.hash < b.hash || (a.hash == b.hash && StrLess(b.name, a.name))
  }

  function Compare(a: Assign, b: Assign): int {
    if b.hash < a.hash then 1
    else if b.hash > a.hash then -1
    else if b.name == a.name then 0
    else if StrLess(b.name, a.name) then -1 else 1
  }

  predicate Hashed(a: Assign) {
    a.hash == NameHash(a.name)
  }

  lemma CompareIs(a: Assign, b: Assign)
    requires Hashed(a) && Hashed(b)
    ensures Compare(a, b) == 0 <==> a.name == b.name
    ensures Compare(a, b) < 0 <==> Before(a, b)
    ensures Compare(a, b) > 0 <==> Before(b, a)
  {
    StrTotal(a.name, b.name);
    StrTotal(b.name, b.name);
  }

  lemma BeforeTrans(a: Assign, b: Assign, c: Assign)
    requires Before(a, b) && Before(b, c)
    ensures Before(a, c)
  {
    if a.hash == c.hash { StrTrans(c.name, b.name, a.name); }
  }

  lemma BeforeOnce(a: Assign, b: Assign)
    requires Before(a, b) && Hashed(a) && Hashed(b)
    ensures !Before(b, a) && a.name != b.name
  {
    StrTotal(a.name, b.name);
  }

  predicate Sorted(v: seq<Assign>) {
    && (forall i :: 0 <= i < |v| ==> Hashed(v[i]))
    && forall i, j :: 0 <= i < j < |v| ==> Before(v[i], v[j])
  }

  // --------------------------------------------------- what assignments assign

  // Later assignments of a name replace earlier ones.
  function Assigned(list: seq<Assign>): map<string, Assign> {
    if |list| == 0 then map[] else Assigned(list[..|list| - 1])[list[|list| - 1].name := list[|list| - 1]]
  }

  lemma {:induction false} AssignedIn(list: seq<Assign>, name: string)
    ensures name in Assigned(list) <==> exists i :: 0 <= i < |list| && list[i].name == name
    ensures name in Assigned(list) ==> Assigned(list)[name] in list && Assigned(list)[name].name == name
    decreases |list|
  {
    if |list| > 0 {
      var n := |list| - 1;
      AssignedIn(list[..n], name);
      if exists i :: 0 <= i < n && list[i].name == name {
        var i :| 0 <= i < n && list[i].name == name;
        assert list[..n][i].name == name;
      }
    }
  }

  // In a sorted vector a name has one place.
  lemma SortedAt(v: seq<Assign>, i: nat)
    requires Sorted(v) && i < |v|
    ensures v[i].name in Assigned(v) && Assigned(v)[v[i].name] == v[i]
  {
    AssignedIn(v, v[i].name);
    var j :| 0 <= j < |v| && v[j] == Assigned(v)[v[i].name];
    if i < j { BeforeOnce(v[i], v[j]); }
    if j < i { BeforeOnce(v[j], v[i]); }
  }

  // ----------------------------------------------------------------- the vector

  // git__bsearch.
  method BinarySearch(v: seq<Assign>, key: Assign) returns (found: bool, pos: nat)
    requires Sorted(v) && Hashed(key)
    ensures pos <= |v|
    ensures found <==> key.name in Assigned(v)
    ensures found ==> pos < |v| && v[pos].name == key.name && v[pos] == Assigned(v)[key.name]
    ensures !found ==> forall i :: 0 <= i < pos ==> Before(v[i], key)
    ensures !found ==> forall i :: pos <= i < |v| ==> Before(key, v[i])
  {
    hide NameHash, Assigned, Compare, Before;
    var cmp := -1;
    var lim: nat := |v|;
    pos := 0;
    while lim != 0
      invariant pos + lim <= |v| && cmp != 0
      invariant forall i :: 0 <= i < pos ==> Before(v[i], key)
      invariant forall i :: pos + lim <= i < |v| ==> Before(key, v[i])
    {
      var part := pos + lim / 2;
      cmp := Compare(key, v[part]);
      CompareIs(key, v[part]);
      if cmp == 0 {
        pos := part;
        SortedAt(v, pos);
        break;
      }
      if cmp > 0 {
        forall i | 0 <= i < part ensures Before(v[i], key) { BeforeTrans(v[i], v[part], key); }
        pos := part + 1;
        lim := lim - 1;
      } else {
        forall i | part < i < |v| ensures Before(key, v[i]) { BeforeTrans(key, v[part], v[i]); }
      }
      lim := lim / 2;
    }
    found := cmp == 0;
    if !found { Absent(v, key, pos); }
  }

  lemma Absent(v: seq<Assign>, key: Assign, pos: nat)
    requires Sorted(v) && Hashed(key) && pos <= |v|
    requires forall i :: 0 <= i < pos ==> Before(v[i], key)
    requires forall i :: pos <= i < |v| ==> Before(key, v[i])
    ensures key.name !in Assigned(v)
  {
    AssignedIn(v, key.name);
    forall i | 0 <= i < |v| ensures v[i].name != key.name {
      if i < pos { BeforeOnce(v[i], key); } else { BeforeOnce(key, v[i]); }
    }
  }

  class Vector {
    var contents: seq<Assign>

    constructor ()
      ensures contents == []
    {
      contents := [];
    }

    // git_vector_insert_sorted with merge_assignments: an assignment of the
    // same name is replaced, any other makes room for the new one.
    method InsertSorted(a: Assign) returns (merged: bool)
      requires Sorted(contents) && Hashed(a)
      modifies this
      ensures Sorted(contents)
      ensures Assigned(contents) == Assigned(old(contents))[a.name := a]
      ensures merged <==> a.name in Assigned(old(contents))
    {
      var found, pos := BinarySearch(contents, a);
      if found {
        Replace(contents, pos, a);
        contents := contents[pos := a];
        return true;
      }
      Insert(contents, pos, a);
      contents := Inserted(contents, pos, a);
      merged := false;
    }
  }

  // A map is known by what it holds under each name.
  lemma SameMap(m: map<string, Assign>, n: map<string, Assign>)
    requires forall k :: k in m <==> k in n
    requires forall k :: k in m ==> m[k] == n[k]
    ensures m == n
  {
  }

  lemma Replace(v: seq<Assign>, pos: nat, a: Assign)
    requires Sorted(v) && Hashed(a) && pos < |v| && v[pos].name == a.name
    ensures Sorted(v[pos := a]) && Assigned(v[pos := a]) == Assigned(v)[a.name := a]
  {
    hide Before;
    var w := v[pos := a];
    forall i, j | 0 <= i < j < |w| ensures Before(w[i], w[j]) {
      assert Before(v[i], v[j]);
      SameKey(v[pos], a, v[if i == pos then j else i]);
    }
    assert w[pos] == a;
    forall x | x in v && x.name != a.name ensures x in w {
      var i :| 0 <= i < |v| && v[i] == x;
      assert w[i] == x;
    }
    hide Sorted;
    SortedSame(v, w, a);
  }

  lemma SameKey(a: Assign, b: Assign, c: Assign)
    requires Hashed(a) && Hashed(b) && a.name == b.name
    ensures Before(a, c) == Before(b, c) && Before(c, a) == Before(c, b)
  {
  }

  function Inserted(v: seq<Assign>, pos: nat, a: Assign): (w: seq<Assign>)
    requires pos <= |v|
    ensures |w| == |v| + 1
    ensures forall k :: 0 <= k < |w| ==> w[k] == if k < pos then v[k] else if k == pos then a else v[k - 1]
  {
    v[..pos] + [a] + v[pos..]
  }

  lemma Insert(v: seq<Assign>, pos: nat, a: Assign)
    requires Sorted(v) && Hashed(a) && pos <= |v|
    requires forall i :: 0 <= i < pos ==> Before(v[i], a)
    requires forall i :: pos <= i < |v| ==> Before(a, v[i])
    ensures Sorted(Inserted(v, pos, a))
    ensures Assigned(Inserted(v, pos, a)) == Assigned(v)[a.name := a]
  {
    hide Before, NameHash;
    var w := Inserted(v, pos, a);
    assert w[pos] == a;
    forall x | x in v ensures x in w {
      var i :| 0 <= i < |v| && v[i] == x;
      assert w[if i < pos then i else i + 1] == x;
    }
    forall x | x in w && x.name != a.name ensures x in v {
      var i :| 0 <= i < |w| && w[i] == x;
    }
    hide Sorted, Hashed;
    InsertSortedAt(v, pos, a);
    SortedSame(v, w, a);
  }

  lemma InsertSortedAt(v: seq<Assign>, pos: nat, a: Assign)
    requires Sorted(v) && Hashed(a) && pos <= |v|
    requires forall i :: 0 <= i < pos ==> Before(v[i], a)
    requires forall i :: pos <= i < |v| ==> Before(a, v[i])
    ensures Sorted(Inserted(v, pos, a))
  {
    hide Before, Hashed;
  }

  // Two sorted vectors with the same members but for those of a's name.
  lemma SortedSame(v: seq<Assign>, w: seq<Assign>, a: Assign)
    requires Sorted(v) && Sorted(w) && a in w
    requires forall x :: x in w && x.name != a.name ==> x in v
    requires forall x :: x in v && x.name != a.name ==> x in w
    ensures Assigned(w) == Assigned(v)[a.name := a]
  {
    var m, n := Assigned(w), Assigned(v)[a.name := a];
    forall k ensures k in m <==> k in n
             ensures k in m ==> m[k] == n[k]
    {
      Member(w, k);
      Member(v, k);
      assert a in w && Hashed(a);
    }
    SameMap(m, n);
  }

  // Membership in a sorted vector and in what it assigns are the same.
  lemma Member(v: seq<Assign>, k: string)
    requires Sorted(v)
    ensures k in Assigned(v) ==> Assigned(v)[k] in v && Assigned(v)[k].name == k
    ensures forall x :: x in v && x.name == k ==> k in Assigned(v) && Assigned(v)[k] == x
  {
    AssignedIn(v, k);
    forall x | x in v && x.name == k ensures k in Assigned(v) && Assigned(v)[k] == x {
      var i :| 0 <= i < |v| && v[i] == x;
      SortedAt(v, i);
    }
  }
}
