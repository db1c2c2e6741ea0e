// Page routes in the object tree, and what renaming a page does to the
// properties that hold routes.

module Routes {
  import opened Strings
  import opened Wrappers

  // An object: its class, its name, and its properties or items.
  datatype Tree = Tree(cls: string, name: string, slots: seq<Slot>)

  datatype Slot = Text(subType: string, text: string) | Child(tree: Tree) | Plain

  // Where an object stands: the slots that lead to it.
  type Path = seq<nat>

  predicate HasPath(t: Tree, p: Path)
    decreases |p|
  {
    |p| == 0 || (p[0] < |t.slots| && t.slots[p[0]].Child? && HasPath(t.slots[p[0]].tree, p[1..]))
  }

  function At(t: Tree, p: Path): Tree
    requires HasPath(t, p)
    decreases |p|
  {
    if |p| == 0 then t else At(t.slots[p[0]].tree, p[1..])
  }

  predicate IsPage(t: Tree) {
    t.cls == "page"
  }

  predicate PageAt(t: Tree, p: Path) {
    HasPath(t, p) && IsPage(At(t, p))
  }

  // The names of the pages on the way, in order.
  function PageNames(t: Tree, p: Path): seq<string>
    requires HasPath(t, p)
    decreases |p|
  {
    (if IsPage(t) then [t.name] else []) + if |p| == 0 then [] else PageNames(t.slots[p[0]].tree, p[1..])
  }

  // Every name followed by a dot.
  function Dotted(names: seq<string>): string {
    if |names| == 0 then "" else names[0] + "." + Dotted(names[1..])
  }

  // The names with dots between them.
  function Route(names: seq<string>): string
    requires |names| > 0
  {
    Dotted(names)[..|Dotted(names)| - 1]
  }

  function RouteAt(t: Tree, p: Path): string
    requires PageAt(t, p)
  {
    PageNamed(t, p);
    Route(PageNames(t, p))
  }

  lemma {:induction false} PageNamed(t: Tree, p: Path)
    requires PageAt(t, p)
    ensures |PageNames(t, p)| > 0 && PageNames(t, p)[|PageNames(t, p)| - 1] == At(t, p).name
    decreases |p|
  {
    if |p| > 0 { PageNamed(t.slots[p[0]].tree, p[1..]); }
  }

  // ----------------------------------------------------------------- rewriting

  predicate StartsWith(v: string, prefix: string) {
    |prefix| <= |v| && v[..|prefix|] == prefix
  }

  // What updateRefs makes of one value, for routes that mean themselves as a
  // regular expression and as a replacement.
  function Rewrite(v: string, oldRoute: string, newRoute: string): string {
    if v == "" then v
    else
      var w := if v == oldRoute then newRoute else v;
      if StartsWith(w, oldRoute + ".") then newRoute + "." + w[|oldRoute| + 1..] else w
  }

  // Every object below the root; the root's own properties stay.
  function UpdateBelow(t: Tree, oldRoute: string, newRoute: string): Tree
    decreases t, 0
  {
    t.(slots := seq(|t.slots|, i requires 0 <= i < |t.slots| => UpdateChild(t.slots[i], oldRoute, newRoute)))
  }

  function UpdateChild(s: Slot, oldRoute: string, newRoute: string): Slot
    decreases s, 1
  {
    match s
    case Child(c) => Child(UpdateOwn(UpdateBelow(c, oldRoute, newRoute), oldRoute, newRoute))
    case _ => s
  }

  // The callback: the object's own route properties.
  function UpdateOwn(t: Tree, oldRoute: string, newRoute: string): Tree {
    t.(slots := seq(|t.slots|, i requires 0 <= i < |t.slots| => UpdateText(t.slots[i], oldRoute, newRoute)))
  }

  function UpdateText(s: Slot, oldRoute: string, newRoute: string): Slot {
    if s.Text? && s.subType == "route_name" then s.(text := Rewrite(s.text, oldRoute, newRoute)) else s
  }

  function Renamed(t: Tree, p: Path, name: string): Tree
    requires HasPath(t, p)
    decreases |p|
  {
    if |p| == 0 then t.(name := name)
    else t.(slots := t.slots[p[0] := Child(Renamed(t.slots[p[0]].tree, p[1..], name))])
  }

  // ------------------------------------------------------------- routes as names

  predicate DotFree(name: string) {
    |name| > 0 && '.' !in name
  }

  predicate AllDotFree(names: seq<string>) {
    forall i :: 0 <= i < |names| ==> DotFree(names[i])
  }

  lemma {:induction false} DottedAppend(a: seq<string>, b: seq<string>)
    ensures Dotted(a + b) == Dotted(a) + Dotted(b)
    decreases |a|
  {
    if |a| == 0 {
      assert a + b == b;
    } else {
      DottedAppend(a[1..], b);
      assert (a + b)[1..] == a[1..] + b;
      Regroup(a[0] + ".", Dotted(a[1..]), Dotted(b));
    }
  }

  lemma Regroup(a: string, b: string, c: string)
    ensures a + (b + c) == a + b + c
  {
  }

  lemma DottedEnds(names: seq<string>)
    requires |names| > 0
    ensures |Dotted(names)| > 0 && Dotted(names) == Route(names) + "."
    ensures |names[0]| > 0 ==> Route(names) != ""
  {
    LastDot(names);
    assert Dotted(names)[..|Dotted(names)| - 1] + [Dotted(names)[|Dotted(names)| - 1]] == Dotted(names);
  }

  lemma {:induction false} LastDot(names: seq<string>)
    requires |names| > 0
    ensures |Dotted(names)| > |names[0]| && Dotted(names)[|Dotted(names)| - 1] == '.'
    decreases |names|
  {
    if |names| > 1 { LastDot(names[1..]); }
  }

  // Dots separate: a dotted string that begins another is made of the names it
  // begins with.
  lemma {:induction false} DottedPrefix(c: seq<string>, d: seq<string>)
    requires AllDotFree(c) && AllDotFree(d) && StartsWith(Dotted(d), Dotted(c))
    ensures c <= d
    decreases |c|
  {
    if |c| > 0 {
      var x, y := Dotted(c), Dotted(d);
      LastDot(c);
      assert |d| > 0;
      var n, m := |c[0]|, |d[0]|;
      assert forall i :: 0 <= i < |x| ==> x[i] == y[i] by { assert forall i :: 0 <= i < |x| ==> y[..|x|][i] == y[i]; }
      assert x[n] == '.' && y[m] == '.';
      forall i | 0 <= i < n ensures x[i] != '.' { assert x[i] == c[0][i]; }
      forall i | 0 <= i < m ensures y[i] != '.' { assert y[i] == d[0][i]; }
      assert n == m;
      assert c[0] == d[0] by {
        forall i | 0 <= i < n ensures c[0][i] == d[0][i] { assert x[i] == c[0][i] && y[i] == d[0][i]; }
      }
      assert x[n + 1..] == Dotted(c[1..]) && y[n + 1..] == Dotted(d[1..]);
      assert y[..|x|][n + 1..] == y[n + 1..][..|x| - n - 1];
      DottedPrefix(c[1..], d[1..]);
      assert d[..|c|] == c;
    }
  }

  lemma NotEmpty(names: seq<string>)
    requires |names| > 0 && AllDotFree(names)
    ensures Route(names) != ""
  {
    LastDot(names);
    assert DotFree(names[0]);
  }

  lemma StartsLonger(v: string, prefix: string, c: char)
    requires StartsWith(v, prefix)
    ensures StartsWith(v + [c], prefix)
  {
  }

  // A route of as many names does not begin with another and its dot.
  lemma NotBelow(c: seq<string>, c': seq<string>)
    requires |c| == |c'| > 0 && AllDotFree(c) && AllDotFree(c')
    ensures !StartsWith(Route(c'), Dotted(c))
  {
    hide Dotted, Route, AllDotFree;
    DottedEnds(c);
    DottedEnds(c');
    if StartsWith(Route(c'), Dotted(c)) {
      StartsLonger(Route(c'), Dotted(c), '.');
      DottedPrefix(c, c');
      PrefixEqual(c, c');
      assert false;
    }
  }

  lemma PrefixEqual<T>(a: seq<T>, b: seq<T>)
    requires a <= b && |a| == |b|
    ensures a == b
  {
  }

  // Rewriting a route: where it begins with the old route's names, they become
  // the new route's.
  lemma RewriteRoute(c: seq<string>, c': seq<string>, d: seq<string>)
    requires |c| == |c'| > 0 && |d| > 0 && AllDotFree(c) && AllDotFree(c') && AllDotFree(d)
    ensures Rewrite(Route(d), Route(c), Route(c')) == if c <= d then Route(c' + d[|c|..]) else Route(d)
  {
    hide Dotted, Route, AllDotFree;
    var v := Route(d);
    DottedEnds(c);
    DottedEnds(d);
    NotEmpty(d);
    NotBelow(c, c');
    if c <= d {
      if |c| == |d| {
        assert c == d && c' + d[|c|..] == c';
      } else {
        RouteBelow(c, d);
        RouteOf(c', d[|c|..]);
        DottedEnds(c');
      }
    } else {
      Unrelated(c, d);
    }
  }

  // The route of a longer list of names.
  lemma RouteOf(c: seq<string>, rest: seq<string>)
    requires |rest| > 0
    ensures Route(c + rest) == Dotted(c) + Route(rest)
  {
    DottedAppend(c, rest);
    LastDot(rest);
  }

  lemma RouteBelow(c: seq<string>, d: seq<string>)
    requires c <= d && 0 < |c| < |d|
    ensures var v := Route(d);
      StartsWith(v, Dotted(c)) && v[|Dotted(c)|..] == Route(d[|c|..]) && v != Route(c)
  {
    assert c + d[|c|..] == d;
    RouteOf(c, d[|c|..]);
    DottedEnds(c);
    hide Dotted, Route;
  }

  lemma Unrelated(c: seq<string>, d: seq<string>)
    requires |c| > 0 && |d| > 0 && AllDotFree(c) && AllDotFree(d) && !(c <= d)
    ensures Route(d) != Route(c) && !StartsWith(Route(d), Dotted(c))
  {
    hide Dotted, Route, AllDotFree;
    DottedEnds(c);
    DottedEnds(d);
    if Route(d) == Route(c) {
      DottedPrefix(c, d);
      assert false;
    }
    if StartsWith(Route(d), Dotted(c)) {
      StartsLonger(Route(d), Dotted(c), '.');
      DottedPrefix(c, d);
      assert false;
    }
  }

  // ------------------------------------------------------------- in the tree

  // The names of all pages are free of dots.
  predicate DotFreeTree(t: Tree) {
    && (IsPage(t) ==> DotFree(t.name))
    && forall i :: 0 <= i < |t.slots| && t.slots[i].Child? ==> DotFreeTree(t.slots[i].tree)
  }

  lemma {:induction false} NamesDotFree(t: Tree, p: Path)
    requires DotFreeTree(t) && HasPath(t, p)
    ensures AllDotFree(PageNames(t, p))
    decreases |p|
  {
    if |p| > 0 {
      NamesDotFree(t.slots[p[0]].tree, p[1..]);
    }
  }

  // No two pages have the same route.
  ghost predicate DistinctRoutes(t: Tree) {
    forall p, q :: PageAt(t, p) && PageAt(t, q) && RouteAt(t, p) == RouteAt(t, q) ==> p == q
  }

  // Each beginning of a page's names belongs to a page on the way to it.
  lemma {:induction false} PageOnTheWay(t: Tree, q: Path, n: nat) returns (k: nat)
    requires HasPath(t, q) && 0 < n <= |PageNames(t, q)|
    ensures k <= |q| && PageAt(t, q[..k]) && PageNames(t, q[..k]) == PageNames(t, q)[..n]
    decreases |q|
  {
    var here := if IsPage(t) then 1 else 0;
    if n <= here {
      k := 0;
      assert q[..0] == [];
      assert PageNames(t, q)[..1] == [t.name];
    } else {
      var c, rest := t.slots[q[0]].tree, q[1..];
      var j := PageOnTheWay(c, rest, n - here);
      k := j + 1;
      assert q[..k][1..] == rest[..j] && q[..k][0] == q[0];
      assert PageNames(t, q) == (if IsPage(t) then [t.name] else []) + PageNames(c, rest);
    }
  }

  // Names along a longer path.
  lemma {:induction false} NamesExtend(t: Tree, p: Path, q: Path)
    requires HasPath(t, q) && p <= q
    ensures HasPath(t, p) && PageNames(t, p) <= PageNames(t, q)
    decreases |p|
  {
    if |p| > 0 {
      assert p[1..] <= q[1..];
      NamesExtend(t.slots[p[0]].tree, p[1..], q[1..]);
    }
  }

  // A page's route begins with another's names exactly when it stands below it.
  lemma BelowByRoute(t: Tree, p: Path, q: Path)
    requires DistinctRoutes(t) && PageAt(t, p) && PageAt(t, q)
    ensures PageNames(t, p) <= PageNames(t, q) <==> p <= q
  {
    if p <= q { NamesExtend(t, p, q); }
    if PageNames(t, p) <= PageNames(t, q) {
      PageNamed(t, p);
      var k := PageOnTheWay(t, q, |PageNames(t, p)|);
      assert PageNames(t, q)[..|PageNames(t, p)|] == PageNames(t, p);
      assert RouteAt(t, q[..k]) == RouteAt(t, p);
    }
  }

  // The names d, with the last of the names c they begin with replaced.
  function Replaced(c: seq<string>, name: string, d: seq<string>): seq<string>
    requires |c| > 0 && c <= d
  {
    c[..|c| - 1] + [name] + d[|c|..]
  }

  lemma ReplacedBelow(here: seq<string>, c: seq<string>, name: string, d: seq<string>)
    requires |c| > 0
    ensures here + c <= here + d <==> c <= d
    ensures c <= d ==> Replaced(here + c, name, here + d) == here + Replaced(c, name, d)
  {
    if here + c <= here + d {
      assert (here + d)[..|here| + |c|] == here + c;
      assert d[..|c|] == (here + d)[..|here| + |c|][|here|..];
    }
    if c <= d { assert (here + d)[..|here + c|] == here + d[..|c|]; }
  }

  // What a renaming does to names along a path.
  lemma {:induction false} NamesRenamed(t: Tree, p: Path, q: Path, name: string)
    requires PageAt(t, p) && HasPath(t, q)
    ensures HasPath(Renamed(t, p, name), q) && (PageAt(Renamed(t, p, name), q) <==> PageAt(t, q))
    ensures var c := PageNames(t, p);
      |c| > 0 && PageNames(Renamed(t, p, name), q) ==
                 if p <= q && c <= PageNames(t, q) then Replaced(c, name, PageNames(t, q)) else PageNames(t, q)
    decreases |p|
  {
    PageNamed(t, p);
    var t' := Renamed(t, p, name);
    if |p| == 0 {
      if |q| > 0 { assert t'.slots == t.slots; }
    } else if |q| > 0 && q[0] == p[0] {
      NamesRenamed(t.slots[p[0]].tree, p[1..], q[1..], name);
      NamesOneUp(t, p, q, name);
    } else {
      assert !(p <= q);
      if |q| > 0 { assert t'.slots[q[0]] == t.slots[q[0]]; }
    }
  }

  // What it does in the child both paths lead to, it does from above.
  lemma NamesOneUp(t: Tree, p: Path, q: Path, name: string)
    requires PageAt(t, p) && HasPath(t, q) && |p| > 0 && |q| > 0 && q[0] == p[0]
    requires var c := t.slots[p[0]].tree;
      var d := Renamed(c, p[1..], name);
      && HasPath(d, q[1..]) && (PageAt(d, q[1..]) <==> PageAt(c, q[1..])) && |PageNames(c, p[1..])| > 0
      && PageNames(d, q[1..]) ==
         if p[1..] <= q[1..] && PageNames(c, p[1..]) <= PageNames(c, q[1..])
         then Replaced(PageNames(c, p[1..]), name, PageNames(c, q[1..])) else PageNames(c, q[1..])
    ensures HasPath(Renamed(t, p, name), q) && (PageAt(Renamed(t, p, name), q) <==> PageAt(t, q))
    ensures var c := PageNames(t, p);
      |c| > 0 && PageNames(Renamed(t, p, name), q) ==
                 if p <= q && c <= PageNames(t, q) then Replaced(c, name, PageNames(t, q)) else PageNames(t, q)
  {
    hide Replaced;
    var t' := Renamed(t, p, name);
    assert t'.slots[p[0]] == Child(Renamed(t.slots[p[0]].tree, p[1..], name));
    assert p <= q <==> p[1..] <= q[1..];
    ReplacedBelow(if IsPage(t) then [t.name] else [], PageNames(t.slots[p[0]].tree, p[1..]), name,
                  PageNames(t.slots[q[0]].tree, q[1..]));
  }

  // Rewriting a route that resolved to a page gives the page's route after the
  // renaming.
  lemma RefFollows(t: Tree, p: Path, q: Path, name: string)
    requires DotFreeTree(t) && DistinctRoutes(t) && DotFree(name) && PageAt(t, p) && PageAt(t, q)
    ensures PageAt(Renamed(t, p, name), p) && PageAt(Renamed(t, p, name), q)
    ensures Rewrite(RouteAt(t, q), RouteAt(t, p), RouteAt(Renamed(t, p, name), p)) == RouteAt(Renamed(t, p, name), q)
  {
    hide Rewrite, DotFreeTree, DistinctRoutes, Renamed, HasPath, PageNames, Route;
    var t' := Renamed(t, p, name);
    var c, d := PageNames(t, p), PageNames(t, q);
    PageNamed(t, p);
    PageNamed(t, q);
    NamesDotFree(t, p);
    NamesDotFree(t, q);
    NamesRenamed(t, p, p, name);
    NamesRenamed(t, p, q, name);
    BelowByRoute(t, p, q);
    var c' := PageNames(t', p);
    assert c' == c[..|c| - 1] + [name];
    assert c <= d ==> Replaced(c, name, d) == c' + d[|c|..];
    RewriteRoute(c, c', d);
  }

  // Updating changes texts below the root and nothing else.
  lemma {:induction false} UpdateShape(t: Tree, r: Path, oldRoute: string, newRoute: string)
    requires HasPath(t, r)
    ensures var u := UpdateBelow(t, oldRoute, newRoute);
      && HasPath(u, r)
      && At(u, r).cls == At(t, r).cls && At(u, r).name == At(t, r).name && |At(u, r).slots| == |At(t, r).slots|
      && PageNames(u, r) == PageNames(t, r)
      && (r != [] ==> forall i :: 0 <= i < |At(t, r).slots| && !At(t, r).slots[i].Child? ==>
            At(u, r).slots[i] == UpdateText(At(t, r).slots[i], oldRoute, newRoute))
    decreases |r|
  {
    hide Rewrite;
    if |r| > 0 {
      var c := t.slots[r[0]].tree;
      UpdateShape(c, r[1..], oldRoute, newRoute);
      OwnShape(UpdateBelow(c, oldRoute, newRoute), r[1..], oldRoute, newRoute);
    }
  }

  lemma {:induction false} OwnShape(t: Tree, r: Path, oldRoute: string, newRoute: string)
    requires HasPath(t, r)
    ensures var u := UpdateOwn(t, oldRoute, newRoute);
      && HasPath(u, r) && PageNames(u, r) == PageNames(t, r)
      && At(u, r) == if r == [] then u else At(t, r)
  {
    hide Rewrite;
    if |r| > 0 { assert UpdateOwn(t, oldRoute, newRoute).slots[r[0]] == t.slots[r[0]]; }
  }

  // Renaming keeps every text where it is.
  lemma {:induction false} RenameShape(t: Tree, p: Path, r: Path, name: string)
    requires HasPath(t, p) && HasPath(t, r)
    ensures var u := Renamed(t, p, name);
      && HasPath(u, r) && |At(u, r).slots| == |At(t, r).slots|
      && forall i :: 0 <= i < |At(t, r).slots| && !At(t, r).slots[i].Child? ==> At(u, r).slots[i] == At(t, r).slots[i]
    decreases |p|
  {
    if |p| > 0 && |r| > 0 {
      if r[0] == p[0] { RenameShape(t.slots[p[0]].tree, p[1..], r[1..], name); }
    } else if |r| > 0 {
      assert HasPath(t.slots[r[0]].tree, r[1..]);
    }
  }

  // updateRefs and the renaming together.
  function RenamePage(t: Tree, p: Path, name: string): Tree
    requires PageAt(t, p)
  {
    NamesRenamed(t, p, p, name);
    UpdateShape(t, p, RouteAt(t, p), RouteAt(Renamed(t, p, name), p));
    Renamed(UpdateBelow(t, RouteAt(t, p), RouteAt(Renamed(t, p, name), p)), p, name)
  }

  // A route property that holds the old route, or a route below it.
  predicate Points(s: Slot, oldRoute: string) {
    && s.Text? && s.subType == "route_name" && s.text != ""
    && (s.text == oldRoute || StartsWith(s.text, oldRoute + "."))
  }

  // At every place of every object the update changes exactly those properties:
  // the old route becomes the new one and a route below it keeps what follows.
  lemma UpdateTouches(t: Tree, r: Path, i: nat, oldRoute: string, newRoute: string)
    requires HasPath(t, r) && i < |At(t, r).slots| && !At(t, r).slots[i].Child?
    ensures var u := UpdateBelow(t, oldRoute, newRoute);
      && HasPath(u, r) && i < |At(u, r).slots|
      && Touched(At(t, r).slots[i], At(u, r).slots[i], r != [], oldRoute, newRoute)
  {
    UpdateShape(t, r, oldRoute, newRoute);
    if r == [] { assert UpdateBelow(t, oldRoute, newRoute).slots[i] == t.slots[i]; }
    hide UpdateBelow;
    TextTouched(At(t, r).slots[i], oldRoute, newRoute);
  }

  // What becomes of one property; those of the root stay.
  predicate Touched(before: Slot, after: Slot, below: bool, oldRoute: string, newRoute: string) {
    if !below || !Points(before, oldRoute) then after == before
    else
      && after.Text? && after.subType == before.subType
      && (StartsWith(before.text, oldRoute + ".") ==> after.text == newRoute + before.text[|oldRoute|..])
      && (before.text == oldRoute ==>
            after.text == newRoute + if StartsWith(newRoute, oldRoute + ".") then newRoute[|oldRoute|..] else "")
  }

  lemma TextTouched(s: Slot, oldRoute: string, newRoute: string)
    ensures Touched(s, UpdateText(s, oldRoute, newRoute), true, oldRoute, newRoute)
  {
    if s.Text? {
      if StartsWith(s.text, oldRoute + ".") { AfterDot(s.text, oldRoute, newRoute); }
      if StartsWith(newRoute, oldRoute + ".") { AfterDot(newRoute, oldRoute, newRoute); }
      assert newRoute + "" == newRoute;
    }
  }

  lemma AfterDot(v: string, oldRoute: string, newRoute: string)
    requires StartsWith(v, oldRoute + ".")
    ensures newRoute + "." + v[|oldRoute| + 1..] == newRoute + v[|oldRoute|..]
  {
    var n := |oldRoute|;
    assert v[n] == '.' by { assert v[..n + 1][n] == (oldRoute + ".")[n]; }
    assert v[n..] == "." + v[n + 1..];
  }

  // So does renaming a page.
  lemma RenameTouches(t: Tree, p: Path, name: string, r: Path, i: nat)
    requires PageAt(t, p) && HasPath(t, r) && i < |At(t, r).slots| && !At(t, r).slots[i].Child?
    ensures PageAt(Renamed(t, p, name), p)
    ensures var after := RenamePage(t, p, name);
      && HasPath(after, r) && i < |At(after, r).slots|
      && Touched(At(t, r).slots[i], At(after, r).slots[i], r != [],
                 RouteAt(t, p), RouteAt(Renamed(t, p, name), p))
  {
    hide Touched, RouteAt, UpdateBelow, Renamed;
    NamesRenamed(t, p, p, name);
    var oldRoute, newRoute := RouteAt(t, p), RouteAt(Renamed(t, p, name), p);
    UpdateTouches(t, r, i, oldRoute, newRoute);
    UpdateShape(t, p, oldRoute, newRoute);
    UpdateShape(t, r, oldRoute, newRoute);
    RenameShape(UpdateBelow(t, oldRoute, newRoute), p, r, name);
    assert At(RenamePage(t, p, name), r).slots[i] == At(UpdateBelow(t, oldRoute, newRoute), r).slots[i] by {
      NotChild(At(t, r).slots[i], At(UpdateBelow(t, oldRoute, newRoute), r).slots[i], r != [], oldRoute, newRoute);
    }
  }

  lemma NotChild(before: Slot, after: Slot, below: bool, oldRoute: string, newRoute: string)
    requires Touched(before, after, below, oldRoute, newRoute) && !before.Child?
    ensures !after.Child?
  {
  }

  // A plain text that happens to be the page's name is not a reference.
  lemma PlainTextStays()
    ensures var t := Tree("application", "app",
                          [Child(Tree("page", "home", [Text("string", "home"), Text("route_name", "home")]))]);
      && PageAt(t, [0]) && HasPath(RenamePage(t, [0], "start"), [0])
      && At(RenamePage(t, [0], "start"), [0]).slots == [Text("string", "home"), Text("route_name", "start")]
  {
    var c := Tree("page", "home", [Text("string", "home"), Text("route_name", "home")]);
    var t := Tree("application", "app", [Child(c)]);
    var d := Tree("application", "app", [Child(c.(name := "start"))]);
    assert [0][1..] == [] && t.slots[0] == Child(c) && d.slots[0] == Child(c.(name := "start"));
    assert HasPath(c, []) && At(c, []) == c && PageNames(c, []) == ["home"];
    assert HasPath(d.slots[0].tree, []) && PageNames(d.slots[0].tree, []) == ["start"];
    assert HasPath(t, [0]) && At(t, [0]) == c && PageNames(t, [0]) == ["home"];
    assert Renamed(t, [0], "start") == d;
    assert PageNames(d, [0]) == ["start"];
    RouteOfOne("home");
    RouteOfOne("start");
    assert RouteAt(t, [0]) == "home" && RouteAt(d, [0]) == "start";
    RenameTouches(t, [0], "start", [0], 0);
    RenameTouches(t, [0], "start", [0], 1);
    RenameSlots(t, [0], "start", [0]);
    assert !StartsWith("start", "home" + ".") by { assert "start"[..5][0] == 's' && ("home" + ".")[0] == 'h'; }
    var slots := At(RenamePage(t, [0], "start"), [0]).slots;
    assert slots == [slots[0], slots[1]];
  }

  lemma RouteOfOne(name: string)
    ensures Dotted([name]) == name + "." && Route([name]) == name
  {
    assert [name][1..] == [];
    assert Dotted([name]) == name + "." + "";
  }

  lemma RenameSlots(t: Tree, p: Path, name: string, r: Path)
    requires PageAt(t, p) && HasPath(t, r)
    ensures HasPath(RenamePage(t, p, name), r) && |At(RenamePage(t, p, name), r).slots| == |At(t, r).slots|
  {
    hide RouteAt, UpdateBelow, Renamed;
    NamesRenamed(t, p, p, name);
    var oldRoute, newRoute := RouteAt(t, p), RouteAt(Renamed(t, p, name), p);
    UpdateShape(t, p, oldRoute, newRoute);
    UpdateShape(t, r, oldRoute, newRoute);
    RenameShape(UpdateBelow(t, oldRoute, newRoute), p, r, name);
  }

  // A route property below the root that resolved to a page before resolves to
  // that page afterwards.
  lemma RenameKeepsReferences(t: Tree, p: Path, name: string, r: Path, i: nat, q: Path)
    requires DotFreeTree(t) && DistinctRoutes(t) && DotFree(name) && PageAt(t, p) && PageAt(t, q)
    requires r != [] && HasPath(t, r) && i < |At(t, r).slots|
    requires At(t, r).slots[i] == Text("route_name", RouteAt(t, q))
    ensures var after := RenamePage(t, p, name);
      && PageAt(after, q) && HasPath(after, r) && i < |At(after, r).slots|
      && At(after, r).slots[i] == Text("route_name", RouteAt(after, q))
  {
    hide Rewrite, DotFreeTree, DistinctRoutes, UpdateBelow, Renamed;
    RefFollows(t, p, q, name);
    var oldRoute, newRoute := RouteAt(t, p), RouteAt(Renamed(t, p, name), p);
    var u := UpdateBelow(t, oldRoute, newRoute);
    UpdateShape(t, r, oldRoute, newRoute);
    UpdateShape(t, p, oldRoute, newRoute);
    UpdateShape(t, q, oldRoute, newRoute);
    RenameShape(u, p, r, name);
    NamesRenamed(u, p, q, name);
    NamesRenamed(t, p, q, name);
  }

  // ------------------------------------------------------------ looking pages up

  // findPageByRoute: the first page below with that route, each object before
  // those below it.
  function FindPage(t: Tree, route: string): Option<Path> {
    FindFrom(t, 0, if IsPage(t) then [t.name] else [], route)
  }

  function FindFrom(t: Tree, i: nat, up: seq<string>, route: string): Option<Path>
    decreases t, |t.slots| - i
  {
    if i >= |t.slots| then None
    else if !t.slots[i].Child? then FindFrom(t, i + 1, up, route)
    else
      var c := t.slots[i].tree;
      var names := up + if IsPage(c) then [c.name] else [];
      if IsPage(c) && Route(names) == route then Some([i])
      else
        var below := FindFrom(c, 0, names, route);
        if below.Some? then Some([i] + below.value) else FindFrom(t, i + 1, up, route)
  }

  // The names of the pages on the way below the object itself.
  function NamesBelow(t: Tree, p: Path): seq<string>
    requires HasPath(t, p) && |p| > 0
  {
    PageNames(t.slots[p[0]].tree, p[1..])
  }

  lemma NamesOneDown(t: Tree, p: Path, up: seq<string>)
    requires HasPath(t, p) && |p| > 0
    ensures var c := t.slots[p[0]].tree;
      var names := up + if IsPage(c) then [c.name] else [];
      up + NamesBelow(t, p) == if |p| == 1 then names else names + NamesBelow(c, p[1..])
  {
    var c := t.slots[p[0]].tree;
    if |p| == 1 { assert PageNames(c, []) == if IsPage(c) then [c.name] else []; }
  }

  // What is found is a page with that route.
  lemma {:induction false} FoundIs(t: Tree, i: nat, up: seq<string>, route: string)
    ensures var r := FindFrom(t, i, up, route);
      r.Some? ==>
        var p := r.value;
        |p| > 0 && PageAt(t, p) && |up + NamesBelow(t, p)| > 0 && Route(up + NamesBelow(t, p)) == route
    decreases t, |t.slots| - i
  {
    hide Route;
    if i < |t.slots| {
      FoundIs(t, i + 1, up, route);
      if t.slots[i].Child? {
        var c := t.slots[i].tree;
        var names := up + if IsPage(c) then [c.name] else [];
        FoundIs(c, 0, names, route);
        if IsPage(c) && Route(names) == route {
          assert [i][1..] == [] && HasPath(c, []) && At(c, []) == c;
          assert HasPath(t, [i]) && At(t, [i]) == c;
          NamesOneDown(t, [i], up);
        } else if FindFrom(c, 0, names, route).Some? {
          var below := FindFrom(c, 0, names, route).value;
          assert ([i] + below)[1..] == below;
          NamesOneDown(t, [i] + below, up);
        }
      }
    }
  }

  // A page with that route is not missed.
  lemma {:induction false} NotMissed(t: Tree, i: nat, up: seq<string>, route: string, q: Path)
    requires |q| > 0 && PageAt(t, q) && q[0] >= i
    requires |up + NamesBelow(t, q)| > 0 && Route(up + NamesBelow(t, q)) == route
    ensures FindFrom(t, i, up, route).Some?
    decreases t, |t.slots| - i
  {
    hide Route;
    if q[0] > i {
      NotMissed(t, i + 1, up, route, q);
    } else {
      var c := t.slots[i].tree;
      NamesOneDown(t, q, up);
      if |q| > 1 { NotMissed(c, 0, up + if IsPage(c) then [c.name] else [], route, q[1..]); }
    }
  }

  // With distinct routes a page is found under its route and no other.
  lemma FindsPage(t: Tree, v: string, q: Path)
    requires DistinctRoutes(t) && |q| > 0 && PageAt(t, q)
    ensures FindPage(t, v) == Some(q) <==> v == RouteAt(t, q)
  {
    var up := if IsPage(t) then [t.name] else [];
    FoundIs(t, 0, up, v);
    PageNamed(t, q);
    if v == RouteAt(t, q) { NotMissed(t, 0, up, v, q); }
    if FindPage(t, v).Some? { assert RouteAt(t, FindPage(t, v).value) == v; }
  }

  // So a route property that looks a page up before `updateRefs` and the
  // renaming looks the same page up afterwards.
  lemma RenameKeepsLookups(t: Tree, p: Path, name: string, r: Path, i: nat)
    requires DotFreeTree(t) && DotFree(name) && PageAt(t, p)
    requires DistinctRoutes(t) && DistinctRoutes(RenamePage(t, p, name))
    requires r != [] && HasPath(t, r) && i < |At(t, r).slots| && At(t, r).slots[i].Text?
    requires At(t, r).slots[i].subType == "route_name" && FindPage(t, At(t, r).slots[i].text).Some?
    ensures var after := RenamePage(t, p, name);
      && HasPath(after, r) && i < |At(after, r).slots| && At(after, r).slots[i].Text?
      && FindPage(after, At(after, r).slots[i].text) == FindPage(t, At(t, r).slots[i].text)
  {
    hide Rewrite, DotFreeTree, DistinctRoutes, UpdateBelow, Renamed, RenamePage, FindFrom;
    var v := At(t, r).slots[i].text;
    FoundPage(t, v);
    var q := FindPage(t, v).value;
    FindsPage(t, v, q);
    RenameKeepsReferences(t, p, name, r, i, q);
    var after := RenamePage(t, p, name);
    FindsPage(after, At(after, r).slots[i].text, q);
  }

  lemma FoundPage(t: Tree, v: string)
    ensures FindPage(t, v).Some? ==> |FindPage(t, v).value| > 0 && PageAt(t, FindPage(t, v).value)
  {
    FoundIs(t, 0, if IsPage(t) then [t.name] else [], v);
  }
}
