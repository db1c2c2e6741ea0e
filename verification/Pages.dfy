// The objects of a kitchen as they are linked in memory: the walk up to the
// root that gives a page its route, and the walk down that rewrites every
// property pointing at it.

module Pages {
  import opened Routes

  // A property or an item of an object.
  datatype Property = Value(subType: string, text: string) | Object(node: KBaseObject) | Other

  class KBaseObject {
    const ClassName: string
    var Name: string
    var Members: seq<Property>
    var Parent: KBaseObject?

    // The tree below, and the objects it is made of.
    ghost var Model: Tree
    ghost var Repr: set<KBaseObject>

    ghost predicate Valid()
      reads this, Repr
      decreases Repr, 0
    {
      && this in Repr
      && Model.cls == ClassName && Model.name == Name
      && Linked(Members, Model.slots, this, Repr - {this})
    }

    constructor (className: string, name: string)
      ensures Valid() && Repr == {this} && Model == Tree(className, name, []) && Parent == null
    {
      ClassName := className;
      Name := name;
      Members := [];
      Parent := null;
      Model := Tree(className, name, []);
      Repr := {this};
    }

    // The callback of updateRefs for one object.
    method UpdateOwn(oldRoute: string, newRoute: string)
      requires Valid()
      modifies this`Members, this`Model
      ensures Valid() && Model == Routes.UpdateOwn(old(Model), oldRoute, newRoute)
      ensures |Members| == |old(Members)|
      ensures forall i :: 0 <= i < |Members| && old(Members)[i].Object? ==> Members[i] == old(Members)[i]
    {
      hide Rewrite;
      ghost var slots := Model.slots;
      ghost var r := Repr - {this};
      var i := 0;
      while i < |Members|
        invariant i <= |Members| == |slots| == |old(Members)|
        invariant Linked(Members, Partly(slots, i, oldRoute, newRoute), this, r)
        invariant Repr == old(Repr) && Name == old(Name)
        invariant Model == old(Model)
        invariant forall k :: 0 <= k < |Members| && old(Members)[k].Object? ==> Members[k] == old(Members)[k]
      {
        var m := Members[i];
        if m.Value? && m.subType == "route_name" {
          var text := RewriteSteps(m.text, oldRoute, newRoute);
          Members := Members[i := m.(text := text)];
        }
        i := i + 1;
      }
      Model := Model.(slots := Partly(slots, i, oldRoute, newRoute));
    }

    // findObject with a callback that never stops it: every object below once,
    // first the callback, then what is below.
    method UpdateBelow(oldRoute: string, newRoute: string)
      requires Valid()
      modifies Repr
      ensures Valid() && Repr == old(Repr) && Model == Routes.UpdateBelow(old(Model), oldRoute, newRoute)
      ensures Name == old(Name) && Members == old(Members) && Parent == old(Parent)
      decreases Repr
    {
      hide Rewrite, Routes.UpdateOwn;
      ghost var slots := Model.slots;
      ghost var r := Repr - {this};
      var i := 0;
      while i < |Members|
        invariant i <= |Members| == |slots|
        invariant Name == old(Name) && Members == old(Members) && Parent == old(Parent) && Repr == old(Repr)
        invariant Model == old(Model)
        invariant Linked(Members, Done(slots, i, oldRoute, newRoute), this, r)
      {
        var m := Members[i];
        if m.Object? {
          forall k | 0 <= k < |Members| && k != i && Members[k].Object?
            ensures Members[k].node in Members[k].node.Repr && Members[k].node.Repr !! m.node.Repr
          {
            assert Shows(Members[k], Done(slots, i, oldRoute, newRoute)[k], this, r);
            assert Members[k].node.Valid();
            if k < i {
              assert Members[k].node.Repr !! Members[i].node.Repr;
            } else {
              assert Members[i].node.Repr !! Members[k].node.Repr;
            }
          }
          m.node.UpdateOwn(oldRoute, newRoute);
          m.node.UpdateBelow(oldRoute, newRoute);
          OwnThenBelow(slots[i].tree, oldRoute, newRoute);
          assert Child(m.node.Model) == UpdateChild(slots[i], oldRoute, newRoute);
          assert Shows(Members[i], Child(m.node.Model), this, r);
          forall k | 0 <= k < |Members| && k != i
            ensures Shows(Members[k], Done(slots, i, oldRoute, newRoute)[k], this, r)
          {
            assert Done(slots, i, oldRoute, newRoute)[k] == Done(slots, i, oldRoute, newRoute)[k];
          }
        }
        i := i + 1;
      }
      Model := Model.(slots := Done(slots, i, oldRoute, newRoute));
      assert Model == Routes.UpdateBelow(old(Model), oldRoute, newRoute);
    }

    // getRoot: up the parents.
    method GetRoot(ghost chain: seq<KBaseObject>) returns (root: KBaseObject)
      requires Chained(chain) && chain[|chain| - 1] == this
      ensures root == chain[0]
    {
      root := this;
      ghost var k := |chain| - 1;
      while root.Parent != null
        invariant 0 <= k < |chain| && root == chain[k]
        invariant root.Parent == (if k == 0 then null else chain[k - 1])
        decreases k
      {
        root := root.Parent;
        k := k - 1;
      }
    }

    // getRoute: the names of the pages on the way up, then the name asked for.
    method GetRoute(newName: string, ghost chain: seq<KBaseObject>) returns (route: string)
      requires Chained(chain) && chain[|chain| - 1] == this
      ensures route == Dotted(NamesOf(chain[..|chain| - 1])) + if newName != "" then newName else Name
    {
      route := if newName != "" then newName else Name;
      ghost var own := route;
      var parent := Parent;
      ghost var k := |chain| - 1;
      assert Dotted([]) + route == route;
      while parent != null
        invariant 0 <= k < |chain| && parent == (if k == 0 then null else chain[k - 1])
        invariant Dotted(NamesOf(chain[..k])) + route == Dotted(NamesOf(chain[..|chain| - 1])) + own
        decreases k
      {
        k := k - 1;
        NamesStep(chain, k, route);
        if parent.ClassName == "page" {
          route := parent.Name + "." + route;
        }
        parent := parent.Parent;
      }
      assert chain[..0] == [];
    }

    // updateRefs, of the page at `path` under its root, before it is renamed.
    // Without an old name the page's own counts; without a new one references
    // are cleared.
    method UpdateRefs(oldName: string, newName: string, ghost chain: seq<KBaseObject>, ghost path: Path)
      requires chain != [] && chain[|chain| - 1] == this && chain[0].Parent == null && chain[0].Valid()
      requires Along(chain, path) && ClassName == "page"
      modifies chain[0].Repr
      ensures chain[0].Valid() && PageAt(old(chain[0].Model), path)
      ensures var t := old(chain[0].Model);
        chain[0].Model ==
        Routes.UpdateBelow(t, RouteUnder(t, path, oldName), if newName != "" then RouteUnder(t, path, newName) else "")
      ensures OnlyReferences(old(chain[0].Model), chain[0].Model, RouteUnder(old(chain[0].Model), path, oldName),
                             if newName != "" then RouteUnder(old(chain[0].Model), path, newName) else "")
    {
      hide Along, NamesOf, Dotted, RouteUnder, Linked, Routes.UpdateBelow, OnlyReferences;
      ChainOf(chain, path, |path|);
      ghost var t := chain[0].Model;
      OwnRoute(chain, path, oldName);
      OwnRoute(chain, path, newName);
      var oldRoute := GetRoute(oldName, chain);
      var newRoute := "";
      if newName != "" {
        newRoute := GetRoute(newName, chain);
      }
      var root := GetRoot(chain);
      root.UpdateBelow(oldRoute, newRoute);
      ReferencesOnly(t, oldRoute, newRoute);
    }
  }

  // At every place of every object: nothing but references below the root changes.
  ghost predicate OnlyReferences(t: Tree, u: Tree, oldRoute: string, newRoute: string) {
    forall r: Path, i: nat :: HasPath(t, r) && i < |At(t, r).slots| && !At(t, r).slots[i].Child? ==>
      && HasPath(u, r) && i < |At(u, r).slots|
      && Touched(At(t, r).slots[i], At(u, r).slots[i], r != [], oldRoute, newRoute)
  }

  lemma ReferencesOnly(t: Tree, oldRoute: string, newRoute: string)
    ensures OnlyReferences(t, Routes.UpdateBelow(t, oldRoute, newRoute), oldRoute, newRoute)
  {
    hide Routes.UpdateBelow, Touched, HasPath, At;
    forall r: Path, i: nat | HasPath(t, r) && i < |At(t, r).slots| && !At(t, r).slots[i].Child?
      ensures var u := Routes.UpdateBelow(t, oldRoute, newRoute);
        && HasPath(u, r) && i < |At(u, r).slots|
        && Touched(At(t, r).slots[i], At(u, r).slots[i], r != [], oldRoute, newRoute)
    {
      UpdateTouches(t, r, i, oldRoute, newRoute);
    }
  }

  // The route a page has under a name, or under its own.
  ghost function RouteUnder(t: Tree, path: Path, name: string): string
    requires PageAt(t, path)
  {
    if name == "" then RouteAt(t, path)
    else
      NamesRenamed(t, path, path, name);
      RouteAt(Renamed(t, path, name), path)
  }

  // Each object is the parent of the next, and the first has none.
  ghost predicate Chained(chain: seq<KBaseObject>)
    reads chain
  {
    && |chain| > 0 && chain[0].Parent == null
    && forall k :: 0 < k < |chain| ==> chain[k].Parent == chain[k - 1]
  }

  // The names of the pages among them.
  ghost function NamesOf(chain: seq<KBaseObject>): seq<string>
    reads chain
  {
    if |chain| == 0 then []
    else
      var last := chain[|chain| - 1];
      NamesOf(chain[..|chain| - 1]) + if last.ClassName == "page" then [last.Name] else []
  }

  lemma NamesStep(chain: seq<KBaseObject>, k: nat, route: string)
    requires k < |chain|
    ensures Dotted(NamesOf(chain[..k + 1])) + route ==
            Dotted(NamesOf(chain[..k])) + (if chain[k].ClassName == "page" then chain[k].Name + "." + route else route)
  {
    assert chain[..k + 1][..k] == chain[..k];
    var up, name := NamesOf(chain[..k]), chain[k].Name;
    if chain[k].ClassName == "page" {
      DottedAppend(up, [name]);
      assert [name][1..] == [];
      assert Dotted([name]) == name + ".";
      assert Dotted(up) + (name + ".") + route == Dotted(up) + (name + "." + route);
    } else {
      assert up + [] == up;
    }
  }

  // The objects met on a path from the root.
  ghost predicate Along(chain: seq<KBaseObject>, path: Path)
    reads chain
  {
    && |chain| == |path| + 1
    && forall k :: 0 <= k < |path| ==> path[k] < |chain[k].Members| && chain[k].Members[path[k]] == Object(chain[k + 1])
  }

  // They are the objects of the tree at the path's beginnings.
  lemma {:induction false} ChainOf(chain: seq<KBaseObject>, path: Path, n: nat)
    requires Along(chain, path) && chain[0].Valid() && chain[0].Parent == null && n <= |path|
    ensures |chain| == |path| + 1 && chain[n].Valid()
    ensures HasPath(chain[0].Model, path[..n]) && At(chain[0].Model, path[..n]) == chain[n].Model
    ensures NamesOf(chain[..n + 1]) == PageNames(chain[0].Model, path[..n])
    ensures forall k :: 0 < k <= n ==> chain[k].Parent == chain[k - 1]
    decreases n
  {
    var t := chain[0].Model;
    assert chain[..n + 1][..n] == chain[..n];
    if n == 0 {
      assert chain[..0] == [] && path[..0] == [];
    } else {
      ChainOf(chain, path, n - 1);
      var up := chain[n - 1];
      assert up.Valid() && Linked(up.Members, up.Model.slots, up, up.Repr - {up});
      assert up.Members[path[n - 1]] == Object(chain[n]);
      assert Shows(up.Members[path[n - 1]], up.Model.slots[path[n - 1]], up, up.Repr - {up});
      assert path[..n] == path[..n - 1] + [path[n - 1]];
      OneFurther(t, path[..n - 1], path[n - 1]);
    }
  }

  lemma {:induction false} OneFurther(t: Tree, p: Path, i: nat)
    requires HasPath(t, p) && i < |At(t, p).slots| && At(t, p).slots[i].Child?
    ensures var c := At(t, p).slots[i].tree;
      && HasPath(t, p + [i]) && At(t, p + [i]) == c
      && PageNames(t, p + [i]) == PageNames(t, p) + if IsPage(c) then [c.name] else []
    decreases |p|
  {
    hide IsPage, HasPath, At, PageNames;
    var q := p + [i];
    FirstStep(t, p);
    if |p| == 0 {
      assert q[1..] == [];
      FirstStep(t.slots[i].tree, []);
    } else {
      assert q[0] == p[0] && q[1..] == p[1..] + [i];
      OneFurther(t.slots[p[0]].tree, p[1..], i);
    }
    FirstStep(t, q);
  }

  // A path, the node it leads to and the pages on it, by the first step.
  lemma FirstStep(t: Tree, p: Path)
    ensures HasPath(t, p) <==>
            |p| == 0 || (p[0] < |t.slots| && t.slots[p[0]].Child? && HasPath(t.slots[p[0]].tree, p[1..]))
    ensures HasPath(t, p) ==>
              && At(t, p) == (if |p| == 0 then t else At(t.slots[p[0]].tree, p[1..]))
              && PageNames(t, p) == (if IsPage(t) then [t.name] else [])
                                    + (if |p| == 0 then [] else PageNames(t.slots[p[0]].tree, p[1..]))
  {
  }

  // The route found on the way up is the route of the page in the tree, now
  // and under another name.
  lemma OwnRoute(chain: seq<KBaseObject>, path: Path, name: string)
    requires Along(chain, path) && chain[0].Valid() && chain[0].Parent == null && chain[|path|].ClassName == "page"
    ensures var t, page := chain[0].Model, chain[|path|];
      && PageAt(t, path)
      && Dotted(NamesOf(chain[..|path|])) + (if name != "" then name else page.Name) == RouteUnder(t, path, name)
      && RouteUnder(t, path, page.Name) == RouteAt(t, path)
  {
    var t, page := chain[0].Model, chain[|path|];
    ChainOf(chain, path, |path|);
    assert path[..|path|] == path && chain[..|path| + 1] == chain;
    assert chain[..|path| + 1][..|path|] == chain[..|path|];
    var up := NamesOf(chain[..|path|]);
    assert PageNames(t, path) == up + [page.Name];
    NamesRenamed(t, path, path, name);
    NamesRenamed(t, path, path, page.Name);
    assert PageNames(Renamed(t, path, name), path) == up + [name];
    assert PageNames(Renamed(t, path, page.Name), path) == up + [page.Name];
    RouteLast(up, page.Name);
    RouteLast(up, name);
  }

  lemma RouteLast(up: seq<string>, name: string)
    ensures Route(up + [name]) == Dotted(up) + name
  {
    RouteOf(up, [name]);
    assert [name][1..] == [];
    assert Dotted([name]) == name + ".";
  }

  // Values and objects as the tree below shows them: separate subtrees whose
  // parent is this object.
  ghost predicate Linked(members: seq<Property>, slots: seq<Slot>, parent: KBaseObject, r: set<KBaseObject>)
    reads r
    decreases r, 2
  {
    && |members| == |slots|
    && (forall i :: 0 <= i < |members| ==> Shows(members[i], slots[i], parent, r))
    && (forall i, j :: 0 <= i < j < |members| && members[i].Object? && members[j].Object? ==>
          members[i].node in r && members[j].node in r && members[i].node.Repr !! members[j].node.Repr)
  }

  ghost predicate Shows(m: Property, s: Slot, parent: KBaseObject, r: set<KBaseObject>)
    reads r
    decreases r, 1
  {
    match m
    case Value(subType, text) => s == Text(subType, text)
    case Other => s == Plain
    case Object(node) =>
      node in r && node.Repr <= r && node.Parent == parent && node.Valid() && s == Child(node.Model)
  }

  // The first i slots with the object's own texts rewritten.
  ghost function Partly(slots: seq<Slot>, i: nat, oldRoute: string, newRoute: string): (r: seq<Slot>)
    ensures |r| == |slots|
  {
    seq(|slots|, k requires 0 <= k < |slots| => if k < i then UpdateText(slots[k], oldRoute, newRoute) else slots[k])
  }

  // The first i slots with everything below rewritten.
  ghost function Done(slots: seq<Slot>, i: nat, oldRoute: string, newRoute: string): (r: seq<Slot>)
    ensures |r| == |slots|
  {
    seq(|slots|, k requires 0 <= k < |slots| => if k < i then UpdateChild(slots[k], oldRoute, newRoute) else slots[k])
  }

  lemma OwnThenBelow(t: Tree, oldRoute: string, newRoute: string)
    ensures Routes.UpdateBelow(Routes.UpdateOwn(t, oldRoute, newRoute), oldRoute, newRoute) ==
            Routes.UpdateOwn(Routes.UpdateBelow(t, oldRoute, newRoute), oldRoute, newRoute)
  {
    hide Rewrite;
  }

  // The two conditions of updateRefs on one value.
  method RewriteSteps(text: string, oldRoute: string, newRoute: string) returns (r: string)
    ensures r == Rewrite(text, oldRoute, newRoute)
  {
    r := text;
    if text != "" {
      if r == oldRoute {
        r := newRoute;
      }
      if StartsWith(r, oldRoute + ".") {
        r := newRoute + "." + r[|oldRoute| + 1..];
      }
    }
  }
}
