// The kitchen's objects and arrays as they are linked in memory: cleared,
// loaded and saved in place.

module KitchenObjects {
  import opened Wrappers
  import opened Kitchen

  // A property's value as its object holds it.
  datatype Slot = PrimSlot(json: Json, shared: bool) | ObjSlot(node: KBaseObject) | ArrSlot(list: KBaseArray)

  datatype Entry = PlainEntry(json: Json) | HeldEntry(node: KBaseObject)

  class KBaseObject {
    const ClassName: string
    var Slots: seq<Slot>

    ghost var Model: Object
    ghost var Repr: set<object>

    constructor (className: string)
      ensures ClassName == className && Slots == [] && Repr == {this}
    {
      ClassName := className;
      Slots := [];
      Model := Object(className, []);
      Repr := {this};
    }

    // The object has the properties of its class, and the model shows them.
    ghost predicate Valid(S: Schema)
      reads this, Repr
      decreases Repr, 0
    {
      && this in Repr
      && ClassName in S && Model.cls == ClassName
      && Linked(S, Slots, S[ClassName].props, Model.values, Repr - {this})
    }

    // ClassKitchen.create, of a class.
    static method Create(S: Schema, className: string) returns (o: KBaseObject)
      requires Sound(S) && className in S
      ensures o.Valid(S) && fresh(o.Repr) && o.ClassName == className
      ensures o.Model == Fresh(S, className)
      decreases S[className].rank
    {
      hide Shows, FreshValue;
      o := new KBaseObject(className);
      var props := S[className].props;
      ghost var r: set<object>, values := {}, [];
      var i := 0;
      while i < |props|
        invariant i <= |props| && fresh(r) && o !in r && fresh(o)
        invariant Linked(S, o.Slots, props[..i], values, r)
        invariant Started(S, props[..i], values)
      {
        var p := props[i];
        var slot := AddProperty(S, p, className, i);
        r := r + SlotRepr(slot);
        ghost var v := FreshValue(S, p);
        assert props[..i + 1] == props[..i] + [p];
        LinkOneMore(S, o.Slots, props[..i], values, r, slot, p, v);
        o.Slots := o.Slots + [slot];
        values := values + [v];
        i := i + 1;
      }
      assert props[..|props|] == props;
      StartedIs(S, className, values);
      o.Model := Object(className, values);
      o.Repr := {o} + r;
      assert o.Repr - {o} == r;
    }

    // clear: objects and arrays are cleared where they are, everything else
    // goes back to its default.
    method Clear(S: Schema)
      requires Sound(S) && Valid(S)
      modifies Repr
      ensures Valid(S) && Repr == old(Repr) && Model == Kitchen.Load(S, ClassName, Dict([]))
      decreases Repr, 0
    {
      hide FromMember, Shows, Separate, Kitchen.Load;
      ghost var props, r, values := S[ClassName].props, Repr - {this}, Model.values;
      var i := 0;
      while i < |Slots|
        invariant i <= |Slots| == |props| == |values| && Repr == old(Repr)
        invariant Linked(S, Slots, props, values, r)
        invariant forall k :: 0 <= k < i ==> values[k] == FromMember(S, props[k], None)
      {
        ghost var v := FromMember(S, props[i], None);
        SlotIs(S, Slots, props, values, r, i);
        ClearSlot(S, i, values, r);
        values := values[i := v];
        i := i + 1;
      }
      assert forall k :: 0 <= k < |props| ==> Member(Dict([]), props[k].name) == None;
      LoadedIs(S, ClassName, Dict([]), values);
      Model := Object(ClassName, values);
    }

    method ClearSlot(S: Schema, i: nat, ghost values: seq<Value>, ghost r: set<object>)
      requires Sound(S) && ClassName in S && i < |Slots| && this !in r
      requires Linked(S, Slots, S[ClassName].props, values, r) && SlotRepr(Slots[i]) <= r
      modifies this`Slots, SlotRepr(Slots[i])
      ensures Linked(S, Slots, S[ClassName].props, values[i := FromMember(S, S[ClassName].props[i], None)], r)
      decreases SlotRepr(Slots[i]), 1
    {
      hide Linked, LinkedBut;
      ghost var props, slots := S[ClassName].props, Slots;
      ghost var rest := r - SlotRepr(Slots[i]);
      SlotIs(S, slots, props, values, r, i);
      Unlink(S, slots, props, values, r, i);
      match Slots[i] {
        case ObjSlot(node) => node.Clear(S);
        case ArrSlot(list) => list.Clear(S);
        case PrimSlot(_, _) => Slots := Slots[i := PrimSlot(Default(S[ClassName].props[i]), true)];
      }
      assert Slots == slots[i := Slots[i]] && rest + SlotRepr(Slots[i]) == r;
      Relink(S, slots, props, values, rest, i, Slots[i], FromMember(S, props[i], None));
    }

    // load: clear, then each property from its member.
    method Load(S: Schema, j: Json)
      requires Sound(S) && Valid(S)
      modifies Repr
      ensures Valid(S) && fresh(Repr - old(Repr))
      ensures Model == Kitchen.Load(S, ClassName, j)
      decreases 2 * Size(j), S[ClassName].rank + 1, 1
    {
      hide FromMember, Shows, Separate, Kitchen.Load, Size, Member;
      Clear(S);
      ghost var props, r, values := S[ClassName].props, Repr - {this}, Model.values;
      var i := 0;
      while i < |Slots|
        invariant i <= |Slots| == |props| == |values| && Repr == old(Repr)
        invariant Linked(S, Slots, props, values, r) && this !in r && fresh(r - old(Repr))
        invariant forall k :: 0 <= k < i ==> values[k] == FromMember(S, props[k], Member(j, props[k].name))
      {
        ghost var v := FromMember(S, props[i], Member(j, props[i].name));
        SlotIs(S, Slots, props, values, r, i);
        r := LoadSlot(S, i, j, values, r);
        values := values[i := v];
        i := i + 1;
      }
      LoadedIs(S, ClassName, j, values);
      Model := Object(ClassName, values);
      Repr := {this} + r;
      assert Repr - {this} == r;
    }

    method LoadSlot(S: Schema, i: nat, j: Json, ghost values: seq<Value>, ghost r: set<object>)
      returns (ghost after: set<object>)
      requires Sound(S) && ClassName in S && i < |Slots| && this !in r
      requires Linked(S, Slots, S[ClassName].props, values, r) && SlotRepr(Slots[i]) <= r
      modifies this`Slots, SlotRepr(Slots[i])
      ensures this !in after && fresh(after - r)
      ensures var p := S[ClassName].props[i];
        Linked(S, Slots, S[ClassName].props, values[i := FromMember(S, p, Member(j, p.name))], after)
      decreases 2 * Size(j), S[ClassName].rank + 1, 0
    {
      hide Linked, LinkedBut, Size, Member;
      ghost var props, slots := S[ClassName].props, Slots;
      ghost var rest := r - SlotRepr(Slots[i]);
      SlotIs(S, slots, props, values, r, i);
      Unlink(S, slots, props, values, r, i);
      var p := S[ClassName].props[i];
      var m := Member(j, p.name);
      MemberSmaller(j, p.name);
      SmallSizes();
      match Slots[i] {
        case ObjSlot(node) => node.Load(S, if m.Some? then m.value else Dict([]));
        case ArrSlot(list) => list.Load(S, if m.Some? then m.value else Null);
        case PrimSlot(_, _) =>
          Slots := Slots[i := if m.Some? then PrimSlot(m.value, false) else PrimSlot(Default(p), true)];
      }
      assert Slots == slots[i := Slots[i]];
      Relink(S, slots, props, values, rest, i, Slots[i], FromMember(S, p, m));
      after := rest + SlotRepr(Slots[i]);
    }

    // save: the properties in order, less those left out.
    method Save(S: Schema, simplify: bool, full: bool) returns (j: Json)
      requires Sound(S) && Valid(S)
      ensures j == Kitchen.Save(S, Model, simplify, full)
      decreases Repr, 1
    {
      hide Shows, Separate, Dropped, SaveValue, SaveProps;
      ghost var props, values, r := S[ClassName].props, Model.values, Repr - {this};
      var fields := [];
      var i := 0;
      assert props[0..] == props && values[0..] == values;
      while i < |Slots|
        invariant i <= |Slots| == |props| == |values|
        invariant fields + SaveProps(S, props[i..], values[i..], simplify, full) ==
            SaveProps(S, props, values, simplify, full)
      {
        SlotIs(S, Slots, props, values, r, i);
        SaveStep(S, props, values, i, fields, simplify, full);
        var value, dropped := SaveSlot(S, i, values[i], simplify, full);
        fields := fields + [Field(S[ClassName].props[i].name, value)];
        if dropped {
          fields := fields[..|fields| - 1];
        }
        i := i + 1;
      }
      assert props[i..] == [] && values[i..] == [];
      SavedNone(S, simplify, full);
      assert fields + [] == fields;
      j := Dict(fields);
    }

    method SaveSlot(S: Schema, i: nat, ghost v: Value, simplify: bool, full: bool) returns (value: Json, dropped: bool)
      requires Sound(S) && ClassName in S && i < |Slots| == |S[ClassName].props|
      requires Shows(S, Slots[i], S[ClassName].props[i], v, SlotRepr(Slots[i]))
      ensures value == SaveValue(S, v, simplify, full)
      ensures dropped == Dropped(S, S[ClassName].props[i], v, simplify, full)
      decreases SlotRepr(Slots[i]), 2
    {
      hide Kitchen.Save, SaveItems;
      var p := S[ClassName].props[i];
      dropped := false;
      match Slots[i] {
        case PrimSlot(json, shared) =>
          value := json;
          if simplify {
            dropped := (p.type_ == "object" && !NonEmpty(json) && !NonEmpty(Default(p)) && full)
                       || (p.name != "type" && LooselyEqual(json, shared, Default(p)));
          }
        case ObjSlot(node) =>
          value := node.Save(S, simplify, full);
          if simplify && full {
            dropped := node.EqualsDefault(S);
          }
        case ArrSlot(list) =>
          value := list.Save(S, simplify, full);
          if simplify && full {
            dropped := |list.Entries| == 0;
          }
      }
    }

    // isEqual, to what the class creates.
    method EqualsDefault(S: Schema) returns (equal: bool)
      requires Sound(S) && Valid(S)
      ensures equal == AllDefault(S, S[ClassName].props, Model.values)
      decreases Repr, 0
    {
      hide Shows, Separate;
      ghost var props, values, r := S[ClassName].props, Model.values, Repr - {this};
      var i := 0;
      assert props[0..] == props && values[0..] == values;
      while i < |Slots|
        invariant i <= |Slots| == |props| == |values|
        invariant AllDefault(S, props[i..], values[i..]) == AllDefault(S, props, values)
      {
        SlotIs(S, Slots, props, values, r, i);
        assert props[i..][1..] == props[i + 1..] && values[i..][1..] == values[i + 1..];
        var one := SlotIsDefault(S, i, values[i]);
        if !one { return false; }
        i := i + 1;
      }
      equal := true;
    }

    method SlotIsDefault(S: Schema, i: nat, ghost v: Value) returns (equal: bool)
      requires Sound(S) && ClassName in S && i < |Slots| == |S[ClassName].props|
      requires Shows(S, Slots[i], S[ClassName].props[i], v, SlotRepr(Slots[i]))
      ensures equal == IsDefault(S, S[ClassName].props[i], v)
      decreases SlotRepr(Slots[i]), 1
    {
      match Slots[i] {
        case PrimSlot(json, _) => equal := json == Initial(S[ClassName].props[i]);
        case ObjSlot(node) =>
          assert Linked(S, node.Slots, S[node.ClassName].props, node.Model.values, node.Repr - {node});
          equal := node.EqualsDefault(S);
        case ArrSlot(list) =>
          assert Listed(S, list.Entries, list.Model.items, list.Repr - {list});
          equal := |list.Entries| == 0;
      }
    }

    // cloneFrom: a copy exactly when every item of the other is kept.
    method CloneFrom(S: Schema, obj: KBaseObject)
      requires GoodSchema(S) && Valid(S) && obj.Valid(S) && obj.ClassName == ClassName && WellTyped(S, obj.Model)
      modifies Repr
      ensures Valid(S) && fresh(Repr - old(Repr))
      ensures Strip(Model) == Strip(old(obj.Model)) <==> Kept(S, old(obj.Model))
    {
      SaveLoad(S, obj.Model, false, false);
      var j := obj.Save(S, false, false);
      Load(S, j);
    }

    // addProperty: the value a property starts with.
    static method AddProperty(S: Schema, p: Prop, ghost owner: string, ghost i: nat) returns (slot: Slot)
      requires Sound(S) && owner in S && i < |S[owner].props| && S[owner].props[i] == p
      ensures fresh(SlotRepr(slot)) && Shows(S, slot, p, FreshValue(S, p), SlotRepr(slot))
      decreases S[owner].rank, 0
    {
      if p.type_ in S {
        var node := Create(S, p.type_);
        slot := ObjSlot(node);
      } else if p.type_ == ARRAY {
        var list := new KBaseArray(p.subType);
        slot := ArrSlot(list);
      } else {
        slot := if Truthy(p.default_) then PrimSlot(p.default_, true) else PrimSlot(Created(p.type_), false);
      }
    }
  }

  class KBaseArray {
    const DefaultItemType: string
    var Entries: seq<Entry>

    ghost var Model: Items
    ghost var Repr: set<object>

    constructor (itemType: string)
      ensures DefaultItemType == itemType && Entries == [] && Repr == {this} && Model == Items(itemType, [])
    {
      DefaultItemType := itemType;
      Entries := [];
      Model := Items(itemType, []);
      Repr := {this};
    }

    ghost predicate Valid(S: Schema)
      reads this, Repr
      decreases Repr, 0
    {
      && this in Repr
      && Model.itemType == DefaultItemType
      && Listed(S, Entries, Model.items, Repr - {this})
    }

    method Clear(S: Schema)
      requires Valid(S)
      modifies this
      ensures Valid(S) && Repr == old(Repr) && Model == Items(DefaultItemType, []) && Entries == []
    {
      Entries := [];
      Model := Items(DefaultItemType, []);
    }

    // load: each item as an object of the class it picks, or as it is.
    method Load(S: Schema, a: Json)
      requires Sound(S) && Valid(S)
      modifies Repr
      ensures Valid(S) && fresh(Repr - old(Repr))
      ensures Model == Items(DefaultItemType, if a.List? then LoadItems(S, DefaultItemType, a.items) else [])
      decreases 2 * Size(a), 0
    {
      hide Picked, Kitchen.Load, LoadItem, LoadItems, Size, Stands, Listed, Sound;
      Clear(S);
      if !a.List? { return; }
      ghost var r: set<object>, items := {}, [];
      ListNone(S);
      var i := 0;
      assert a.items[0..] == a.items;
      while i < |a.items|
        invariant i <= |a.items| && Repr == old(Repr)
        invariant Listed(S, Entries, items, r) && fresh(r)
        invariant items + LoadItems(S, DefaultItemType, a.items[i..]) == LoadItems(S, DefaultItemType, a.items)
      {
        var item := a.items[i];
        SizeOfItem(a.items, i);
        PicksClass(S, DefaultItemType, item);
        LoadsAs(S, DefaultItemType, item);
        LoadStep(S, DefaultItemType, a.items, i, items);
        var cls := Picked(S, DefaultItemType, Member(item, "object_type"), Member(item, "type"));
        ghost var it := LoadItem(S, DefaultItemType, item);
        if cls.Some? {
          var obj := KBaseObject.Create(S, cls.value);
          obj.Load(S, item);
          StandsAlone(S, HeldEntry(obj), it);
          ListOneMore(S, Entries, items, r, HeldEntry(obj), it, obj.Repr);
          Entries := Entries + [HeldEntry(obj)];
          r := r + obj.Repr;
        } else {
          StandsAlone(S, PlainEntry(item), it);
          ListOneMore(S, Entries, items, r, PlainEntry(item), it, {});
          Entries := Entries + [PlainEntry(item)];
          assert r + {} == r;
        }
        items := items + [it];
        i := i + 1;
      }
      Model := Items(DefaultItemType, items);
      Repr := Repr + r;
      ListWider(S, Entries, items, r, Repr - {this});
    }

    // save: an object of another class says which.
    method Save(S: Schema, simplify: bool, full: bool) returns (a: Json)
      requires Sound(S) && Valid(S)
      ensures a == List(SaveItems(S, Model.itemType, Model.items, simplify, full))
      decreases Repr, 1
    {
      hide Stands, SaveItem;
      ghost var items, r := Model.items, Repr - {this};
      var out: seq<Json> := [];
      var i := 0;
      assert items[0..] == items;
      while i < |Entries|
        invariant i <= |Entries| == |items|
        invariant out + SaveItems(S, DefaultItemType, items[i..], simplify, full) ==
            SaveItems(S, DefaultItemType, items, simplify, full)
      {
        SaveItemStep(S, DefaultItemType, items, i, out, simplify, full);
        EntryIs(S, Entries, items, r, i);
        var one := SaveEntry(S, i, items[i], simplify, full);
        out := out + [one];
        i := i + 1;
      }
      a := List(out);
    }

    method SaveEntry(S: Schema, i: nat, ghost it: Item, simplify: bool, full: bool) returns (one: Json)
      requires Sound(S) && i < |Entries| && Stands(S, Entries[i], it, EntryRepr(Entries[i]))
      ensures one == SaveItem(S, DefaultItemType, it, simplify, full)
      decreases EntryRepr(Entries[i]), 2
    {
      match Entries[i] {
        case PlainEntry(j) => one := j;
        case HeldEntry(node) =>
          one := node.Save(S, simplify, full);
          if node.ClassName != DefaultItemType {
            one := Dict(one.fields + [Field("object_type", Str(node.ClassName))]);
          }
      }
    }
  }

  ghost function SlotRepr(s: Slot): set<object>
    reads if s.ObjSlot? then {s.node} else if s.ArrSlot? then {s.list} else {}
  {
    match s
    case PrimSlot(_, _) => {}
    case ObjSlot(node) => node.Repr
    case ArrSlot(list) => list.Repr
  }

  // Slots as the declared properties and the model have them, in separate
  // parts of memory.
  ghost predicate Linked(S: Schema, slots: seq<Slot>, props: seq<Prop>, values: seq<Value>, r: set<object>)
    reads r
    decreases r, 2
  {
    && |slots| == |props| == |values|
    && (forall i :: 0 <= i < |slots| ==> Shows(S, slots[i], props[i], values[i], r))
    && forall i, j :: 0 <= i < j < |slots| ==> Separate(slots[i], slots[j], r)
  }

  ghost predicate Separate(s: Slot, t: Slot, r: set<object>)
    reads r
  {
    Inside(s, r) && Inside(t, r) && SlotRepr(s) !! SlotRepr(t)
  }

  ghost predicate Inside(s: Slot, r: set<object>) {
    (s.ObjSlot? ==> s.node in r) && (s.ArrSlot? ==> s.list in r)
  }

  ghost predicate Shows(S: Schema, s: Slot, p: Prop, v: Value, r: set<object>)
    reads r
    decreases r, 1
  {
    match s
    case PrimSlot(j, shared) => p.type_ !in S && p.type_ != ARRAY && v == Prim(j, shared)
    case ObjSlot(node) =>
      && node in r && node.Repr <= r
      && p.type_ in S && node.ClassName == p.type_ && node.Valid(S) && v == Obj(node.Model)
    case ArrSlot(list) =>
      && list in r && list.Repr <= r
      && p.type_ !in S && p.type_ == ARRAY && list.DefaultItemType == p.subType && list.Valid(S) && v == Arr(list.Model)
  }

  ghost predicate Listed(S: Schema, entries: seq<Entry>, items: seq<Item>, r: set<object>)
    reads r
    decreases r, 2
  {
    && |entries| == |items|
    && (forall i :: 0 <= i < |entries| ==> Stands(S, entries[i], items[i], r))
    && forall i, j :: 0 <= i < j < |entries| && entries[i].HeldEntry? && entries[j].HeldEntry? ==>
         entries[i].node in r && entries[j].node in r && entries[i].node.Repr !! entries[j].node.Repr
  }

  ghost predicate Stands(S: Schema, e: Entry, it: Item, r: set<object>)
    reads r
    decreases r, 1
  {
    match e
    case PlainEntry(j) => it == Plain(j)
    case HeldEntry(node) => node in r && node.Repr <= r && node.Valid(S) && it == Held(node.Model)
  }

  lemma LinkOneMore(S: Schema, slots: seq<Slot>, props: seq<Prop>, values: seq<Value>, r: set<object>,
                    slot: Slot, p: Prop, v: Value)
    requires exists r0 :: Linked(S, slots, props, values, r0) && r == r0 + SlotRepr(slot) && r0 !! SlotRepr(slot)
    requires Shows(S, slot, p, v, SlotRepr(slot))
    ensures Linked(S, slots + [slot], props + [p], values + [v], r)
  {
  }

  // All slots but one, which stand apart from it.
  ghost predicate LinkedBut(S: Schema, slots: seq<Slot>, props: seq<Prop>, values: seq<Value>, r: set<object>, i: nat)
    reads r
  {
    && i < |slots| == |props| == |values|
    && (forall k :: 0 <= k < |slots| && k != i ==> Shows(S, slots[k], props[k], values[k], r))
    && forall j, k :: 0 <= j < k < |slots| && j != i && k != i ==> Separate(slots[j], slots[k], r)
  }

  // One value more, in its own part of memory.
  lemma Relink(S: Schema, slots: seq<Slot>, props: seq<Prop>, values: seq<Value>, rest: set<object>, i: nat,
               slot: Slot, v: Value)
    requires LinkedBut(S, slots, props, values, rest, i) && rest !! SlotRepr(slot)
    requires Shows(S, slot, props[i], v, SlotRepr(slot))
    ensures Linked(S, slots[i := slot], props, values[i := v], rest + SlotRepr(slot))
  {
    var all, after := rest + SlotRepr(slot), slots[i := slot];
    assert Shows(S, slot, props[i], v, all) && Inside(slot, all);
    forall k | 0 <= k < |slots| && k != i
      ensures Shows(S, slots[k], props[k], values[k], all) && Inside(slots[k], all) && SlotRepr(slots[k]) <= rest
    {
      assert Shows(S, slots[k], props[k], values[k], rest);
    }
    forall j, k | 0 <= j < k < |slots| ensures Separate(after[j], after[k], all) {
      if j != i && k != i { assert Separate(slots[j], slots[k], rest); }
    }
    forall k | 0 <= k < |slots| ensures Shows(S, after[k], props[k], values[i := v][k], all) {
    }
  }

  lemma Unlink(S: Schema, slots: seq<Slot>, props: seq<Prop>, values: seq<Value>, r: set<object>, i: nat)
    requires Linked(S, slots, props, values, r) && i < |slots|
    ensures LinkedBut(S, slots, props, values, r - SlotRepr(slots[i]), i)
  {
    var rest := r - SlotRepr(slots[i]);
    forall k | 0 <= k < |slots| && k != i
      ensures Shows(S, slots[k], props[k], values[k], rest) && Inside(slots[k], rest) {
      SlotIs(S, slots, props, values, r, k);
      assert Separate(slots[if k < i then k else i], slots[if k < i then i else k], r);
    }
    forall j, k | 0 <= j < k < |slots| && j != i && k != i ensures Separate(slots[j], slots[k], rest) {
      assert Separate(slots[j], slots[k], r);
    }
  }

  lemma SlotIs(S: Schema, slots: seq<Slot>, props: seq<Prop>, values: seq<Value>, r: set<object>, i: nat)
    requires Linked(S, slots, props, values, r) && i < |slots|
    ensures Shows(S, slots[i], props[i], values[i], SlotRepr(slots[i])) && SlotRepr(slots[i]) <= r
  {
    var s := slots[i];
    assert Shows(S, s, props[i], values[i], r);
    assert s.ObjSlot? ==> s.node.Valid(S);
    assert s.ArrSlot? ==> s.list.Valid(S);
  }

  ghost function EntryRepr(e: Entry): set<object>
    reads if e.HeldEntry? then {e.node} else {}
  {
    if e.HeldEntry? then e.node.Repr else {}
  }

  lemma EntryIs(S: Schema, entries: seq<Entry>, items: seq<Item>, r: set<object>, i: nat)
    requires Listed(S, entries, items, r) && i < |entries|
    ensures Stands(S, entries[i], items[i], EntryRepr(entries[i])) && EntryRepr(entries[i]) <= r
  {
    var e := entries[i];
    assert Stands(S, e, items[i], r);
    assert e.HeldEntry? ==> e.node.Valid(S);
  }

  lemma ListOneMore(S: Schema, entries: seq<Entry>, items: seq<Item>, r: set<object>, e: Entry, it: Item,
                    own: set<object>)
    requires Listed(S, entries, items, r) && Stands(S, e, it, own) && EntryRepr(e) == own && r !! own
    ensures Listed(S, entries + [e], items + [it], r + own)
  {
    ListWider(S, entries, items, r, r + own);
    assert Stands(S, e, it, r + own);
    forall i | 0 <= i < |entries| && entries[i].HeldEntry? ensures entries[i].node.Repr <= r {
      assert Stands(S, entries[i], items[i], r);
    }
  }

  lemma StandsAlone(S: Schema, e: Entry, it: Item)
    requires match e
      case PlainEntry(j) => it == Plain(j)
      case HeldEntry(node) => node.Valid(S) && it == Held(node.Model)
    ensures Stands(S, e, it, EntryRepr(e))
  {
  }

  lemma LoadsAs(S: Schema, itemType: string, item: Json)
    requires Sound(S)
    ensures var cls := Picked(S, itemType, Member(item, "object_type"), Member(item, "type"));
      LoadItem(S, itemType, item) == if cls.Some? then Held(Kitchen.Load(S, cls.value, item)) else Plain(item)
  {
  }

  lemma ListNone(S: Schema)
    ensures Listed(S, [], [], {})
  {
  }

  lemma ListWider(S: Schema, entries: seq<Entry>, items: seq<Item>, r: set<object>, wide: set<object>)
    requires Listed(S, entries, items, r) && r <= wide
    ensures Listed(S, entries, items, wide)
  {
    forall i | 0 <= i < |entries| ensures Stands(S, entries[i], items[i], wide) {
      assert Stands(S, entries[i], items[i], r);
    }
  }

  lemma LoadStep(S: Schema, itemType: string, all: seq<Json>, i: nat, items: seq<Item>)
    requires Sound(S) && i < |all|
    ensures items + [LoadItem(S, itemType, all[i])] + LoadItems(S, itemType, all[i + 1..]) ==
        items + LoadItems(S, itemType, all[i..])
  {
    hide LoadItem;
    assert all[i..][1..] == all[i + 1..];
  }

  lemma SaveItemStep(S: Schema, itemType: string, items: seq<Item>, i: nat, out: seq<Json>, simplify: bool, full: bool)
    requires i < |items|
    ensures out + [SaveItem(S, itemType, items[i], simplify, full)] +
        SaveItems(S, itemType, items[i + 1..], simplify, full)
         == out + SaveItems(S, itemType, items[i..], simplify, full)
  {
    hide SaveItem;
    assert items[i..][1..] == items[i + 1..];
  }

  lemma SaveStep(S: Schema, props: seq<Prop>, values: seq<Value>, i: nat, fields: seq<Field>, simplify: bool,
                 full: bool)
    requires i < |props| == |values|
    ensures var one := if Dropped(S, props[i], values[i], simplify, full) then []
                       else [Field(props[i].name, SaveValue(S, values[i], simplify, full))];
      fields + one + SaveProps(S, props[i + 1..], values[i + 1..], simplify, full)
      == fields + SaveProps(S, props[i..], values[i..], simplify, full)
  {
    hide Dropped, SaveValue, SaveProps;
    PropsStep(S, props, values, i, simplify, full);
    Regroup(fields, if Dropped(S, props[i], values[i], simplify, full) then []
                    else [Field(props[i].name, SaveValue(S, values[i], simplify, full))],
            SaveProps(S, props[i + 1..], values[i + 1..], simplify, full));
  }

  lemma PropsStep(S: Schema, props: seq<Prop>, values: seq<Value>, i: nat, simplify: bool, full: bool)
    requires i < |props| == |values|
    ensures var one := if Dropped(S, props[i], values[i], simplify, full) then []
                       else [Field(props[i].name, SaveValue(S, values[i], simplify, full))];
      SaveProps(S, props[i..], values[i..], simplify, full) ==
          one + SaveProps(S, props[i + 1..], values[i + 1..], simplify, full)
  {
    hide Dropped, SaveValue;
    assert props[i..][1..] == props[i + 1..] && values[i..][1..] == values[i + 1..];
  }

  lemma Regroup<T>(a: seq<T>, b: seq<T>, c: seq<T>)
    ensures a + b + c == a + (b + c)
  {
  }

  lemma SavedNone(S: Schema, simplify: bool, full: bool)
    ensures SaveProps(S, [], [], simplify, full) == []
  {
  }

  lemma SizeOfItem(items: seq<Json>, i: nat)
    requires i < |items|
    ensures Size(items[i]) < Size(List(items))
  {
    ItemSmaller(items, i);
  }

  lemma PicksClass(S: Schema, itemType: string, item: Json)
    ensures var cls := Picked(S, itemType, Member(item, "object_type"), Member(item, "type"));
      cls.Some? ==> cls.value in S
  {
  }

  lemma SmallSizes()
    ensures Size(Dict([])) == 1 && Size(Null) == 1
  {
  }

  // The values are what the properties are loaded with.
  ghost predicate Loaded(S: Schema, props: seq<Prop>, j: Json, values: seq<Value>)
    requires Sound(S)
  {
    |values| == |props| && forall i :: 0 <= i < |props| ==>
        values[i] == FromMember(S, props[i], Member(j, props[i].name))
  }

  ghost predicate Started(S: Schema, props: seq<Prop>, values: seq<Value>)
    requires Sound(S)
  {
    |values| == |props| && forall i :: 0 <= i < |props| ==> values[i] == FreshValue(S, props[i])
  }

  lemma StartedIs(S: Schema, className: string, values: seq<Value>)
    requires Sound(S) && className in S && Started(S, S[className].props, values)
    ensures Fresh(S, className) == Object(className, values)
  {
    hide FreshValue;
    var started := FreshProps(S, className, 0);
    forall i | 0 <= i < |values| ensures started[i] == values[i] { FreshAt(S, className, 0, i); }
    assert started == values;
  }

  lemma LoadedIs(S: Schema, className: string, j: Json, values: seq<Value>)
    requires Sound(S) && className in S && Loaded(S, S[className].props, j, values)
    ensures Kitchen.Load(S, className, j) == Object(className, values)
  {
    hide FromMember;
    var loaded := LoadProps(S, className, j, 0);
    forall i | 0 <= i < |values| ensures loaded[i] == values[i] { LoadedAt(S, className, j, 0, i); }
    assert loaded == values;
  }
}
