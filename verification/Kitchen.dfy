// Saving an object tree, leaving out what equals its default, and loading it
// back.

module Kitchen {
  import opened Wrappers

  // What JSON carries.  Null also stands for undefined.
  datatype Json =
    | Null
    | Bool(b: bool)
    | Num(n: int)
    | Str(s: string)
    | List(items: seq<Json>)
    | Dict(fields: seq<Field>)

  datatype Field = Field(key: string, value: Json)

  // A property as a class declares it; without a default its default_ is Null.
  datatype Prop = Prop(name: string, type_: string, subType: string, default_: Json)

  // A class; its rank is above those of the classes its properties have.
  datatype Class = Class(rank: nat, props: seq<Prop>)

  type Schema = map<string, Class>

  const ARRAY: string := "base_array"

  // A property's value.  `shared` says it is the default itself, by reference.
  datatype Value = Prim(json: Json, shared: bool) | Obj(o: Object) | Arr(a: Items)

  datatype Object = Object(cls: string, values: seq<Value>)

  datatype Items = Items(itemType: string, items: seq<Item>)

  datatype Item = Plain(json: Json) | Held(o: Object)

  // --------------------------------------------------------------- JSON access

  function Get(fields: seq<Field>, key: string): Option<Json> {
    if |fields| == 0 then None
    else if fields[0].key == key then Some(fields[0].value)
    else Get(fields[1..], key)
  }

  // o[key] where o may be undefined.
  function Member(j: Json, key: string): Option<Json> {
    if j.Dict? then Get(j.fields, key) else None
  }

  function Size(j: Json): nat
    decreases j, 1
  {
    match j
    case List(items) => 1 + ItemsSize(items)
    case Dict(fields) => 1 + FieldsSize(fields)
    case _ => 1
  }

  function ItemsSize(items: seq<Json>): nat
    decreases items, 0
  {
    if |items| == 0 then 0 else 1 + Size(items[0]) + ItemsSize(items[1..])
  }

  function FieldsSize(fields: seq<Field>): nat
    decreases fields, 0
  {
    if |fields| == 0 then 0 else FieldSize(fields[0]) + FieldsSize(fields[1..])
  }

  function FieldSize(f: Field): nat
    decreases f, 2
  {
    Size(f.value)
  }

  lemma {:induction false} GetSmaller(fields: seq<Field>, key: string)
    ensures Get(fields, key).Some? ==> Size(Get(fields, key).value) <= FieldsSize(fields)
  {
    if |fields| > 0 && fields[0].key != key { GetSmaller(fields[1..], key); }
  }

  lemma {:induction false} ItemSmaller(items: seq<Json>, i: nat)
    requires i < |items|
    ensures Size(items[i]) < ItemsSize(items)
  {
    if i > 0 { ItemSmaller(items[1..], i - 1); }
  }

  predicate Truthy(j: Json) {
    match j
    case Null => false
    case Bool(b) => b
    case Num(n) => n != 0
    case Str(s) => s != ""
    case _ => true
  }

  // ------------------------------------------------------------- declarations

  // ClassKitchen.create, of a primitive type.
  function Created(type_: string): Json {
    if type_ == "bool" then Bool(false)
    else if type_ == "integer" then Num(0)
    else if type_ == "string" then Str("")
    else if type_ == "object" then Dict([])
    else if type_ == "array" then List([])
    else Null
  }

  // The default a property keeps: for objects and arrays declared without one,
  // a new value of its own.
  function Default(p: Prop): Json {
    if !Truthy(p.default_) && p.type_ in {"object", "array"} then Created(p.type_) else p.default_
  }

  // The value a property starts with.
  function Initial(p: Prop): Json {
    if Truthy(p.default_) then p.default_ else Created(p.type_)
  }

  // ------------------------------------------------------------------- loading

  // Which class an item is made an object of, if any: the one it names, for
  // components and gas elements the one its type names, else the array's own.
  function Picked(S: Schema, itemType: string, named: Option<Json>, typed: Option<Json>): Option<string> {
    var first :=
      if named.Some? && Truthy(named.value) then named
      else if typed.Some? && Truthy(typed.value) then
        if itemType == "component" then typed
        else if typed.value.Str? && itemType in {"gas_node", "gas_element", "gas_template"}
        then Some(Str("gas_" + Underscored(typed.value.s)))
        else None
      else None;
    if first.Some? && first.value.Str? && first.value.s in S then Some(first.value.s)
    else if first.Some? && first.value.Str? && first.value.s in {"object", "array"} then None
    else if itemType in S then Some(itemType)
    else None
  }

  function Underscored(s: string): string {
    if |s| == 0 then "" else [if s[0] == '-' then '_' else s[0]] + Underscored(s[1..])
  }

  // The same text with underscores for its dashes.
  lemma {:induction false} UnderscoredIs(s: string)
    ensures |Underscored(s)| == |s|
    ensures forall i :: 0 <= i < |s| ==> Underscored(s)[i] == if s[i] == '-' then '_' else s[i]
  {
    if |s| > 0 { UnderscoredIs(s[1..]); }
  }

  // A gas element that names no class is made one of its type's.
  lemma GasPicks(S: Schema, itemType: string)
    requires itemType in {"gas_node", "gas_element", "gas_template"}
    ensures "gas_text_box" in S ==>
              Picked(S, itemType, None, Some(Str("text-box"))) == Some("gas_text_box")
    ensures "gas_text_box" !in S ==>
              Picked(S, itemType, None, Some(Str("text-box"))) == if itemType in S then Some(itemType) else None
  {
    hide Underscored;
    TextBox();
    assert "component"[0] == 'c' && itemType[0] == 'g';
  }

  lemma TextBox()
    ensures "gas_" + Underscored("text-box") == "gas_text_box" && Truthy(Str("text-box"))
    ensures "gas_text_box" !in {"object", "array"}
  {
    UnderscoredIs("text-box");
    assert Underscored("text-box") == "text_box";
    assert "gas_text_box"[0] == 'g' && "object"[0] == 'o' && "array"[0] == 'a';
  }

  // Classes can be made: an object property's class ranks below its owner's.
  predicate Sound(S: Schema) {
    && ARRAY !in S && "" !in S
    && forall c, i :: c in S && 0 <= i < |S[c].props| && S[c].props[i].type_ in S ==>
        S[S[c].props[i].type_].rank < S[c].rank
  }

  // load of a fresh object of the class.
  function Load(S: Schema, cls: string, j: Json): (o: Object)
    requires Sound(S) && cls in S
    ensures o.cls == cls && |o.values| == |S[cls].props|
    decreases 2 * Size(j), S[cls].rank + 1, |S[cls].props| + 1
  {
    Object(cls, LoadProps(S, cls, j, 0))
  }

  function LoadProps(S: Schema, cls: string, j: Json, i: nat): (r: seq<Value>)
    requires Sound(S) && cls in S && i <= |S[cls].props|
    ensures |r| == |S[cls].props| - i
    decreases 2 * Size(j), S[cls].rank + 1, |S[cls].props| - i
  {
    if i == |S[cls].props| then []
    else
      var p := S[cls].props[i];
      MemberSmaller(j, p.name);
      [FromMember(S, p, Member(j, p.name))] + LoadProps(S, cls, j, i + 1)
  }

  // What a property is loaded with, given its member if there is one.
  function FromMember(S: Schema, p: Prop, m: Option<Json>): Value
    requires Sound(S)
    decreases 2 * MemberSize(m), if p.type_ in S then S[p.type_].rank + 1 else 0,
              if p.type_ in S then |S[p.type_].props| + 2 else 1
  {
    if p.type_ in S then
      Obj(Load(S, p.type_, if m.Some? then m.value else Dict([])))
    else if p.type_ == ARRAY then
      Arr(Items(p.subType, if m.Some? && m.value.List? then LoadItems(S, p.subType, m.value.items) else []))
    else if m.Some? then Prim(m.value, false)
    else Prim(Default(p), true)
  }

  function MemberSize(m: Option<Json>): nat {
    if m.Some? then Size(m.value) else 1
  }

  function LoadItems(S: Schema, itemType: string, items: seq<Json>): (r: seq<Item>)
    requires Sound(S)
    ensures |r| == |items|
    decreases 2 * ItemsSize(items), 0, |items|
  {
    if |items| == 0 then [] else [LoadItem(S, itemType, items[0])] + LoadItems(S, itemType, items[1..])
  }

  function LoadItem(S: Schema, itemType: string, item: Json): Item
    requires Sound(S)
    decreases 2 * Size(item) + 1, 0, 0
  {
    var cls := Picked(S, itemType, Member(item, "object_type"), Member(item, "type"));
    if cls.Some? then Held(Load(S, cls.value, item)) else Plain(item)
  }

  lemma MemberSmaller(j: Json, key: string)
    ensures Member(j, key).Some? ==> Size(Member(j, key).value) < Size(j)
    ensures Size(j) > 0
  {
    if j.Dict? { GetSmaller(j.fields, key); }
  }

  lemma {:induction false} LoadedAt(S: Schema, cls: string, j: Json, i: nat, k: nat)
    requires Sound(S) && cls in S && i <= k < |S[cls].props|
    ensures var p := S[cls].props[k]; LoadProps(S, cls, j, i)[k - i] == FromMember(S, p, Member(j, p.name))
    decreases k - i
  {
    if i < k { LoadedAt(S, cls, j, i + 1, k); }
  }

  // -------------------------------------------------------------------- saving

  predicate NonEmpty(j: Json) {
    j.Dict? && |j.fields| > 0
  }

  // == between a value and a default of the same kind: by reference for
  // objects and arrays.
  predicate LooselyEqual(j: Json, shared: bool, default_: Json) {
    if j.Dict? || j.List? then shared else j == default_
  }

  // isEqual to what the declared class creates.
  predicate IsDefault(S: Schema, p: Prop, v: Value)
    decreases v, 0
  {
    match v
    case Prim(j, _) => j == Initial(p)
    case Arr(a) => |a.items| == 0
    case Obj(o) => o.cls in S && |o.values| == |S[o.cls].props| && AllDefault(S, S[o.cls].props, o.values)
  }

  predicate AllDefault(S: Schema, props: seq<Prop>, values: seq<Value>)
    decreases values, 1
  {
    |values| == 0 || |props| == 0 || (IsDefault(S, props[0], values[0]) && AllDefault(S, props[1..], values[1..]))
  }

  predicate Dropped(S: Schema, p: Prop, v: Value, simplify: bool, full: bool) {
    simplify &&
    match v
    case Prim(j, shared) =>
      (p.type_ == "object" && !NonEmpty(j) && !NonEmpty(Default(p)) && full)
      || (p.name != "type" && LooselyEqual(j, shared, Default(p)))
    case _ => full && IsDefault(S, p, v)
  }

  function Save(S: Schema, o: Object, simplify: bool, full: bool): Json
    decreases o, 2
  {
    Dict(if o.cls in S then SaveProps(S, S[o.cls].props, o.values, simplify, full) else [])
  }

  function SaveProps(S: Schema, props: seq<Prop>, values: seq<Value>, simplify: bool, full: bool): seq<Field>
    decreases values, 1
  {
    if |values| == 0 || |props| == 0 then []
    else
      (if Dropped(S, props[0], values[0], simplify, full) then []
          else [Field(props[0].name, SaveValue(S, values[0], simplify, full))])
      + SaveProps(S, props[1..], values[1..], simplify, full)
  }

  function SaveValue(S: Schema, v: Value, simplify: bool, full: bool): Json
    decreases v, 0
  {
    match v
    case Prim(j, _) => j
    case Obj(o) => Save(S, o, simplify, full)
    case Arr(a) => List(SaveItems(S, a.itemType, a.items, simplify, full))
  }

  function SaveItems(S: Schema, itemType: string, items: seq<Item>, simplify: bool, full: bool): (r: seq<Json>)
    ensures |r| == |items|
    decreases items, 1
  {
    if |items| == 0 then []
    else [SaveItem(S, itemType, items[0], simplify, full)] + SaveItems(S, itemType, items[1..], simplify, full)
  }

  // An object of another class than the array's says which.
  function SaveItem(S: Schema, itemType: string, it: Item, simplify: bool, full: bool): Json
    decreases it, 0
  {
    match it
    case Plain(j) => j
    case Held(o) =>
      var j := Save(S, o, simplify, full);
      if o.cls != itemType then Dict(j.fields + [Field("object_type", Str(o.cls))]) else j
  }

  // -------------------------------------------------------------- well-typed trees

  predicate SameKind(a: Json, b: Json) {
    match a
    case Null => true
    case Bool(_) => b.Null? || b.Bool?
    case Num(_) => b.Null? || b.Num?
    case Str(_) => b.Null? || b.Str?
    case List(_) => b.Null? || b.List?
    case Dict(_) => b.Null? || b.Dict?
  }

  // Property names are distinct, none is object_type, a type is a string, and a
  // property starts as its default.
  predicate GoodProps(props: seq<Prop>) {
    && (forall i :: 0 <= i < |props| ==> Initial(props[i]) == Default(props[i]))
    && (forall i, j :: 0 <= i < j < |props| ==> props[i].name != props[j].name)
    && (forall i :: 0 <= i < |props| ==> props[i].name != "object_type")
    && forall i :: 0 <= i < |props| && props[i].name == "type" ==> props[i].type_ == "string"
  }

  predicate GoodSchema(S: Schema) {
    Sound(S) && "string" !in S && forall c :: c in S ==> GoodProps(S[c].props)
  }

  predicate WellTyped(S: Schema, o: Object)
    decreases o, 2
  {
    o.cls in S && |o.values| == |S[o.cls].props| && AllFit(S, S[o.cls].props, o.values)
  }

  predicate AllFit(S: Schema, props: seq<Prop>, values: seq<Value>)
    decreases values, 1
  {
    |values| == 0 || |props| == 0 || (Fits(S, props[0], values[0]) && AllFit(S, props[1..], values[1..]))
  }

  predicate Fits(S: Schema, p: Prop, v: Value)
    decreases v, 0
  {
    match v
    case Obj(o) => o.cls == p.type_ && WellTyped(S, o)
    case Arr(a) => p.type_ == ARRAY && a.itemType == p.subType && ItemsFit(S, a.itemType, a.items)
    case Prim(j, shared) =>
      && p.type_ !in S && p.type_ != ARRAY
      && SameKind(j, Default(p)) && (shared ==> j == Default(p))
      && (p.type_ == "object" ==> j.Dict? && Default(p).Dict?)
  }

  predicate ItemsFit(S: Schema, itemType: string, items: seq<Item>)
    decreases items, 1
  {
    |items| == 0 || (ItemFits(S, itemType, items[0]) && ItemsFit(S, itemType, items[1..]))
  }

  predicate ItemFits(S: Schema, itemType: string, it: Item)
    decreases it, 0
  {
    it.Held? ==> WellTyped(S, it.o)
  }

  // Every item of every array is made again what it is: an object of its own
  // class, or none.  A component has no other class for its type, say.
  predicate Kept(S: Schema, o: Object)
    requires WellTyped(S, o)
    decreases o, 2
  {
    AllKept(S, S[o.cls].props, o.values)
  }

  predicate AllKept(S: Schema, props: seq<Prop>, values: seq<Value>)
    requires AllFit(S, props, values)
    decreases values, 1
  {
    |values| == 0 || |props| == 0 || (KeptValue(S, props[0], values[0]) && AllKept(S, props[1..], values[1..]))
  }

  predicate KeptValue(S: Schema, p: Prop, v: Value)
    requires Fits(S, p, v)
    decreases v, 0
  {
    match v
    case Prim(_, _) => true
    case Obj(o) => Kept(S, o)
    case Arr(a) => KeptItems(S, a.itemType, a.items)
  }

  predicate KeptItems(S: Schema, itemType: string, items: seq<Item>)
    requires ItemsFit(S, itemType, items)
    decreases items, 1
  {
    |items| == 0 || (KeptItem(S, itemType, items[0]) && KeptItems(S, itemType, items[1..]))
  }

  predicate KeptItem(S: Schema, itemType: string, it: Item)
    requires ItemFits(S, itemType, it)
    decreases it, 0
  {
    match it
    case Plain(j) => Picked(S, itemType, Member(j, "object_type"), Member(j, "type")) == None
    case Held(o) =>
      && WellTyped(S, o)
      && (o.cls == itemType ==> Picked(S, itemType, None, TypeOf(S[o.cls].props, o.values)) == Some(o.cls))
      && Kept(S, o)
  }

  // The value of the property called type, if there is one.
  function TypeOf(props: seq<Prop>, values: seq<Value>): Option<Json> {
    if |props| == 0 || |values| == 0 then None
    else if props[0].name == "type" && values[0].Prim? then Some(values[0].json)
    else TypeOf(props[1..], values[1..])
  }

  // ---------------------------------------------------- equal but for references

  function Strip(o: Object): Object
    decreases o, 2
  {
    Object(o.cls, StripAll(o.values))
  }

  function StripAll(values: seq<Value>): (r: seq<Value>)
    ensures |r| == |values|
    decreases values, 1
  {
    if |values| == 0 then [] else [StripValue(values[0])] + StripAll(values[1..])
  }

  function StripValue(v: Value): Value
    decreases v, 0
  {
    match v
    case Prim(j, _) => Prim(j, false)
    case Obj(o) => Obj(Strip(o))
    case Arr(a) => Arr(Items(a.itemType, StripItems(a.items)))
  }

  function StripItems(items: seq<Item>): (r: seq<Item>)
    ensures |r| == |items|
    decreases items, 1
  {
    if |items| == 0 then [] else [StripItem(items[0])] + StripItems(items[1..])
  }

  function StripItem(it: Item): Item
    decreases it, 0
  {
    match it
    case Plain(_) => it
    case Held(o) => Held(Strip(o))
  }

  // ----------------------------------------------------------- what was saved

  lemma {:induction false} NotSaved(S: Schema, props: seq<Prop>, values: seq<Value>, key: string, simplify: bool,
                                    full: bool)
    requires forall i :: 0 <= i < |props| ==> props[i].name != key
    ensures Get(SaveProps(S, props, values, simplify, full), key) == None
    decreases |props|
  {
    hide Dropped, SaveValue;
    if |props| > 0 && |values| > 0 {
      NotSaved(S, props[1..], values[1..], key, simplify, full);
      SavedFirst(S, props, values, simplify, full);
    }
  }

  // The first property's member, if it is kept, and then the others.
  lemma SavedFirst(S: Schema, props: seq<Prop>, values: seq<Value>, simplify: bool, full: bool)
    requires |props| > 0 && |values| > 0
    ensures var fields, rest := SaveProps(S, props, values, simplify, full),
        SaveProps(S, props[1..], values[1..], simplify, full);
      if Dropped(S, props[0], values[0], simplify, full) then fields == rest
      else (|fields| > 0 && fields[1..] == rest
            && fields[0] == Field(props[0].name, SaveValue(S, values[0], simplify, full)))
  {
    hide Dropped, SaveValue;
  }

  lemma {:induction false} SavedMember(S: Schema, props: seq<Prop>, values: seq<Value>, i: nat, simplify: bool,
                                       full: bool)
    requires GoodProps(props) && |values| == |props| && i < |props|
    ensures Get(SaveProps(S, props, values, simplify, full), props[i].name) ==
            if Dropped(S, props[i], values[i], simplify, full) then None
                else Some(SaveValue(S, values[i], simplify, full))
    decreases i
  {
    hide Dropped, SaveValue;
    SavedFirst(S, props, values, simplify, full);
    if i == 0 {
      NotSaved(S, props[1..], values[1..], props[0].name, simplify, full);
    } else {
      SavedMember(S, props[1..], values[1..], i - 1, simplify, full);
    }
  }

  lemma {:induction false} GetAppend(fields: seq<Field>, f: Field, key: string)
    ensures Get(fields + [f], key) ==
            if Get(fields, key).Some? then Get(fields, key) else if f.key == key then Some(f.value) else None
  {
    if |fields| == 0 {
      assert fields + [f] == [f];
    } else {
      assert (fields + [f])[1..] == fields[1..] + [f];
      GetAppend(fields[1..], f, key);
    }
  }

  lemma {:induction false} FitsAt(S: Schema, props: seq<Prop>, values: seq<Value>, i: nat)
    requires AllFit(S, props, values) && i < |props| && i < |values|
    ensures Fits(S, props[i], values[i])
    decreases i
  {
    if i > 0 { FitsAt(S, props[1..], values[1..], i - 1); }
  }

  lemma {:induction false} DefaultAt(S: Schema, props: seq<Prop>, values: seq<Value>, i: nat)
    requires AllDefault(S, props, values) && i < |props| && i < |values|
    ensures IsDefault(S, props[i], values[i])
    decreases i
  {
    if i > 0 { DefaultAt(S, props[1..], values[1..], i - 1); }
  }

  lemma {:induction false} StripAt(values: seq<Value>, i: nat)
    requires i < |values|
    ensures StripAll(values)[i] == StripValue(values[i])
  {
    if i > 0 { StripAt(values[1..], i - 1); }
  }

  lemma TypeKept(S: Schema, p: Prop, v: Value, simplify: bool, full: bool)
    requires "string" !in S && p.name == "type" && p.type_ == "string" && Fits(S, p, v)
    ensures v.Prim? && !Dropped(S, p, v, simplify, full)
  {
    assert |ARRAY| != |"string"| && "object"[0] != "string"[0];
    assert !v.Obj? && !v.Arr?;
  }

  // The type a saved object shows is the one it has.
  lemma {:induction false} SavedType(S: Schema, props: seq<Prop>, values: seq<Value>, simplify: bool, full: bool)
    requires GoodProps(props) && |values| == |props| && AllFit(S, props, values) && "string" !in S
    ensures Get(SaveProps(S, props, values, simplify, full), "type") == TypeOf(props, values)
    decreases |props|
  {
    if |props| > 0 {
      SavedFirst(S, props, values, simplify, full);
      if props[0].name == "type" {
        TypeKept(S, props[0], values[0], simplify, full);
      } else {
        SavedType(S, props[1..], values[1..], simplify, full);
      }
    }
  }

  lemma {:induction false} AllKeptAt(S: Schema, props: seq<Prop>, values: seq<Value>)
    requires AllFit(S, props, values) && |props| == |values|
    ensures forall i :: 0 <= i < |values| ==> Fits(S, props[i], values[i])
    ensures AllKept(S, props, values) <==> forall i :: 0 <= i < |values| ==> KeptValue(S, props[i], values[i])
    decreases |values|
  {
    hide KeptValue, Fits;
    if |values| > 0 {
      var ps, vs := props[1..], values[1..];
      AllKeptAt(S, ps, vs);
      forall i | 0 <= i < |values| ensures Fits(S, props[i], values[i]) {
        if i > 0 { assert ps[i - 1] == props[i] && vs[i - 1] == values[i]; }
      }
      if forall i :: 0 <= i < |values| ==> KeptValue(S, props[i], values[i]) {
        forall i | 0 <= i < |vs|
          ensures KeptValue(S, ps[i], vs[i]) { assert ps[i] == props[i + 1] && vs[i] == values[i + 1]; }
      }
      if AllKept(S, props, values) {
        forall i | 0 <= i < |values| ensures KeptValue(S, props[i], values[i]) {
          if i > 0 { assert ps[i - 1] == props[i] && vs[i - 1] == values[i]; }
        }
      }
    }
  }

  // -------------------------------------------------------------- and loaded back

  // An object that equals the default is what loading nothing gives.
  lemma {:induction false} DefaultLoads(S: Schema, o: Object)
    requires GoodSchema(S) && WellTyped(S, o) && AllDefault(S, S[o.cls].props, o.values)
    ensures Strip(Load(S, o.cls, Dict([]))) == Strip(o) && Kept(S, o)
    decreases o, 1
  {
    hide Fits, IsDefault, FromMember, KeptValue;
    var props := S[o.cls].props;
    var loaded := Load(S, o.cls, Dict([]));
    AllKeptAt(S, props, o.values);
    forall i | 0 <= i < |props|
      ensures StripAll(loaded.values)[i] == StripAll(o.values)[i] && KeptValue(S, props[i], o.values[i])
    {
      DefaultAt(S, props, o.values, i);
      LoadedAt(S, o.cls, Dict([]), 0, i);
      StripAt(loaded.values, i);
      StripAt(o.values, i);
      DefaultValue(S, props[i], o.values[i]);
    }
    assert StripAll(loaded.values) == StripAll(o.values);
  }

  lemma {:induction false} DefaultValue(S: Schema, p: Prop, v: Value)
    requires GoodSchema(S) && Fits(S, p, v) && IsDefault(S, p, v) && Initial(p) == Default(p)
    ensures StripValue(FromMember(S, p, None)) == StripValue(v) && KeptValue(S, p, v)
    decreases v, 0
  {
    hide Load;
    match v {
      case Obj(o) => DefaultLoads(S, o);
      case Arr(a) => assert a.items == [];
      case Prim(_, _) =>
    }
  }

  // Loading any JSON that shows the saved members gives the object back exactly
  // when every item is kept.
  lemma {:induction false} LoadSaved(S: Schema, o: Object, j: Json, simplify: bool, full: bool)
    requires GoodSchema(S) && WellTyped(S, o)
    requires forall i :: 0 <= i < |S[o.cls].props| ==>
               Member(j, S[o.cls].props[i].name) == Member(Save(S, o, simplify, full), S[o.cls].props[i].name)
    ensures Strip(Load(S, o.cls, j)) == Strip(o) <==> Kept(S, o)
    decreases o, 1
  {
    hide Fits, FromMember, Dropped, SaveValue, KeptValue;
    var props := S[o.cls].props;
    var loaded := Load(S, o.cls, j);
    AllKeptAt(S, props, o.values);
    forall i | 0 <= i < |props|
      ensures StripAll(loaded.values)[i] == StripAll(o.values)[i] <==> KeptValue(S, props[i], o.values[i])
    {
      SavedMember(S, props, o.values, i, simplify, full);
      LoadedAt(S, o.cls, j, 0, i);
      StripAt(loaded.values, i);
      StripAt(o.values, i);
      ValueBack(S, props[i], o.values[i], simplify, full);
    }
    if Kept(S, o) { assert StripAll(loaded.values) == StripAll(o.values); }
  }

  // A property comes back, saved or left out, exactly when it is kept.
  lemma {:induction false} ValueBack(S: Schema, p: Prop, v: Value, simplify: bool, full: bool)
    requires GoodSchema(S) && Fits(S, p, v)
    ensures var m := if Dropped(S, p, v, simplify, full) then None else Some(SaveValue(S, v, simplify, full));
      StripValue(FromMember(S, p, m)) == StripValue(v) <==> KeptValue(S, p, v)
    decreases v, 0
  {
    hide Load, LoadItems, Save, SaveItems, Kept;
    if v.Obj? {
      if Dropped(S, p, v, simplify, full) { DefaultLoads(S, v.o); }
      else { LoadSaved(S, v.o, Save(S, v.o, simplify, full), simplify, full); }
    } else if v.Arr? {
      if Dropped(S, p, v, simplify, full) { assert v.a.items == []; }
      else { ItemsBack(S, v.a.itemType, v.a.items, simplify, full); }
    }
  }

  lemma {:induction false} ItemsBack(S: Schema, itemType: string, items: seq<Item>, simplify: bool, full: bool)
    requires GoodSchema(S) && ItemsFit(S, itemType, items)
    ensures StripItems(LoadItems(S, itemType, SaveItems(S, itemType, items, simplify, full))) == StripItems(items)
            <==> KeptItems(S, itemType, items)
    decreases items, 1
  {
    hide SaveItem, LoadItem, ItemFits, KeptItem;
    if |items| > 0 {
      ItemBack(S, itemType, items[0], simplify, full);
      ItemsBack(S, itemType, items[1..], simplify, full);
      var saved := SaveItems(S, itemType, items, simplify, full);
      assert saved[1..] == SaveItems(S, itemType, items[1..], simplify, full);
      var loaded := LoadItems(S, itemType, saved);
      assert loaded[1..] == LoadItems(S, itemType, saved[1..]);
      ConsEqual(StripItem(loaded[0]), StripItem(items[0]), StripItems(loaded[1..]), StripItems(items[1..]));
    }
  }

  lemma ConsEqual<T>(x: T, y: T, xs: seq<T>, ys: seq<T>)
    ensures [x] + xs == [y] + ys <==> x == y && xs == ys
  {
    if [x] + xs == [y] + ys {
      assert ([x] + xs)[0] == ([y] + ys)[0] && ([x] + xs)[1..] == ([y] + ys)[1..];
    }
  }

  lemma {:induction false} ItemBack(S: Schema, itemType: string, it: Item, simplify: bool, full: bool)
    requires GoodSchema(S) && ItemFits(S, itemType, it)
    ensures StripItem(LoadItem(S, itemType, SaveItem(S, itemType, it, simplify, full))) == StripItem(it)
            <==> KeptItem(S, itemType, it)
    decreases it, 0
  {
    hide Load, Kept;
    if it.Held? {
      var o := it.o;
      var props := S[o.cls].props;
      var fields := SaveProps(S, props, o.values, simplify, full);
      var j := SaveItem(S, itemType, it, simplify, full);
      NotSaved(S, props, o.values, "object_type", simplify, full);
      SavedType(S, props, o.values, simplify, full);
      assert Save(S, o, simplify, full) == Dict(fields);
      if o.cls != itemType {
        assert j == Dict(fields + [Field("object_type", Str(o.cls))]);
        GetAppend(fields, Field("object_type", Str(o.cls)), "object_type");
        forall i | 0 <= i < |props| ensures Member(j, props[i].name) == Get(fields, props[i].name) {
          GetAppend(fields, Field("object_type", Str(o.cls)), props[i].name);
          assert props[i].name != "object_type";
        }
      }
      LoadSaved(S, o, j, simplify, full);
      assert Strip(o).cls == o.cls;
    }
  }

  // An object equals what its class creates exactly when it equals a new one.
  lemma {:induction false} DefaultIs(S: Schema, o: Object)
    requires GoodSchema(S) && WellTyped(S, o)
    ensures AllDefault(S, S[o.cls].props, o.values) <==> Strip(o) == Strip(Load(S, o.cls, Dict([])))
    decreases o, 1
  {
    hide Fits, IsDefault, FromMember, KeptValue, StripValue, Load;
    var props := S[o.cls].props;
    var loaded := Load(S, o.cls, Dict([]));
    if AllDefault(S, props, o.values) { DefaultLoads(S, o); }
    if Strip(o) == Strip(loaded) {
      LoadIs(S, o.cls, Dict([]));
      AllKeptAt(S, props, o.values);
      forall i | 0 <= i < |props| ensures IsDefault(S, props[i], o.values[i]) {
        LoadedAt(S, o.cls, Dict([]), 0, i);
        StripAt(loaded.values, i);
        StripAt(o.values, i);
        assert StripValue(o.values[i]) == StripValue(FromMember(S, props[i], None));
        DefaultBack(S, props[i], o.values[i]);
      }
      DefaultsAll(S, props, o.values);
    }
  }

  lemma LoadIs(S: Schema, cls: string, j: Json)
    requires Sound(S) && cls in S
    ensures Load(S, cls, j).values == LoadProps(S, cls, j, 0)
  {
  }

  lemma {:induction false} DefaultBack(S: Schema, p: Prop, v: Value)
    requires GoodSchema(S) && Fits(S, p, v) && Initial(p) == Default(p)
    requires StripValue(v) == StripValue(FromMember(S, p, None))
    ensures IsDefault(S, p, v)
    decreases v, 0
  {
    hide Load;
    match v {
      case Obj(o) => DefaultIs(S, o);
      case Arr(a) => assert |StripItems(a.items)| == |a.items|;
      case Prim(_, _) =>
    }
  }

  lemma {:induction false} DefaultsAll(S: Schema, props: seq<Prop>, values: seq<Value>)
    requires |props| == |values| && forall i :: 0 <= i < |props| ==> IsDefault(S, props[i], values[i])
    ensures AllDefault(S, props, values)
    decreases |values|
  {
    hide IsDefault;
    if |values| > 0 {
      forall i | 0 <= i < |props| - 1 ensures IsDefault(S, props[1..][i], values[1..][i]) {
        assert props[1..][i] == props[i + 1] && values[1..][i] == values[i + 1];
      }
      DefaultsAll(S, props[1..], values[1..]);
    }
  }

  // Which properties a saved object leaves out, and what it shows of the others.
  // Simplifying leaves out a value that is its default, for JSON objects and
  // arrays only when it is the default itself; full simplification also an object
  // equal to a new one, an empty array, and an empty JSON object that has no
  // default.  The type is never left out.
  lemma SavedShows(S: Schema, o: Object, i: nat, simplify: bool, full: bool)
    requires GoodSchema(S) && WellTyped(S, o) && i < |o.values|
    ensures var p, v, m := S[o.cls].props[i], o.values[i], Member(Save(S, o, simplify, full), S[o.cls].props[i].name);
      v.Prim? ==>
        m == if simplify && p.name != "type"
                && (if v.json.Dict? || v.json.List? then v.shared else v.json == Default(p))
             then None
             else if simplify && full && p.type_ == "object" && v.json == Dict([]) && Default(p) == Dict([]) then None
             else Some(v.json)
    ensures var v, m := o.values[i], Member(Save(S, o, simplify, full), S[o.cls].props[i].name);
      v.Obj? ==>
        && v.o.cls in S
        && m == if simplify && full && Strip(v.o) == Strip(Fresh(S, v.o.cls)) then None
                else Some(Save(S, v.o, simplify, full))
    ensures var v, m := o.values[i], Member(Save(S, o, simplify, full), S[o.cls].props[i].name);
      v.Arr? ==>
        m == if simplify && full && v.a.items == [] then None
             else Some(List(SaveItems(S, v.a.itemType, v.a.items, simplify, full)))
  {
    hide Save, Strip, Fresh, Load, GoodProps;
    var props := S[o.cls].props;
    var p, v := props[i], o.values[i];
    SaveIs(S, o, simplify, full);
    SavedMember(S, props, o.values, i, simplify, full);
    FitsAt(S, props, o.values, i);
    if v.Prim? {
      EmptyDict(v.json);
      EmptyDict(Default(p));
    } else if v.Obj? {
      DefaultIs(S, v.o);
      FreshLoads(S, v.o.cls);
    }
  }

  lemma SaveIs(S: Schema, o: Object, simplify: bool, full: bool)
    requires o.cls in S
    ensures Save(S, o, simplify, full) == Dict(SaveProps(S, S[o.cls].props, o.values, simplify, full))
  {
  }

  lemma EmptyDict(j: Json)
    ensures j.Dict? ==> (!NonEmpty(j) <==> j == Dict([]))
  {
  }

  // Saving with any simplification and loading into a fresh object of the same
  // class gives the object back exactly when its items are kept.
  lemma SaveLoad(S: Schema, o: Object, simplify: bool, full: bool)
    requires GoodSchema(S) && WellTyped(S, o)
    ensures Strip(Load(S, o.cls, Save(S, o, simplify, full))) == Strip(o) <==> Kept(S, o)
  {
    LoadSaved(S, o, Save(S, o, simplify, full), simplify, full);
  }

  // ------------------------------------------------------------- new objects

  // A new object of the class.
  function Fresh(S: Schema, cls: string): (o: Object)
    requires Sound(S) && cls in S
    ensures o.cls == cls && |o.values| == |S[cls].props|
    decreases S[cls].rank + 1, 2, 0
  {
    Object(cls, FreshProps(S, cls, 0))
  }

  function FreshProps(S: Schema, cls: string, i: nat): (r: seq<Value>)
    requires Sound(S) && cls in S && i <= |S[cls].props|
    ensures |r| == |S[cls].props| - i
    decreases S[cls].rank + 1, 1, |S[cls].props| - i
  {
    if i == |S[cls].props| then [] else [FreshValue(S, S[cls].props[i])] + FreshProps(S, cls, i + 1)
  }

  function FreshValue(S: Schema, p: Prop): Value
    requires Sound(S)
    decreases if p.type_ in S then S[p.type_].rank + 1 else 0, 3, 0
  {
    if p.type_ in S then Obj(Fresh(S, p.type_))
    else if p.type_ == ARRAY then Arr(Items(p.subType, []))
    else Prim(Initial(p), Truthy(p.default_))
  }

  lemma {:induction false} FreshAt(S: Schema, cls: string, i: nat, k: nat)
    requires Sound(S) && cls in S && i <= k < |S[cls].props|
    ensures FreshProps(S, cls, i)[k - i] == FreshValue(S, S[cls].props[k])
    decreases k - i
  {
    hide FreshValue;
    if i < k { FreshAt(S, cls, i + 1, k); }
  }

  // What a property declared without a default starts with, and what counts as one.
  lemma StartsWith(S: Schema, name: string, subType: string, d: Json)
    requires Sound(S) && forall t :: t in {"bool", "integer", "string", "object", "array"} ==> t !in S
    ensures Truthy(d) <==> d !in {Null, Bool(false), Num(0), Str("")}
    ensures Truthy(d) ==> forall t :: t in {"bool", "integer", "string", "object", "array"} ==>
              FreshValue(S, Prop(name, t, subType, d)) == Prim(d, true)
    ensures FreshValue(S, Prop(name, "bool", subType, Null)) == Prim(Bool(false), false)
    ensures FreshValue(S, Prop(name, "integer", subType, Null)) == Prim(Num(0), false)
    ensures FreshValue(S, Prop(name, "string", subType, Null)) == Prim(Str(""), false)
    ensures FreshValue(S, Prop(name, "object", subType, Null)) == Prim(Dict([]), false)
    ensures FreshValue(S, Prop(name, "array", subType, Null)) == Prim(List([]), false)
  {
    hide Fresh;
    TypeNames();
    assert |ARRAY| == 10;
  }

  lemma TypeNames()
    ensures "bool" != "string" && "bool" != "integer" && "bool" != "object" && "bool" != "array"
    ensures "integer" != "string" && "integer" != "object" && "integer" != "array"
    ensures "string" != "object" && "string" != "array" && "object" != "array"
  {
    assert "bool"[0] == 'b' && "integer"[0] == 'i' && "string"[0] == 's' && "object"[0] == 'o' && "array"[0] == 'a';
  }

  // A new object and one that loaded nothing differ only in what they share.
  lemma {:induction false} FreshLoads(S: Schema, cls: string)
    requires GoodSchema(S) && cls in S
    ensures Strip(Fresh(S, cls)) == Strip(Load(S, cls, Dict([])))
    decreases S[cls].rank
  {
    hide FreshValue, FromMember, StripValue, GoodProps;
    var props := S[cls].props;
    var fresh_, loaded := Fresh(S, cls), Load(S, cls, Dict([]));
    forall i | 0 <= i < |props| ensures StripAll(fresh_.values)[i] == StripAll(loaded.values)[i] {
      FreshAt(S, cls, 0, i);
      LoadedAt(S, cls, Dict([]), 0, i);
      StripAt(fresh_.values, i);
      StripAt(loaded.values, i);
      FreshValueLoads(S, cls, i);
    }
    assert StripAll(fresh_.values) == StripAll(loaded.values);
  }

  lemma {:induction false} FreshValueLoads(S: Schema, cls: string, i: nat)
    requires GoodSchema(S) && cls in S && i < |S[cls].props|
    ensures var p := S[cls].props[i]; StripValue(FreshValue(S, p)) == StripValue(FromMember(S, p, None))
    decreases S[cls].rank, 0
  {
    hide Fresh, Load;
    var p := S[cls].props[i];
    assert GoodProps(S[cls].props);
    if p.type_ in S { FreshLoads(S, p.type_); }
  }

  // An object or array declared without a default is saved by a new object but
  // not by one that loaded nothing, unless everything is simplified.
  lemma FreshShows(S: Schema, p: Prop)
    requires Sound(S) && p.type_ !in S && p.type_ in {"object", "array"} && !Truthy(p.default_) && p.name != "type"
    ensures !Dropped(S, p, FreshValue(S, p), true, false) && Dropped(S, p, FromMember(S, p, None), true, false)
  {
    assert |p.type_| != |ARRAY|;
  }

  // ------------------------------------------------------------- what is lost

  // A holder of components, components with a type, and forms.
  const SAMPLE: Schema := map[
    "holder" := Class(0, [Prop("items", ARRAY, "component", Null)]),
    "component" := Class(0, [Prop("type", "string", "", Str("component"))]),
    "form" := Class(0, [])]

  lemma SampleProps()
    ensures GoodProps([Prop("items", ARRAY, "component", Null)])
    ensures GoodProps([Prop("type", "string", "", Str("component"))]) && GoodProps([])
  {
    assert "items"[0] != "type"[0] && |"object_type"| > |"items"|;
    assert ARRAY[0] == 'b' && "object"[0] == 'o' && "array"[0] == 'a' && "string"[0] == 's';
  }

  lemma SampleIsGood()
    ensures GoodSchema(SAMPLE) && SAMPLE.Keys == {"holder", "component", "form"}
  {
    hide GoodProps;
    SampleProps();
    assert ARRAY[0] == 'b' && "holder"[0] == 'h' && "component"[0] == 'c' && "form"[0] == 'f' && "string"[0] == 's';
  }

  // A component whose type names another class comes back as that class.
  lemma ClassIsLost(simplify: bool, full: bool)
    ensures var o := Object("holder",
        [Arr(Items("component", [Held(Object("component", [Prim(Str("form"), false)]))]))]);
      && GoodSchema(SAMPLE) && WellTyped(SAMPLE, o)
      && Strip(Load(SAMPLE, "holder", Save(SAMPLE, o, simplify, full))) != Strip(o)
  {
    hide Strip, Load, Save, GoodSchema;
    SampleIsGood();
    var part := Object("component", [Prim(Str("form"), false)]);
    var items := [Held(part)];
    var o := Object("holder", [Arr(Items("component", items))]);
    var props := SAMPLE["component"].props;
    SampleComponent();
    assert items[1..] == [];
    assert WellTyped(SAMPLE, part);
    assert ItemsFit(SAMPLE, "component", items);
    SampleHolder(items);
    assert !KeptItem(SAMPLE, "component", items[0]);
    SaveLoad(SAMPLE, o, simplify, full);
  }

  lemma SampleComponent()
    ensures var part := Object("component", [Prim(Str("form"), false)]);
      && WellTyped(SAMPLE, part)
      && TypeOf(SAMPLE["component"].props, part.values) == Some(Str("form"))
      && Picked(SAMPLE, "component", None, Some(Str("form"))) == Some("form")
  {
    SampleIsGood();
  }

  lemma SampleHolder(items: seq<Item>)
    requires ItemsFit(SAMPLE, "component", items)
    ensures var o := Object("holder", [Arr(Items("component", items))]);
      WellTyped(SAMPLE, o) && (Kept(SAMPLE, o) ==> KeptItems(SAMPLE, "component", items))
  {
    hide KeptItems, ItemsFit;
    var o := Object("holder", [Arr(Items("component", items))]);
    var props := SAMPLE["holder"].props;
    assert props == [Prop("items", ARRAY, "component", Null)] && props[1..] == [] && o.values[1..] == [];
    assert Fits(SAMPLE, props[0], o.values[0]);
    assert AllFit(SAMPLE, props[1..], o.values[1..]);
    assert AllFit(SAMPLE, props, o.values);
    AllKeptAt(SAMPLE, props, o.values);
    assert Kept(SAMPLE, o) ==> KeptValue(SAMPLE, props[0], o.values[0]);
  }

  // A plain item of an array of components comes back as a component.
  lemma PlainIsLost(simplify: bool, full: bool)
    ensures var o := Object("holder", [Arr(Items("component", [Plain(Null)]))]);
      && GoodSchema(SAMPLE) && WellTyped(SAMPLE, o)
      && Strip(Load(SAMPLE, "holder", Save(SAMPLE, o, simplify, full))) != Strip(o)
  {
    hide Strip, Load, Save, GoodSchema;
    SampleIsGood();
    var items := [Plain(Null)];
    assert items[1..] == [];
    assert ItemsFit(SAMPLE, "component", items);
    SampleHolder(items);
    assert !KeptItem(SAMPLE, "component", items[0]);
    SaveLoad(SAMPLE, Object("holder", [Arr(Items("component", items))]), simplify, full);
  }
}
