/** `AttrDict` and `OrderedAttrDict`: dictionaries whose items can also be
    read and written as attributes, with writes refused for names the
    dictionary class already defines. */
module AttrDict {
  import opened Wrappers

  datatype AttrError =
    | SetCollision(name: string)      // AttrDictSetCollision / OrderedAttrDictSetCollision
    | NoAttribute(name: string)       // AttributeError

  /** What reading an attribute finds: a member of the class (a method
      such as `keys`), or an item of the dictionary. */
  datatype Found<V> = ClassMember(name: string) | Item(value: V)

  // ---------------------------------------------------------------------
  // AttrDict

  /** `setattr(d, name, value)`. `classAttrs` is the set of names for which
      `hasattr(dict, name)` holds. */
  function SetAttr<V>(classAttrs: set<string>, d: map<string, V>, name: string, value: V): (r: Result<map<string, V>, AttrError>)
    ensures name in classAttrs <==> r.Failure?
    ensures r.Failure? ==> r.error == SetCollision(name)
    ensures r.Success? ==> r.value == d[name := value]
  {
    if name in classAttrs then Failure(SetCollision(name)) else Success(d[name := value])
  }

  /** `getattr(d, name)`. `readAttrs` is the set of names an instance's
      normal lookup finds in `AttrDict`, `dict` and `object` (not the
      metaclass, so `mro` is absent while `__getattr__` is present). Those
      win; only then does `__getattr__` read the item, a missing key
      becoming AttributeError. */
  function GetAttr<V>(readAttrs: set<string>, d: map<string, V>, name: string): (r: Result<Found<V>, AttrError>)
    ensures name in readAttrs ==> r == Success(ClassMember(name))
    ensures name !in readAttrs ==> (r.Success? <==> name in d)
    ensures name !in readAttrs && name in d ==> r == Success(Item(d[name]))
    ensures name !in readAttrs && name !in d ==> r == Failure(NoAttribute(name))
  {
    if name in readAttrs then Success(ClassMember(name))
    else if name in d then Success(Item(d[name]))
    else Failure(NoAttribute(name))
  }

  /** The methods `AttrDict` itself defines; an instance's lookup finds
      each of them before any item. */
  const AttrDictMethods: set<string> :=
    {"__setattr__", "__getattr__", "__getstate__", "__setstate__", "__repr__"}

  /** Writing an attribute that neither the write test nor the read lookup
      knows, and reading it back, gives the value, and leaves every other
      item as it was. */
  lemma SetThenGet<V>(classAttrs: set<string>, readAttrs: set<string>, d: map<string, V>, name: string, value: V, other: string)
    requires name !in classAttrs && name !in readAttrs
    ensures GetAttr(readAttrs, SetAttr(classAttrs, d, name, value).value, name) == Success(Item(value))
    ensures other != name ==>
              GetAttr(readAttrs, SetAttr(classAttrs, d, name, value).value, other) == GetAttr(readAttrs, d, other)
  {
  }

  /** The write test and the read lookup disagree in both directions: a
      name `AttrDict` defines but `dict` does not (such as `__getattr__`)
      is stored as an item yet reads as the method, and a name only the
      metaclass offers (such as `mro`) is refused as a write yet reads as
      the item. */
  lemma WriteAndReadDisagree<V>(classAttrs: set<string>, readAttrs: set<string>, d: map<string, V>, value: V)
    requires "__getattr__" !in classAttrs && AttrDictMethods <= readAttrs
    requires "mro" in classAttrs && "mro" !in readAttrs && "mro" in d
    ensures SetAttr(classAttrs, d, "__getattr__", value).Success?
    ensures GetAttr(readAttrs, SetAttr(classAttrs, d, "__getattr__", value).value, "__getattr__")
            == Success(ClassMember("__getattr__"))
    ensures SetAttr(classAttrs, d, "mro", value) == Failure(SetCollision("mro"))
    ensures GetAttr(readAttrs, d, "mro") == Success(Item(d["mro"]))
  {
  }

  /** The public methods of `dict`; every one of them is refused as an
      attribute to write. */
  const DictMethods: set<string> :=
    {"clear", "copy", "fromkeys", "get", "items", "keys", "pop", "popitem", "setdefault", "update", "values"}

  lemma MethodNamesRefused<V>(classAttrs: set<string>, d: map<string, V>, name: string, value: V)
    requires DictMethods <= classAttrs && name in DictMethods
    ensures SetAttr(classAttrs, d, name, value) == Failure(SetCollision(name))
  {
  }

  // ---------------------------------------------------------------------
  // OrderedAttrDict

  /** An ordered dictionary: its keys in insertion order and its items,
      plus the instance's own attributes (the private `_OrderedDict__`
      names the base class keeps). */
  datatype Ordered<V> = Ordered(order: seq<string>, items: map<string, V>, own: map<string, V>)

  ghost predicate Valid<V>(o: Ordered<V>) {
    && (forall i, j :: 0 <= i < j < |o.order| ==> o.order[i] != o.order[j])
    && (forall k :: k in o.items <==> k in o.order)
  }

  const PrivatePrefix: string := "_OrderedDict__"

  predicate IsPrivate(name: string) {
    |name| >= |PrivatePrefix| && name[..|PrivatePrefix|] == PrivatePrefix
  }

  /** `o[key] = value`: a new key goes last, an existing one keeps its
      place. */
  function SetItem<V>(o: Ordered<V>, key: string, value: V): (r: Ordered<V>)
    requires Valid(o)
    ensures Valid(r)
    ensures r.items == o.items[key := value] && r.own == o.own
    ensures key in o.items ==> r.order == o.order
    ensures key !in o.items ==> r.order == o.order + [key]
  {
    if key in o.items then o.(items := o.items[key := value])
    else Ordered(o.order + [key], o.items[key := value], o.own)
  }

  /** `setattr(o, name, value)`: private names go to the instance's own
      attributes, names `OrderedDict` defines are refused, any other name
      sets the item. */
  function SetAttrOrdered<V>(classAttrs: set<string>, o: Ordered<V>, name: string, value: V): (r: Result<Ordered<V>, AttrError>)
    requires Valid(o)
    ensures r.Success? ==> Valid(r.value)
    ensures IsPrivate(name) ==> r == Success(o.(own := o.own[name := value]))
    ensures !IsPrivate(name) && name in classAttrs ==> r == Failure(SetCollision(name))
    ensures !IsPrivate(name) && name !in classAttrs ==> r == Success(SetItem(o, name, value))
  {
    if IsPrivate(name) then Success(o.(own := o.own[name := value]))
    else if name in classAttrs then Failure(SetCollision(name))
    else Success(SetItem(o, name, value))
  }

  /** `getattr(o, name)`: the instance's own attributes, then the names
      the class lookup finds (`readAttrs`, as for `GetAttr`), then the item;
      a missing key raises AttributeError. */
  function GetAttrOrdered<V>(readAttrs: set<string>, o: Ordered<V>, name: string): (r: Result<Found<V>, AttrError>)
    ensures name in o.own ==> r == Success(Item(o.own[name]))
    ensures name !in o.own && name in readAttrs ==> r == Success(ClassMember(name))
    ensures name !in o.own && name !in readAttrs ==>
              (if name in o.items then r == Success(Item(o.items[name])) else r == Failure(NoAttribute(name)))
  {
    if name in o.own then Success(Item(o.own[name]))
    else if name in readAttrs then Success(ClassMember(name))
    else if name in o.items then Success(Item(o.items[name]))
    else Failure(NoAttribute(name))
  }

  /** An attribute set on an ordered dictionary reads back: a private name
      from the instance's own attributes, any other name from the items
      when neither an instance attribute nor the class lookup shadows it.
      Other names read as before. */
  lemma SetThenGetOrdered<V>(classAttrs: set<string>, readAttrs: set<string>, o: Ordered<V>, name: string, value: V, other: string)
    requires Valid(o) && SetAttrOrdered(classAttrs, o, name, value).Success?
    requires IsPrivate(name) || (name !in o.own && name !in readAttrs)
    ensures GetAttrOrdered(readAttrs, SetAttrOrdered(classAttrs, o, name, value).value, name) == Success(Item(value))
    ensures other != name ==>
              GetAttrOrdered(readAttrs, SetAttrOrdered(classAttrs, o, name, value).value, other)
              == GetAttrOrdered(readAttrs, o, other)
  {
  }

  /** `OrderedAttrDict` defines `__getattr__` but `OrderedDict` does not:
      writing it stores an item that the read finds shadowed by the
      method. */
  lemma OrderedGetattrShadowed<V>(classAttrs: set<string>, readAttrs: set<string>, o: Ordered<V>, value: V)
    requires Valid(o) && "__getattr__" !in classAttrs && "__getattr__" in readAttrs && "__getattr__" !in o.own
    ensures SetAttrOrdered(classAttrs, o, "__getattr__", value).Success?
    ensures "__getattr__" in SetAttrOrdered(classAttrs, o, "__getattr__", value).value.items
    ensures GetAttrOrdered(readAttrs, SetAttrOrdered(classAttrs, o, "__getattr__", value).value, "__getattr__")
            == Success(ClassMember("__getattr__"))
  {
    assert !IsPrivate("__getattr__");
  }

  /** Setting `a`, then `b`, then `a` again on an empty ordered
      dictionary lists `a` before `b` and keeps the last value of `a`. */
  lemma SetItemKeepsFirstPlace<V>(o: Ordered<V>, a: string, b: string, x: V, y: V, z: V)
    requires Valid(o) && o.order == [] && o.items == map[] && a != b
    ensures var o3 := SetItem(SetItem(SetItem(o, a, x), b, y), a, z);
            o3.order == [a, b] && o3.items == map[a := z, b := y]
  {
    var o1 := SetItem(o, a, x);
    var o2 := SetItem(o1, b, y);
    var o3 := SetItem(o2, a, z);
    MapRewrite(a, b, x, y, z);
  }

  lemma MapRewrite<V>(a: string, b: string, x: V, y: V, z: V)
    requires a != b
    ensures map[a := x][b := y][a := z] == map[a := z, b := y]
  {
  }

  /** Writing attributes `a`, `b`, `a` through `setattr` lists the keys in
      first-write order. */
  lemma OrderIsFirstWrite<V>(classAttrs: set<string>, o: Ordered<V>, a: string, b: string, x: V, y: V, z: V)
    requires Valid(o) && o.order == [] && o.items == map[]
    requires a != b && !IsPrivate(a) && !IsPrivate(b) && a !in classAttrs && b !in classAttrs
    ensures var o1 := SetAttrOrdered(classAttrs, o, a, x).value;
            var o2 := SetAttrOrdered(classAttrs, o1, b, y).value;
            var o3 := SetAttrOrdered(classAttrs, o2, a, z).value;
            o3.order == [a, b] && o3.items == map[a := z, b := y]
  {
    SetItemKeepsFirstPlace(o, a, b, x, y, z);
  }
}
