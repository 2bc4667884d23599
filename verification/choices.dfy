/** `Choices`: a validated table of choice names, each with a database id
    and a display text, with lookups in both directions, the sorted
    `(id, text)` list a model field takes, subsets and merges. */
module Choices {
  import opened Wrappers
  import Text

  /** The `(db id, text)` tuple of one choice. */
  datatype Def = Def(id: int, text: string)

  datatype ChoicesError =
    | UnderscoreName           // ValueError: a name starts with `_`
    | ReservedName             // ValueError: a reserved name is used
    | DuplicateId              // ValueError: two names share an id
    | AttributeError(name: string)
    | KeyError

  /** A Choices object: the definitions and the two derived tables. */
  datatype Choices = Choices(defs: map<string, Def>, names: map<int, string>, texts: map<int, string>)

  /** `reserved_choice_names`. */
  function Reserved(): set<string> {
    {"contribute_to_class"}
  }

  /** The names the class body and `__init__` define, special methods
      included; an instance's normal lookup finds each of them before
      `__getattr__` is consulted. */
  const ChoicesMembers: set<string> :=
    {"reserved_choice_names", "__init__", "__add__", "choices", "get", "__getattr__",
     "name_of", "text_of", "tuples", "select", "__doc__", "__module__", "defs", "names", "texts"}

  /** Every name the normal lookup finds: `ChoicesMembers` and `inherited`,
      the names that come from `object` and from class creation
      (`__class__`, `__dict__`, `__repr__`, …). */
  function ClassAttributes(inherited: set<string>): (r: set<string>)
    ensures ChoicesMembers <= r && inherited <= r
    ensures forall n :: n in r ==> n in ChoicesMembers || n in inherited
  {
    ChoicesMembers + inherited
  }

  predicate HasUnderscoreName(defs: map<string, Def>) {
    exists k :: k in defs && Text.StartsWith(k, "_")
  }

  /** No two names share a database id. */
  predicate DistinctIds(defs: map<string, Def>) {
    forall a, b :: a in defs && b in defs && a != b ==> defs[a].id != defs[b].id
  }

  /** The ids in use. */
  function Ids(defs: map<string, Def>): set<int> {
    set k | k in defs :: defs[k].id
  }

  /** The object invariant: valid names, distinct ids, and `names`/`texts`
      keyed by id and agreeing with `defs`. */
  ghost predicate Valid(c: Choices) {
    && !HasUnderscoreName(c.defs)
    && c.defs.Keys * Reserved() == {}
    && DistinctIds(c.defs)
    && c.names.Keys == Ids(c.defs)
    && c.texts.Keys == Ids(c.defs)
    && (forall k :: k in c.defs ==> c.names[c.defs[k].id] == k)
    && (forall k :: k in c.defs ==> c.texts[c.defs[k].id] == c.defs[k].text)
  }

  /** `Choices(**defs)`: the underscore check, then the reserved-name
      check, then the duplicate-id check. */
  function New(defs: map<string, Def>): (r: Result<Choices, ChoicesError>)
    ensures HasUnderscoreName(defs) ==> r == Failure(UnderscoreName)
    ensures !HasUnderscoreName(defs) && defs.Keys * Reserved() != {} ==> r == Failure(ReservedName)
    ensures !HasUnderscoreName(defs) && defs.Keys * Reserved() == {} && !DistinctIds(defs) ==> r == Failure(DuplicateId)
    ensures r.Success? <==> !HasUnderscoreName(defs) && defs.Keys * Reserved() == {} && DistinctIds(defs)
    ensures r.Success? ==> Valid(r.value) && r.value.defs == defs
  {
    if HasUnderscoreName(defs) then Failure(UnderscoreName)
    else if defs.Keys * Reserved() != {} then Failure(ReservedName)
    else if !DistinctIds(defs) then Failure(DuplicateId)
    else
      var names := map k | k in defs :: defs[k].id := k;
      var texts := map k | k in defs :: defs[k].id := defs[k].text;
      assert names.Keys == Ids(defs);
      assert texts.Keys == Ids(defs);
      Success(Choices(defs, names, texts))
  }

  /** `get(name, default)`: the id of a defined name, else the default. */
  function Get(c: Choices, name: string, default: Option<int>): (r: Option<int>)
    ensures name in c.defs ==> r == Some(c.defs[name].id)
    ensures name !in c.defs ==> r == default
  {
    if name in c.defs then Some(c.defs[name].id) else default
  }

  /** What an attribute read yields: a choice's id, or the class's own
      member of that name. */
  datatype AttrValue = ChoiceId(id: int) | ClassMember

  /** Attribute access: the names the normal lookup finds first; then
      `__getattr__`, which refuses `_` names and reserved names with
      AttributeError and reads `defs[name][0]`, so an unknown name raises
      KeyError. */
  function GetAttr(c: Choices, inherited: set<string>, name: string): (r: Result<AttrValue, ChoicesError>)
    ensures name in ClassAttributes(inherited) ==> r == Success(ClassMember)
    ensures name !in ClassAttributes(inherited) && (Text.StartsWith(name, "_") || name in Reserved()) ==>
              r == Failure(AttributeError(name))
    ensures name !in ClassAttributes(inherited) && !Text.StartsWith(name, "_") && name !in Reserved() ==>
              r == (if name in c.defs then Success(ChoiceId(c.defs[name].id)) else Failure(KeyError))
  {
    if name in ClassAttributes(inherited) then Success(ClassMember)
    else if Text.StartsWith(name, "_") || name in Reserved() then Failure(AttributeError(name))
    else if name !in c.defs then Failure(KeyError)
    else Success(ChoiceId(c.defs[name].id))
  }

  /** The special methods the class defines are found by the normal
      lookup and never reach `__getattr__`'s refusal of `_` names; only an
      underscore name the lookup does not know is refused. */
  lemma SpecialMethodsFound(c: Choices, inherited: set<string>, name: string)
    ensures GetAttr(c, inherited, "__init__") == Success(ClassMember)
    ensures GetAttr(c, inherited, "__add__") == Success(ClassMember)
    ensures GetAttr(c, inherited, "__getattr__") == Success(ClassMember)
    ensures Text.StartsWith(name, "_") ==>
              (GetAttr(c, inherited, name).Failure? <==> name !in ChoicesMembers && name !in inherited)
  {
  }

  /** `name_of(id)`. */
  function NameOf(c: Choices, id: int): (r: Result<string, ChoicesError>)
    ensures id in c.names <==> r.Success?
    ensures r.Success? ==> r.value == c.names[id]
  {
    if id in c.names then Success(c.names[id]) else Failure(KeyError)
  }

  /** `text_of(id)`. */
  function TextOf(c: Choices, id: int): (r: Result<string, ChoicesError>)
    ensures id in c.texts <==> r.Success?
    ensures r.Success? ==> r.value == c.texts[id]
  {
    if id in c.texts then Success(c.texts[id]) else Failure(KeyError)
  }

  /** The id of a defined name leads back to that name and to its text,
      and an id no name has is unknown to both lookups. */
  lemma LookupRoundTrip(c: Choices, name: string, default: Option<int>)
    requires Valid(c)
    ensures name in c.defs ==> NameOf(c, Get(c, name, default).value) == Success(name)
    ensures name in c.defs ==> TextOf(c, Get(c, name, default).value) == Success(c.defs[name].text)
    ensures forall id :: id !in Ids(c.defs) ==> NameOf(c, id).Failure? && TextOf(c, id).Failure?
  {
  }

  /** Attribute access and `get` agree on every ordinary defined name. */
  lemma GetAttrAgreesWithGet(c: Choices, inherited: set<string>, name: string)
    requires name in c.defs && Valid(c) && name !in ClassAttributes(inherited)
    ensures GetAttr(c, inherited, name) == Success(ChoiceId(Get(c, name, None).value))
  {
  }

  // ---------------------------------------------------------------------
  // choices()

  predicate SortedById(s: seq<Def>) {
    forall i, j :: 0 <= i < j < |s| ==> s[i].id < s[j].id
  }

  /** The definitions in a set have distinct ids. */
  ghost predicate IdsDistinct(s: set<Def>) {
    forall a, b :: a in s && b in s && a.id == b.id ==> a == b
  }

  lemma {:induction false} MinExists(s: set<Def>)
    requires s != {}
    ensures exists m :: m in s && forall x :: x in s ==> m.id <= x.id
    decreases |s|
  {
    var y :| y in s;
    if s != {y} {
      MinExists(s - {y});
      var m :| m in s - {y} && forall x :: x in s - {y} ==> m.id <= x.id;
      if y.id < m.id {
        assert forall x :: x in s ==> y.id <= x.id;
      } else {
        assert forall x :: x in s ==> m.id <= x.id;
      }
    } else {
      assert forall x :: x in s ==> y.id <= x.id;
    }
  }

  /** The definitions of `s` in ascending id order. */
  function SortById(s: set<Def>): (r: seq<Def>)
    requires IdsDistinct(s)
    ensures |r| == |s|
    ensures forall x :: x in s <==> x in r
    ensures SortedById(r)
    decreases |s|
  {
    if s == {} then []
    else
      var m := MinDef(s);
      var rest := SortById(s - {m});
      SortStep(m, s, rest);
      [m] + rest
  }

  /** Putting the least definition in front of the ordered rest orders
      the whole set. */
  lemma SortStep(m: Def, s: set<Def>, rest: seq<Def>)
    requires m in s && IdsDistinct(s) && forall x :: x in s ==> m.id <= x.id
    requires forall x :: x in s - {m} <==> x in rest
    requires SortedById(rest)
    ensures forall x :: x in s <==> x in [m] + rest
    ensures SortedById([m] + rest)
  {
    assert forall x :: x in rest ==> m.id < x.id;
    assert forall x :: x in s ==> x == m || x in s - {m};
  }

  /** The definition with the smallest id. */
  function MinDef(s: set<Def>): (m: Def)
    requires s != {} && IdsDistinct(s)
    ensures m in s && forall x :: x in s ==> m.id <= x.id
  {
    MinExists(s);
    var m :| m in s && forall x :: x in s ==> m.id <= x.id;
    m
  }

  /** `choices()`: every `(id, text)` pair once, in ascending id order. */
  function ChoiceList(c: Choices): (r: seq<Def>)
    requires Valid(c)
    ensures |r| == |c.defs|
    ensures SortedById(r)
    ensures forall x :: x in r <==> x in c.defs.Values
  {
    var values := c.defs.Values;
    assert IdsDistinct(values);
    ValuesCard(c.defs);
    SortById(values)
  }

  lemma ValuesCard(defs: map<string, Def>)
    requires DistinctIds(defs)
    ensures |defs.Values| == |defs|
  {
    var f := map k | k in defs :: defs[k];
    assert defs.Values == set k | k in defs.Keys :: defs[k];
    InjectiveImageCard(defs.Keys, defs);
  }

  lemma {:induction false} InjectiveImageCard(keys: set<string>, defs: map<string, Def>)
    requires keys <= defs.Keys && DistinctIds(defs)
    ensures |set k | k in keys :: defs[k]| == |keys|
    decreases |keys|
  {
    if keys != {} {
      var k :| k in keys;
      InjectiveImageCard(keys - {k}, defs);
      var img := set x | x in keys :: defs[x];
      var rest := set x | x in keys - {k} :: defs[x];
      assert img == rest + {defs[k]};
      assert defs[k] !in rest;
    } else {
      assert (set k | k in keys :: defs[k]) == {};
    }
  }

  // ---------------------------------------------------------------------
  // select and +

  /** The `keys` argument of `select`: a list or tuple of names, or a
      single name that is wrapped in a list. */
  datatype KeysArg = OneKey(name: string) | KeyList(names: seq<string>)

  function KeyNames(keys: KeysArg): seq<string> {
    match keys
    case OneKey(n) => [n]
    case KeyList(ns) => ns
  }

  /** `select(keys)`: a new Choices with exactly the requested names that
      are defined; requesting unknown names is not an error. */
  function Select(c: Choices, keys: KeysArg): (r: Result<Choices, ChoicesError>)
    requires Valid(c)
    ensures r.Success?
    ensures r.value.defs.Keys == (set n | n in KeyNames(keys) && n in c.defs)
    ensures forall n :: n in r.value.defs ==> r.value.defs[n] == c.defs[n]
    ensures Valid(r.value)
  {
    var wanted := set n | n in KeyNames(keys) && n in c.defs;
    var sub := map n | n in wanted :: c.defs[n];
    assert !HasUnderscoreName(sub);
    New(sub)
  }

  /** `a + b`: the union of both definitions, `b` winning on a shared name,
      validated again, so that two names with one id raise. */
  function Add(a: Choices, b: Choices): (r: Result<Choices, ChoicesError>)
    requires Valid(a) && Valid(b)
    ensures r.Success? <==> DistinctIds(a.defs + b.defs)
    ensures r.Failure? ==> r.error == DuplicateId
    ensures r.Success? ==> Valid(r.value)
    ensures r.Success? ==> r.value.defs.Keys == a.defs.Keys + b.defs.Keys
    ensures r.Success? ==> forall n :: n in b.defs ==> r.value.defs[n] == b.defs[n]
    ensures r.Success? ==> forall n :: n in a.defs && n !in b.defs ==> r.value.defs[n] == a.defs[n]
  {
    var merged := a.defs + b.defs;
    assert !HasUnderscoreName(merged) by {
      forall k | k in merged ensures !Text.StartsWith(k, "_") {
        if k in b.defs { assert !Text.StartsWith(k, "_"); } else { assert k in a.defs; }
      }
    }
    New(merged)
  }

  /** Adding a table to itself gives it back. */
  lemma AddSelf(a: Choices)
    requires Valid(a)
    ensures Add(a, a).Success? && Add(a, a).value.defs == a.defs
  {
    assert a.defs + a.defs == a.defs;
  }

  lemma AcrossTables(d1: map<string, Def>, x: string, d2: map<string, Def>, y: string)
    requires x in d1 && y in d2 && Ids(d1) * Ids(d2) == {}
    ensures d1[x].id != d2[y].id
  {
    assert d1[x].id in Ids(d1);
    assert d1[x].id !in Ids(d1) * Ids(d2);
    assert d2[y].id in Ids(d2);
  }

  /** Two tables whose names and ids are disjoint always merge. */
  lemma AddDisjoint(a: Choices, b: Choices)
    requires Valid(a) && Valid(b)
    requires a.defs.Keys * b.defs.Keys == {} && Ids(a.defs) * Ids(b.defs) == {}
    ensures Add(a, b).Success?
  {
    var merged := a.defs + b.defs;
    forall x, y | x in merged && y in merged && x != y
      ensures merged[x].id != merged[y].id
    {
      if x in b.defs && y !in b.defs {
        AcrossTables(b.defs, x, a.defs, y);
      } else if x !in b.defs && y in b.defs {
        AcrossTables(a.defs, x, b.defs, y);
      }
    }
  }
}
