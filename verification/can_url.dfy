/** The view-name table of a URL configuration and the `can_url` query
    built on it: a walk over the resolver tree that names every pattern
    `ns1:ns2:name` and refuses two patterns with one name but different
    permission definitions, and the access test for a view given by name,
    dotted path or callable. */
module CanUrl {
  import opened Wrappers
  import Text
  import UrlPatterns

  /** A node of the resolver tree: a nested resolver with its namespace
      (`""` for none) and its own patterns, or a URL pattern with its
      optional name and its callback. */
  datatype Entry =
    | Resolver(namespace: string, children: seq<Entry>)
    | Route(name: Option<string>, view: UrlPatterns.View)

  /** `get_all_callbacks`' result: full view name to callback. */
  type Table = map<string, UrlPatterns.View>

  datatype CanUrlError =
    | Conflict(name: string)     // RuntimeError: one name, different perms
    | NoReverseMatch(view: string)
    | NotDecorated               // NoReverseMatch: no can_url_func
    | ImportFailed(message: string)
    | NotIterable                // TypeError of `':' not in view`

  /** `getattr(callback, 'can_url_perms', None)`. */
  function Perms(v: UrlPatterns.View): Option<UrlPatterns.PermsSpec> {
    if v.guard.Some? then Some(v.guard.value.spec) else None
  }

  /** The namespace inside a nested resolver: the resolver's own namespace
      appended with `:` when the outer one is non-empty; an empty one
      inherits the outer namespace. */
  function Nest(outer: string, inner: string): (r: string)
    ensures inner == "" ==> r == outer
    ensures inner != "" ==> |inner| <= |r| && r[|r| - |inner|..] == inner
    ensures inner != "" && outer != "" ==> |outer| < |r| && r[..|outer| + 1] == outer + ":"
  {
    if inner == "" then outer else outer + (if outer == "" then "" else ":") + inner
  }

  /** The full name of a pattern named `name` in namespace `ns`. */
  function Qualify(ns: string, name: string): (r: string)
    ensures ns == "" ==> r == name
    ensures |name| <= |r| && r[|r| - |name|..] == name
    ensures ns != "" ==> |ns| < |r| && r[..|ns| + 1] == ns + ":"
  {
    ns + (if ns == "" then "" else ":") + name
  }

  /** Storing one callback: a name already present with different perms
      raises; otherwise the later callback replaces the earlier one. */
  function Store(table: Table, key: string, view: UrlPatterns.View): (r: Result<Table, CanUrlError>)
    ensures r.Failure? <==> key in table && Perms(table[key]) != Perms(view)
    ensures r.Failure? ==> r.error == Conflict(key)
    ensures r.Success? ==> r.value == table[key := view]
  {
    if key in table && Perms(table[key]) != Perms(view) then Failure(Conflict(key))
    else Success(table[key := view])
  }

  // ---------------------------------------------------------------------
  // the walk of get_all_callbacks, as written

  function WalkList(es: seq<Entry>, ns: string, table: Table): (r: Result<Table, CanUrlError>)
    ensures r.Failure? ==> r.error.Conflict?
    ensures r.Success? ==> table.Keys <= r.value.Keys
    decreases es
  {
    if |es| == 0 then Success(table)
    else
      var next :- WalkEntry(es[0], ns, table);
      WalkList(es[1..], ns, next)
  }

  function WalkEntry(e: Entry, ns: string, table: Table): (r: Result<Table, CanUrlError>)
    ensures r.Failure? ==> r.error.Conflict?
    ensures r.Success? ==> table.Keys <= r.value.Keys
    decreases e
  {
    match e
    case Resolver(inner, children) => WalkList(children, Nest(ns, inner), table)
    case Route(None, _) => Success(table)
    case Route(Some(name), view) => Store(table, Qualify(ns, name), view)
  }

  // ---------------------------------------------------------------------
  // the reference: the named patterns in walk order, keyed by their path

  /** The named patterns below `es`, in walk order, each with its full name:
      the non-empty namespaces on its path and its own name joined by `:`. */
  function FlattenList(es: seq<Entry>, path: seq<string>): seq<(string, UrlPatterns.View)>
    decreases es
  {
    if |es| == 0 then [] else FlattenEntry(es[0], path) + FlattenList(es[1..], path)
  }

  function FlattenEntry(e: Entry, path: seq<string>): seq<(string, UrlPatterns.View)>
    decreases e
  {
    match e
    case Resolver(inner, children) => FlattenList(children, if inner == "" then path else path + [inner])
    case Route(None, _) => []
    case Route(Some(name), view) => [(Text.Join(path + [name], ":"), view)]
  }

  /** Storing the items one after the other, stopping at the first
      conflict. */
  function Build(items: seq<(string, UrlPatterns.View)>, table: Table): Result<Table, CanUrlError>
    decreases |items|
  {
    if |items| == 0 then Success(table)
    else
      var next :- Store(table, items[0].0, items[0].1);
      Build(items[1..], next)
  }

  ghost predicate NonEmptyParts(path: seq<string>) {
    forall i :: 0 <= i < |path| ==> path[i] != ""
  }

  /** The namespace string of a path of non-empty namespaces is empty
      exactly when the path is. */
  lemma JoinEmptyIff(path: seq<string>)
    requires NonEmptyParts(path)
    ensures Text.Join(path, ":") == "" <==> path == []
  {
    if |path| > 0 {
      Text.JoinHead(path, ":");
    }
  }

  /** `Nest` and `Qualify` extend the joined path by one part. */
  lemma NestJoin(path: seq<string>, inner: string)
    requires NonEmptyParts(path) && inner != ""
    ensures Nest(Text.Join(path, ":"), inner) == Text.Join(path + [inner], ":")
  {
    QualifyJoin(path, inner);
  }

  lemma QualifyJoin(path: seq<string>, name: string)
    requires NonEmptyParts(path)
    ensures Qualify(Text.Join(path, ":"), name) == Text.Join(path + [name], ":")
  {
    JoinEmptyIff(path);
    if |path| > 0 {
      Text.JoinAppend(path, name, ":");
    } else {
      assert path + [name] == [name];
    }
  }

  /** Building from a concatenation builds from each part in turn. */
  lemma {:induction false} BuildAppend(a: seq<(string, UrlPatterns.View)>, b: seq<(string, UrlPatterns.View)>, table: Table)
    ensures Build(a + b, table) == (match Build(a, table) case Failure(e) => Failure(e) case Success(t) => Build(b, t))
    decreases |a|
  {
    if |a| > 0 {
      assert (a + b)[0] == a[0];
      assert (a + b)[1..] == a[1..] + b;
      var s := Store(table, a[0].0, a[0].1);
      if s.Success? {
        BuildAppend(a[1..], b, s.value);
      }
    } else {
      assert a + b == b;
    }
  }

  /** The walk stores exactly the flattened patterns, in order. */
  lemma {:induction false} WalkListFlatten(es: seq<Entry>, path: seq<string>, table: Table)
    requires NonEmptyParts(path)
    ensures WalkList(es, Text.Join(path, ":"), table) == Build(FlattenList(es, path), table)
    decreases es
  {
    if |es| > 0 {
      WalkEntryFlatten(es[0], path, table);
      BuildAppend(FlattenEntry(es[0], path), FlattenList(es[1..], path), table);
      var first := WalkEntry(es[0], Text.Join(path, ":"), table);
      if first.Success? {
        WalkListFlatten(es[1..], path, first.value);
      }
    }
  }

  lemma {:induction false} WalkEntryFlatten(e: Entry, path: seq<string>, table: Table)
    requires NonEmptyParts(path)
    ensures WalkEntry(e, Text.Join(path, ":"), table) == Build(FlattenEntry(e, path), table)
    decreases e
  {
    match e
    case Resolver(inner, children) =>
      if inner == "" {
        WalkListFlatten(children, path, table);
      } else {
        NestJoin(path, inner);
        WalkListFlatten(children, path + [inner], table);
      }
    case Route(None, _) =>
    case Route(Some(name), view) =>
      QualifyJoin(path, name);
      var key := Text.Join(path + [name], ":");
      assert Build([(key, view)], table) == Store(table, key, view);
  }

  // ---------------------------------------------------------------------
  // what Build computes

  /** Names that occur among the items. */
  ghost function ItemKeys(items: seq<(string, UrlPatterns.View)>): set<string> {
    set i | 0 <= i < |items| :: items[i].0
  }

  /** No later item carries the same name as item `i`. */
  ghost predicate IsLast(items: seq<(string, UrlPatterns.View)>, i: nat)
    requires i < |items|
  {
    forall j :: i < j < |items| ==> items[j].0 != items[i].0
  }

  /** Every item agrees on its perms with the table's entry of the same name
      and with every other item of the same name. */
  ghost predicate Agrees(table: Table, items: seq<(string, UrlPatterns.View)>) {
    && (forall i :: 0 <= i < |items| && items[i].0 in table ==> Perms(table[items[i].0]) == Perms(items[i].1))
    && (forall i, j :: 0 <= i < j < |items| && items[i].0 == items[j].0 ==> Perms(items[i].1) == Perms(items[j].1))
  }

  /** Item `i` is the first whose name repeats with different perms: the
      items before it agree, and adding it breaks the agreement. */
  ghost predicate FirstConflict(table: Table, items: seq<(string, UrlPatterns.View)>, i: int) {
    0 <= i < |items| && Agrees(table, items[..i]) && !Agrees(table, items[..i + 1])
  }

  /** The first conflict among the items after the head, once the head
      is stored, is the first conflict of the whole list. */
  lemma FirstConflictStep(table: Table, items: seq<(string, UrlPatterns.View)>, i: nat)
    requires |items| > 0
    requires items[0].0 in table ==> Perms(table[items[0].0]) == Perms(items[0].1)
    requires FirstConflict(table[items[0].0 := items[0].1], items[1..], i)
    ensures FirstConflict(table, items, i + 1)
  {
    AgreesStep(table, items[..i + 1]);
    AgreesStep(table, items[..i + 2]);
    assert items[..i + 1][1..] == items[1..][..i];
    assert items[..i + 2][1..] == items[1..][..i + 1];
  }

  lemma AgreesStep(table: Table, items: seq<(string, UrlPatterns.View)>)
    requires |items| > 0
    ensures Agrees(table, items) <==>
              && (items[0].0 in table ==> Perms(table[items[0].0]) == Perms(items[0].1))
              && Agrees(table[items[0].0 := items[0].1], items[1..])
  {
    var rest := items[1..];
    var next := table[items[0].0 := items[0].1];
    assert forall j :: 1 <= j < |items| ==> items[j] == rest[j - 1];
    if Agrees(table, items) {
      forall i | 0 <= i < |rest| && rest[i].0 in next
        ensures Perms(next[rest[i].0]) == Perms(rest[i].1)
      {
        assert rest[i] == items[i + 1];
      }
      forall i, j | 0 <= i < j < |rest| && rest[i].0 == rest[j].0
        ensures Perms(rest[i].1) == Perms(rest[j].1)
      {
        assert rest[i] == items[i + 1] && rest[j] == items[j + 1];
      }
    }
    if && (items[0].0 in table ==> Perms(table[items[0].0]) == Perms(items[0].1))
       && Agrees(next, rest) {
      forall i | 0 <= i < |items| && items[i].0 in table
        ensures Perms(table[items[i].0]) == Perms(items[i].1)
      {
        if i > 0 {
          assert items[i] == rest[i - 1];
          if items[i].0 == items[0].0 {
            assert Perms(next[rest[i - 1].0]) == Perms(rest[i - 1].1);
          }
        }
      }
      forall i, j | 0 <= i < j < |items| && items[i].0 == items[j].0
        ensures Perms(items[i].1) == Perms(items[j].1)
      {
        assert items[j] == rest[j - 1];
        if i > 0 {
          assert items[i] == rest[i - 1];
        } else {
          assert rest[j - 1].0 in next;
        }
      }
    }
  }

  /** Building succeeds exactly when the items agree with the table and
      with each other; the result holds the table's other entries and, for
      every name among the items, the callback of its last occurrence. */
  lemma {:induction false} BuildFacts(items: seq<(string, UrlPatterns.View)>, table: Table)
    ensures Build(items, table).Success? <==> Agrees(table, items)
    ensures Build(items, table).Failure? ==>
              exists i :: FirstConflict(table, items, i) && Build(items, table).error == Conflict(items[i].0)
    ensures Build(items, table).Success? ==> Build(items, table).value.Keys == table.Keys + ItemKeys(items)
    ensures Build(items, table).Success? ==>
              forall k :: k in table && k !in ItemKeys(items) ==> Build(items, table).value[k] == table[k]
    ensures Build(items, table).Success? ==>
              forall i :: 0 <= i < |items| && IsLast(items, i) ==> Build(items, table).value[items[i].0] == items[i].1
    decreases |items|
  {
    if |items| > 0 {
      var rest := items[1..];
      var next := table[items[0].0 := items[0].1];
      AgreesStep(table, items);
      assert forall j :: 1 <= j < |items| ==> items[j] == rest[j - 1];
      assert ItemKeys(items) == {items[0].0} + ItemKeys(rest) by {
        forall k | k in ItemKeys(items) ensures k in {items[0].0} + ItemKeys(rest) {
          var i :| 0 <= i < |items| && items[i].0 == k;
          if i > 0 { assert rest[i - 1].0 == k; }
        }
        forall k | k in ItemKeys(rest) ensures k in ItemKeys(items) {
          var i :| 0 <= i < |rest| && rest[i].0 == k;
          assert items[i + 1].0 == k;
        }
      }
      var s := Store(table, items[0].0, items[0].1);
      if s.Failure? {
        AgreesStep(table, items[..1]);
        assert items[..1][1..] == [];
        assert FirstConflict(table, items, 0);
      } else {
        BuildFacts(rest, next);
        if Build(rest, next).Failure? {
          var i :| FirstConflict(next, rest, i) && Build(rest, next).error == Conflict(rest[i].0);
          FirstConflictStep(table, items, i);
        }
        var r := Build(items, table);
        if r.Success? {
          forall i | 0 <= i < |items| && IsLast(items, i)
            ensures r.value[items[i].0] == items[i].1
          {
            if i > 0 {
              assert items[i] == rest[i - 1];
              assert IsLast(rest, i - 1);
            } else if |rest| > 0 {
              assert items[0].0 !in ItemKeys(rest);
            }
          }
        }
      }
    }
  }

  /** With `a`, then `b` twice with different perms, the error names
      `b`, the repeated name, never `a`. */
  lemma ConflictNamesRepeat(v1: UrlPatterns.View, v2: UrlPatterns.View)
    requires Perms(v1) != Perms(v2)
    ensures Build([("a", v1), ("b", v1), ("b", v2)], map[]) == Failure(Conflict("b"))
  {
    var items := [("a", v1), ("b", v1), ("b", v2)];
    BuildFacts(items, map[]);
    assert !Agrees(map[], items) by {
      assert items[1].0 == items[2].0 && Perms(items[1].1) != Perms(items[2].1);
    }
    var i :| FirstConflict(map[], items, i) && Build(items, map[]).error == Conflict(items[i].0);
    assert Agrees(map[], items[..1]) by {
      assert items[..1] == [("a", v1)];
    }
    assert Agrees(map[], items[..2]) by {
      assert items[..2] == [("a", v1), ("b", v1)];
    }
    assert i == 2;
  }

  // ---------------------------------------------------------------------
  // get_all_callbacks

  /** `get_all_callbacks`: walks the root's patterns with the empty
      namespace. It fails exactly when two patterns with one full name have
      different perms, naming the first pattern in walk order whose perms
      differ from an earlier one of that name; on success every named pattern
      is in the table and each name holds the callback of its last
      pattern. */
  function GetAllCallbacks(patterns: seq<Entry>): (r: Result<Table, CanUrlError>)
    ensures var items := FlattenList(patterns, []);
            r.Success? <==> Agrees(map[], items)
    ensures var items := FlattenList(patterns, []);
            r.Failure? ==> exists i :: FirstConflict(map[], items, i) && r.error == Conflict(items[i].0)
    ensures var items := FlattenList(patterns, []);
            r.Success? ==> r.value.Keys == ItemKeys(items)
    ensures var items := FlattenList(patterns, []);
            r.Success? ==> forall i :: 0 <= i < |items| && IsLast(items, i) ==> r.value[items[i].0] == items[i].1
  {
    WalkListFlatten(patterns, [], map[]);
    BuildFacts(FlattenList(patterns, []), map[]);
    WalkList(patterns, "", map[])
  }

  /** A namespace-less resolver adds nothing to the names below it, and a
      named one prefixes them with `ns:`. */
  lemma NamespaceExample(v: UrlPatterns.View)
    ensures GetAllCallbacks([Resolver("app", [Resolver("", [Route(Some("detail"), v)])])]) == Success(map["app:detail" := v])
    ensures GetAllCallbacks([Route(Some("detail"), v), Route(None, v)]) == Success(map["detail" := v])
  {
    var route := Route(Some("detail"), v);
    var inner := Resolver("", [route]);
    var done := Success(map["app:detail" := v]);
    assert Qualify("app", "detail") == "app:detail";
    assert WalkEntry(route, "app", map[]) == done;
    assert [route][1..] == [];
    assert WalkList([route], "app", map[]) == done;
    assert WalkEntry(inner, "app", map[]) == done;
    assert [inner][1..] == [];
    assert WalkList([inner], "app", map[]) == done;
    assert Nest("", "app") == "app";
    var outer := Resolver("app", [inner]);
    assert WalkEntry(outer, "", map[]) == done;
    assert [outer][1..] == [];
    assert WalkList([outer], "", map[]) == done;
    var two := [route, Route(None, v)];
    assert Qualify("", "detail") == "detail";
    assert two[1..][1..] == [];
    assert WalkEntry(route, "", map[]) == Success(map["detail" := v]);
    assert WalkList(two[1..], "", map["detail" := v]) == Success(map["detail" := v]);
    assert WalkList(two, "", map[]) == Success(map["detail" := v]);
  }

  // ---------------------------------------------------------------------
  // can_url

  /** How `can_url` names a view: a callable, or text (a dotted import path
      or a possibly namespaced view name). */
  datatype ViewArg = CallableArg(view: UrlPatterns.View) | TextArg(text: string)

  /** What `get_callable` does with a text: imports a callable, gives the
      text back unchanged, or raises. */
  datatype Lookup = Imported(view: UrlPatterns.View) | KeptText | Raises(message: string)

  /** The URL configuration and the import machinery `can_url` consults. */
  datatype Env = Env(patterns: seq<Entry>, getCallable: string -> Lookup)

  /** What `can_url` returns: the set from the view's check, or False when
      the check raised PermissionDenied. */
  datatype Answer = AliasSet(aliases: set<UrlPatterns.Alias>) | FalseValue {
    predicate Truthy() {
      AliasSet? && aliases != {}
    }
  }

  /** The callback registered under a full name. */
  function FromTable(env: Env, name: string): (r: Result<UrlPatterns.View, CanUrlError>)
    ensures GetAllCallbacks(env.patterns).Failure? ==> r == Failure(GetAllCallbacks(env.patterns).error)
    ensures GetAllCallbacks(env.patterns).Success? ==>
              var table := GetAllCallbacks(env.patterns).value;
              r == (if name in table then Success(table[name]) else Failure(NoReverseMatch(name)))
  {
    var table :- GetAllCallbacks(env.patterns);
    if name !in table then Failure(NoReverseMatch(name)) else Success(table[name])
  }

  /** Text without `:` goes through `get_callable` first; text with `:` and
      text `get_callable` gives back are looked up in the table. */
  function ResolveText(env: Env, text: string): Result<UrlPatterns.View, CanUrlError> {
    if ':' !in text then
      match env.getCallable(text)
      case Imported(v) => Success(v)
      case Raises(m) => Failure(ImportFailed(m))
      case KeptText => FromTable(env, text)
    else FromTable(env, text)
  }

  /** Running the view's check: PermissionDenied becomes False. */
  function RunCheck(view: UrlPatterns.View, user: UrlPatterns.User): (r: Result<Answer, CanUrlError>)
    ensures view.guard.None? <==> r == Failure(NotDecorated)
    ensures view.guard.Some? ==>
              var g := view.guard.value;
              r == Success(
                if UrlPatterns.AllGroupsMet(g.compiled, user) then AliasSet(UrlPatterns.AllAliases(g.compiled, user))
                else if g.raiseException then FalseValue
                else AliasSet({}))
  {
    match view.guard
    case None => Failure(NotDecorated)
    case Some(g) =>
      match UrlPatterns.CanUrlCheck(g.compiled, user, g.raiseException)
      case Failure(_) => Success(FalseValue)
      case Success(s) => Success(AliasSet(s))
  }

  /** `can_url` as written: the `':' not in view` test runs on every
      argument, and on a function object it raises TypeError. */
  function CanUrlAsWritten(env: Env, user: UrlPatterns.User, arg: ViewArg): (r: Result<Answer, CanUrlError>)
    ensures arg.CallableArg? ==> r == Failure(NotIterable)
    ensures arg.TextArg? ==> r == CanUrlOf(env, user, arg)
  {
    match arg
    case CallableArg(_) => Failure(NotIterable)
    case TextArg(t) =>
      var view :- ResolveText(env, t);
      RunCheck(view, user)
  }

  /** A view passed as a callable, as the docstring allows, never reaches
      its check in the code as written. */
  lemma CallableRejectedAsWritten(env: Env, user: UrlPatterns.User, v: UrlPatterns.View)
    ensures CanUrlAsWritten(env, user, CallableArg(v)) == Failure(NotIterable)
    ensures v.guard.Some? ==> CanUrlOf(env, user, CallableArg(v)).Success?
  {
  }

  /** `can_url` with callables accepted as documented: the view is found,
      must carry a check, and the check's answer is returned with
      PermissionDenied turned into False. */
  function CanUrlOf(env: Env, user: UrlPatterns.User, arg: ViewArg): (r: Result<Answer, CanUrlError>)
    ensures arg.CallableArg? ==> r == RunCheck(arg.view, user)
    ensures arg.TextArg? && ':' in arg.text ==>
              match FromTable(env, arg.text)
              case Failure(e) => r == Failure(e)
              case Success(v) => r == RunCheck(v, user)
    ensures arg.TextArg? && ':' in arg.text && GetAllCallbacks(env.patterns).Success?
              && arg.text !in GetAllCallbacks(env.patterns).value ==>
              r == Failure(NoReverseMatch(arg.text))
    ensures arg.TextArg? && ':' !in arg.text && env.getCallable(arg.text).Imported? ==>
              r == RunCheck(env.getCallable(arg.text).view, user)
  {
    var view :- match arg
                case CallableArg(v) => Success(v)
                case TextArg(t) => ResolveText(env, t);
    RunCheck(view, user)
  }

  /** `CanUrl(user)[name]`: the template helper's item access. */
  function GetItem(env: Env, user: UrlPatterns.User, name: string): (r: Result<Answer, CanUrlError>)
    ensures r == CanUrlOf(env, user, TextArg(name))
  {
    CanUrlOf(env, user, TextArg(name))
  }

  /** `name in CanUrl(user)`: Python turns the answer into a boolean. */
  function Contains(env: Env, user: UrlPatterns.User, name: string): (r: Result<bool, CanUrlError>)
    ensures GetItem(env, user, name).Failure? ==> r == Failure(GetItem(env, user, name).error)
    ensures GetItem(env, user, name).Success? ==> r == Success(GetItem(env, user, name).value.Truthy())
  {
    var a :- CanUrlOf(env, user, TextArg(name));
    Success(a.Truthy())
  }
}
