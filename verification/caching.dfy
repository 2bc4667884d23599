/** The `cached_function` decorator: the checks made when decorating, the
    cache key built from the module, the function name and the `repr` of
    the keyable arguments (hashed when too long), and the get-or-compute
    step of the wrapper over a cache seen as a map. */
module Caching {
  import opened Wrappers
  import Text

  /** The type of a positional argument, as far as the allowlist cares. */
  datatype ArgType = NoneType | IntType | FloatType | BoolType | StrType | BytesType | OtherType(name: string)

  /** The allowlist of keyable argument types (the Python 3 one). */
  const Allowed: set<ArgType> := {NoneType, IntType, FloatType, BoolType, StrType, BytesType}

  /** A positional argument: its type and its `repr`. */
  datatype Arg = Arg(ty: ArgType, repr: string)

  /** What the decorator reads off the decorated function. */
  datatype FuncInfo = FuncInfo(moduleName: string, name: string, hasDefaults: bool)

  datatype CachingError = DefaultArgs | AnonymousFunc | InvalidDecoratorArg | UnallowedTypes(types: set<ArgType>)

  /** The first argument of `cached_function`. */
  datatype DecoratorArg = NoFunc | CallableArg(f: FuncInfo) | NonCallable

  /** A decorated function with its key-argument limit. */
  datatype Cached = Cached(f: FuncInfo, numArgsToKey: Option<int>)

  /** What `cached_function(...)` returns: the inner decorator still
      waiting for the function, or the wrapper itself. */
  datatype Decoration = Factory(numArgsToKey: Option<int>) | Wrapper(cached: Cached)

  /** `cached_function_inner`: functions with defaults and lambdas are
      refused. */
  function Decorate(f: FuncInfo, numArgsToKey: Option<int>): (r: Result<Cached, CachingError>)
    ensures r.Success? <==> !f.hasDefaults && f.name != "<lambda>"
    ensures f.hasDefaults ==> r == Failure(DefaultArgs)
    ensures !f.hasDefaults && f.name == "<lambda>" ==> r == Failure(AnonymousFunc)
    ensures r.Success? ==> r.value == Cached(f, numArgsToKey)
  {
    if f.hasDefaults then Failure(DefaultArgs)
    else if f.name == "<lambda>" then Failure(AnonymousFunc)
    else Success(Cached(f, numArgsToKey))
  }

  /** `cached_function(func, num_args_to_key)`: used bare it decorates at
      once, used with arguments it returns the inner decorator, and any
      other first argument is refused. */
  function CachedFunction(arg: DecoratorArg, numArgsToKey: Option<int>): (r: Result<Decoration, CachingError>)
    ensures arg.NoFunc? ==> r == Success(Factory(numArgsToKey))
    ensures arg.NonCallable? ==> r == Failure(InvalidDecoratorArg)
    ensures arg.CallableArg? ==>
              (r.Success? <==> Decorate(arg.f, numArgsToKey).Success?)
              && (r.Success? ==> r.value == Wrapper(Cached(arg.f, numArgsToKey)))
  {
    match arg
    case NoFunc => Success(Factory(numArgsToKey))
    case CallableArg(f) =>
      var c :- Decorate(f, numArgsToKey);
      Success(Wrapper(c))
    case NonCallable => Failure(InvalidDecoratorArg)
  }

  /** Used bare, the decorator wraps and refuses exactly as the inner
      decorator returned by `cached_function(num_args_to_key=n)` does. */
  lemma BareMatchesFactory(f: FuncInfo, n: Option<int>)
    ensures CachedFunction(NoFunc, n) == Success(Factory(n))
    ensures CachedFunction(CallableArg(f), n)
            == match Decorate(f, n)
               case Success(c) => Success(Wrapper(c))
               case Failure(e) => Failure(e)
  {
  }

  /** The arguments that go into the key: all of them, or a Python slice
      `args[:n]`. */
  function KeyArgs(args: seq<Arg>, numArgsToKey: Option<int>): (ka: seq<Arg>)
    ensures numArgsToKey.None? ==> ka == args
    ensures numArgsToKey.Some? && 0 <= numArgsToKey.value <= |args| ==> ka == args[..numArgsToKey.value]
    ensures |ka| <= |args| && ka == args[..|ka|]
  {
    if numArgsToKey.None? then args else Text.Prefix(args, numArgsToKey.value)
  }

  /** The types among the keyable arguments that are not allowed. */
  function Unallowed(ka: seq<Arg>): (u: set<ArgType>)
    ensures u == {} <==> forall i :: 0 <= i < |ka| ==> ka[i].ty in Allowed
  {
    if |ka| == 0 then {}
    else
      var rest := Unallowed(ka[1..]);
      assert forall i :: 0 < i < |ka| ==> ka[i] == ka[1..][i - 1];
      if ka[0].ty in Allowed then rest else {ka[0].ty} + rest
  }

  /** `','.join(map(repr, key_args))`. */
  function ReprList(ka: seq<Arg>): string {
    Text.Join(seq(|ka|, i requires 0 <= i < |ka| => ka[i].repr), ",")
  }

  const MaxKeyLength: nat := 200

  function KeyHead(f: FuncInfo): string {
    "cached_function:" + f.moduleName + "." + f.name + "("
  }

  /** The cache key for the keyable arguments. `sha256` stands for the hex
      digest of the UTF-8 encoded argument list. */
  function Key(f: FuncInfo, ka: seq<Arg>, sha256: string -> string): (key: string)
    ensures var plain := KeyHead(f) + ReprList(ka) + ")";
            && (|plain| <= MaxKeyLength ==> key == plain)
            && (|plain| > MaxKeyLength ==> key == KeyHead(f) + sha256(ReprList(ka)) + ")" + "-hashed")
  {
    var plain := KeyHead(f) + ReprList(ka) + ")";
    if |plain| > MaxKeyLength then KeyHead(f) + sha256(ReprList(ka)) + ")" + "-hashed" else plain
  }

  /** Every key starts with the function's module and name. */
  lemma KeyNamesFunction(f: FuncInfo, ka: seq<Arg>, sha256: string -> string)
    ensures Text.StartsWith(Key(f, ka, sha256), KeyHead(f))
  {
    var k := Key(f, ka, sha256);
    var plain := KeyHead(f) + ReprList(ka) + ")";
    if |plain| > MaxKeyLength {
      assert k == KeyHead(f) + (sha256(ReprList(ka)) + ")" + "-hashed");
    } else {
      assert k == KeyHead(f) + (ReprList(ka) + ")");
    }
  }

  /** A hashed key is only as long as the name and the digest, whatever
      the length of the arguments, when the digest is 64 characters. */
  lemma HashedKeyLength(f: FuncInfo, ka: seq<Arg>, sha256: string -> string)
    requires |KeyHead(f) + ReprList(ka) + ")"| > MaxKeyLength
    requires |sha256(ReprList(ka))| == 64
    ensures |Key(f, ka, sha256)| == |KeyHead(f)| + 64 + 8
  {
  }

  /** The cache: `cache.get(key)` gives None both for a missing key and for
      a stored None. */
  type Cache<V> = map<string, Option<V>>

  function CacheGet<V>(cache: Cache<V>, key: string): Option<V> {
    if key in cache then cache[key] else None
  }

  /** One call of the wrapper: the key arguments' types are checked before
      the cache is touched; a non-None cached value is returned as is,
      otherwise the function is called and its result stored. */
  function Call<V>(c: Cached, sha256: string -> string, func: seq<Arg> -> Option<V>,
                   cache: Cache<V>, args: seq<Arg>): (r: Result<(Option<V>, Cache<V>), CachingError>)
    ensures var ka := KeyArgs(args, c.numArgsToKey);
            r.Failure? <==> Unallowed(ka) != {}
    ensures r.Failure? ==> r.error == UnallowedTypes(Unallowed(KeyArgs(args, c.numArgsToKey)))
    ensures r.Success? ==>
              var key := Key(c.f, KeyArgs(args, c.numArgsToKey), sha256);
              if CacheGet(cache, key).Some? then r.value == (CacheGet(cache, key), cache)
              else r.value == (func(args), cache[key := func(args)])
  {
    var ka := KeyArgs(args, c.numArgsToKey);
    var bad := Unallowed(ka);
    if bad != {} then Failure(UnallowedTypes(bad))
    else
      var key := Key(c.f, ka, sha256);
      match CacheGet(cache, key)
      case Some(v) => Success((Some(v), cache))
      case None =>
        var v := func(args);
        Success((v, cache[key := v]))
  }

  /** Once a call has stored a non-None value, the same call returns it
      from the cache and changes nothing. */
  lemma SecondCallHits<V>(c: Cached, sha256: string -> string, func: seq<Arg> -> Option<V>,
                          cache: Cache<V>, args: seq<Arg>)
    requires Call(c, sha256, func, cache, args).Success?
    requires Call(c, sha256, func, cache, args).value.0.Some?
    ensures var (v, cache2) := Call(c, sha256, func, cache, args).value;
            Call(c, sha256, func, cache2, args) == Success((v, cache2))
  {
  }

  /** Arguments past the keyed ones do not take part in the key. */
  lemma UnkeyedArgsIgnored<V>(c: Cached, sha256: string -> string, args: seq<Arg>, more: seq<Arg>)
    requires c.numArgsToKey.Some? && 0 <= c.numArgsToKey.value <= |args|
    ensures KeyArgs(args + more, c.numArgsToKey) == KeyArgs(args, c.numArgsToKey)
  {
    assert (args + more)[..c.numArgsToKey.value] == args[..c.numArgsToKey.value];
  }

  /** The decorated function of the tests: it returns its argument count. */
  function CountArgs(args: seq<Arg>): Option<int> {
    Some(|args|)
  }

  const ExpensiveFunction: FuncInfo := FuncInfo("tests.testapp.utils", "expensive_function", false)

  /** On a cache that does not hold its key, the decorated
      `expensive_function` returns its argument count, long arguments
      included, and a repeated call gives the same count. */
  lemma ExpensiveFunctionCounts(sha256: string -> string, cache: Cache<int>, args: seq<Arg>)
    requires forall i :: 0 <= i < |args| ==> args[i].ty in Allowed
    requires Key(ExpensiveFunction, args, sha256) !in cache
    ensures Decorate(ExpensiveFunction, None).Success?
    ensures var c := Decorate(ExpensiveFunction, None).value;
            var r := Call(c, sha256, CountArgs, cache, args);
            && r.Success? && r.value.0 == Some(|args|)
            && Call(c, sha256, CountArgs, r.value.1, args).Success?
            && Call(c, sha256, CountArgs, r.value.1, args).value.0 == Some(|args|)
  {
    var c := Decorate(ExpensiveFunction, None).value;
    SecondCallHits(c, sha256, CountArgs, cache, args);
  }
}
