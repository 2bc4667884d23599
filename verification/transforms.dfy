/** Collection helpers: counting, indexing and grouping elements by a key,
    comparing two dictionaries key by key, and cutting a sequence into
    batches. An attribute read `getattr(obj, by)` is a function parameter. */
module Transforms {
  import opened Wrappers

  /** The keys of the elements, in order. */
  function KeysOf<T, K>(xs: seq<T>, key: T -> K): (ks: seq<K>)
    ensures |ks| == |xs| && forall i :: 0 <= i < |xs| ==> ks[i] == key(xs[i])
  {
    seq(|xs|, i requires 0 <= i < |xs| => key(xs[i]))
  }

  // ---------------------------------------------------------------------
  // count_by_attr

  /** `count_by_attr`: one pass over the elements, adding one to the count
      of each element's key. */
  function CountBy<T, K(!new)>(xs: seq<T>, key: T -> K): (r: map<K, nat>)
    ensures forall k :: k in r <==> k in multiset(KeysOf(xs, key))
    ensures forall k :: k in r ==> r[k] == multiset(KeysOf(xs, key))[k]
    decreases |xs|
  {
    if |xs| == 0 then map[]
    else
      var init := xs[..|xs| - 1];
      var m := CountBy(init, key);
      var k := key(xs[|xs| - 1]);
      assert KeysOf(xs, key) == KeysOf(init, key) + [k];
      m[k := (if k in m then m[k] else 0) + 1]
  }

  /** The sum of the values of a map. */
  ghost function SumValues<K>(m: map<K, nat>): nat
    decreases |m|
  {
    if m == map[] then 0
    else
      var k :| k in m;
      m[k] + SumValues(m - {k})
  }

  /** The sum does not depend on which key is taken first. */
  lemma {:induction false} SumWithout<K>(m: map<K, nat>, k: K)
    requires k in m
    ensures SumValues(m) == m[k] + SumValues(m - {k})
    decreases |m|
  {
    var j :| j in m && SumValues(m) == m[j] + SumValues(m - {j});
    if j != k {
      SumWithout(m - {j}, k);
      SumWithout(m - {k}, j);
      assert m - {j} - {k} == m - {k} - {j};
    }
  }

  /** Raising one value by one raises the sum by one. */
  lemma SumBump<K>(m: map<K, nat>, k: K)
    ensures SumValues(m[k := (if k in m then m[k] else 0) + 1]) == SumValues(m) + 1
  {
    var m2 := m[k := (if k in m then m[k] else 0) + 1];
    SumWithout(m2, k);
    assert m2 - {k} == m - {k};
    if k in m {
      SumWithout(m, k);
    } else {
      assert m - {k} == m;
    }
  }

  /** The counts add up to the number of elements. */
  lemma {:induction false} CountsSumToLength<T, K(!new)>(xs: seq<T>, key: T -> K)
    ensures SumValues(CountBy(xs, key)) == |xs|
    decreases |xs|
  {
    if |xs| > 0 {
      var init := xs[..|xs| - 1];
      CountsSumToLength(init, key);
      SumBump(CountBy(init, key), key(xs[|xs| - 1]));
    }
  }

  // ---------------------------------------------------------------------
  // dict_by_attr

  /** No later element has the same key as element `i`. */
  ghost predicate LastWithKey<T, K>(xs: seq<T>, key: T -> K, i: nat)
    requires i < |xs|
  {
    forall j :: i < j < |xs| ==> key(xs[j]) != key(xs[i])
  }

  /** The keys that occur among the elements. */
  ghost function KeySet<T, K>(xs: seq<T>, key: T -> K): set<K> {
    set i | 0 <= i < |xs| :: key(xs[i])
  }

  lemma KeySetSnoc<T, K>(xs: seq<T>, key: T -> K)
    requires |xs| > 0
    ensures KeySet(xs, key) == KeySet(xs[..|xs| - 1], key) + {key(xs[|xs| - 1])}
  {
    var init := xs[..|xs| - 1];
    forall k | k in KeySet(xs, key)
      ensures k in KeySet(init, key) + {key(xs[|xs| - 1])}
    {
      var i :| 0 <= i < |xs| && key(xs[i]) == k;
      if i < |init| {
        assert key(init[i]) == k;
      }
    }
    forall k | k in KeySet(init, key) ensures k in KeySet(xs, key) {
      var i :| 0 <= i < |init| && key(init[i]) == k;
      assert key(xs[i]) == k;
    }
  }

  /** `dict_by_attr`: each key mapped to the value taken from the last
      element with that key; `value` is the identity when `get` is None
      and the `get` attribute otherwise. */
  function DictBy<T, K, V>(xs: seq<T>, key: T -> K, value: T -> V): (r: map<K, V>)
    ensures r.Keys == KeySet(xs, key)
    ensures |xs| > 0 ==> r[key(xs[|xs| - 1])] == value(xs[|xs| - 1])
    decreases |xs|
  {
    if |xs| == 0 then map[]
    else
      var init := xs[..|xs| - 1];
      var m := DictBy(init, key, value);
      var last := xs[|xs| - 1];
      KeySetSnoc(xs, key);
      m[key(last) := value(last)]
  }

  /** Each key holds the value of its last element. */
  lemma {:induction false} DictByLastWins<T, K, V>(xs: seq<T>, key: T -> K, value: T -> V, i: nat)
    requires i < |xs| && LastWithKey(xs, key, i)
    ensures key(xs[i]) in DictBy(xs, key, value)
    ensures DictBy(xs, key, value)[key(xs[i])] == value(xs[i])
    decreases |xs|
  {
    if i < |xs| - 1 {
      var init := xs[..|xs| - 1];
      LastInInit(xs, key, i);
      DictByLastWins(init, key, value, i);
      assert init[i] == xs[i];
    }
  }

  lemma LastInInit<T, K>(xs: seq<T>, key: T -> K, i: nat)
    requires i < |xs| - 1 && LastWithKey(xs, key, i)
    ensures LastWithKey(xs[..|xs| - 1], key, i)
    ensures key(xs[i]) != key(xs[|xs| - 1])
  {
    var init := xs[..|xs| - 1];
    forall j | i < j < |init| ensures key(init[j]) != key(init[i]) {
      assert init[j] == xs[j] && init[i] == xs[i];
    }
  }

  // ---------------------------------------------------------------------
  // group_by_attr

  /** The values of the elements with key `k`, in input order. */
  function ValuesWithKey<T, K(==), V>(xs: seq<T>, key: T -> K, value: T -> V, k: K): seq<V>
    decreases |xs|
  {
    if |xs| == 0 then []
    else
      var init := xs[..|xs| - 1];
      var last := xs[|xs| - 1];
      ValuesWithKey(init, key, value, k) + (if key(last) == k then [value(last)] else [])
  }

  /** `group_by_attr`: each key mapped to the list of the values of its
      elements, in input order. */
  function GroupBy<T, K(!new), V>(xs: seq<T>, key: T -> K, value: T -> V): (r: map<K, seq<V>>)
    ensures forall k :: k in r <==> k in multiset(KeysOf(xs, key))
    ensures forall k :: k in r ==> r[k] == ValuesWithKey(xs, key, value, k)
    decreases |xs|
  {
    if |xs| == 0 then map[]
    else
      var init := xs[..|xs| - 1];
      var m := GroupBy(init, key, value);
      var last := xs[|xs| - 1];
      var k := key(last);
      assert KeysOf(xs, key) == KeysOf(init, key) + [k];
      assert k !in m ==> ValuesWithKey(init, key, value, k) == [] by {
        if k !in m { NoValuesWithoutKey(init, key, value, k); }
      }
      m[k := (if k in m then m[k] else []) + [value(last)]]
  }

  lemma {:induction false} NoValuesWithoutKey<T, K, V>(xs: seq<T>, key: T -> K, value: T -> V, k: K)
    requires k !in multiset(KeysOf(xs, key))
    ensures ValuesWithKey(xs, key, value, k) == []
    decreases |xs|
  {
    if |xs| > 0 {
      var init := xs[..|xs| - 1];
      assert KeysOf(xs, key) == KeysOf(init, key) + [key(xs[|xs| - 1])];
      NoValuesWithoutKey(init, key, value, k);
    }
  }

  /** Each group is as long as its key's count. */
  lemma {:induction false} GroupSizesAreCounts<T, K(!new), V>(xs: seq<T>, key: T -> K, value: T -> V)
    ensures GroupBy(xs, key, value).Keys == CountBy(xs, key).Keys
    ensures forall k :: k in CountBy(xs, key) ==> |GroupBy(xs, key, value)[k]| == CountBy(xs, key)[k]
  {
    forall k | k in CountBy(xs, key)
      ensures |GroupBy(xs, key, value)[k]| == CountBy(xs, key)[k]
    {
      ValuesWithKeyCount(xs, key, value, k);
    }
  }

  lemma {:induction false} ValuesWithKeyCount<T, K, V>(xs: seq<T>, key: T -> K, value: T -> V, k: K)
    ensures |ValuesWithKey(xs, key, value, k)| == multiset(KeysOf(xs, key))[k]
    decreases |xs|
  {
    if |xs| > 0 {
      var init := xs[..|xs| - 1];
      assert KeysOf(xs, key) == KeysOf(init, key) + [key(xs[|xs| - 1])];
      ValuesWithKeyCount(init, key, value, k);
    }
  }

  // ---------------------------------------------------------------------
  // iter_compare_dicts

  /** One side of a yielded pair: the dictionary's value, or Ellipsis when
      the key is missing there. */
  datatype Slot<V> = Value(v: V) | EllipsisSlot

  /** `dict(iter_compare_dicts(d1, d2, only_common_keys, op))`. Every key is
      yielded at most once, since the three loops run over disjoint key
      sets, so the result is a dictionary. */
  function CompareDicts<K(!new), V>(d1: map<K, V>, d2: map<K, V>, onlyCommon: bool, op: (V, V) -> bool): (r: map<K, (Slot<V>, Slot<V>)>)
    ensures forall k :: k in d1 && k in d2 ==> (k in r <==> op(d1[k], d2[k]))
    ensures forall k :: k in d1 && k in d2 && k in r ==> r[k] == (Value(d1[k]), Value(d2[k]))
    ensures forall k :: (k in d1) != (k in d2) ==> (k in r <==> !onlyCommon)
    ensures forall k :: k in r && k in d1 && k !in d2 ==> r[k] == (Value(d1[k]), EllipsisSlot)
    ensures forall k :: k in r && k !in d1 && k in d2 ==> r[k] == (EllipsisSlot, Value(d2[k]))
    ensures r.Keys <= d1.Keys + d2.Keys
  {
    var common := CommonPairs(d1, d2, op);
    if onlyCommon then common
    else
      var left := OnlyLeft(d1, d2);
      var right := OnlyRight(d1, d2);
      assert (common + left + right).Keys == common.Keys + left.Keys + right.Keys;
      common + left + right
  }

  /** The first loop: common keys whose values satisfy `op`. */
  function CommonPairs<K(!new), V>(d1: map<K, V>, d2: map<K, V>, op: (V, V) -> bool): (r: map<K, (Slot<V>, Slot<V>)>)
    ensures forall k :: k in r <==> k in d1 && k in d2 && op(d1[k], d2[k])
    ensures forall k :: k in r ==> r[k] == (Value(d1[k]), Value(d2[k]))
  {
    map k | k in d1.Keys * d2.Keys && op(d1[k], d2[k]) :: (Value(d1[k]), Value(d2[k]))
  }

  /** The second loop: keys of `d1` only, paired with Ellipsis. */
  function OnlyLeft<K(!new), V>(d1: map<K, V>, d2: map<K, V>): (r: map<K, (Slot<V>, Slot<V>)>)
    ensures forall k :: k in r <==> k in d1 && k !in d2
    ensures forall k :: k in r ==> r[k] == (Value(d1[k]), EllipsisSlot)
  {
    map k | k in d1.Keys - d2.Keys :: (Value(d1[k]), EllipsisSlot)
  }

  /** The third loop: keys of `d2` only, Ellipsis first. */
  function OnlyRight<K(!new), V>(d1: map<K, V>, d2: map<K, V>): (r: map<K, (Slot<V>, Slot<V>)>)
    ensures forall k :: k in r <==> k !in d1 && k in d2
    ensures forall k :: k in r ==> r[k] == (EllipsisSlot, Value(d2[k]))
  {
    map k | k in d2.Keys - d1.Keys :: (EllipsisSlot, Value(d2[k]))
  }

  /** Swapping the dictionaries and the operands of `op` swaps every
      yielded pair. */
  lemma CompareDictsSwap<K(!new), V>(d1: map<K, V>, d2: map<K, V>, onlyCommon: bool, op: (V, V) -> bool, flipped: (V, V) -> bool)
    requires forall a, b :: flipped(a, b) == op(b, a)
    ensures var r := CompareDicts(d1, d2, onlyCommon, op);
            var s := CompareDicts(d2, d1, onlyCommon, flipped);
            r.Keys == s.Keys && forall k :: k in r ==> s[k] == (r[k].1, r[k].0)
  {
  }

  /** The two dictionaries of the docstring's examples. */
  function ExampleLeft(): map<string, int> {
    map["a" := 1, "b" := 2, "c" := 3]
  }

  function ExampleRight(): map<string, int> {
    map["a" := 1, "b" := 20, "d" := 4]
  }

  function Ne(x: int, y: int): bool {
    x != y
  }

  function Eq(x: int, y: int): bool {
    x == y
  }

  lemma ExampleKeys()
    ensures ExampleLeft().Keys == {"a", "b", "c"} && ExampleRight().Keys == {"a", "b", "d"}
    ensures "a" != "b" && "a" != "c" && "a" != "d" && "b" != "c" && "b" != "d" && "c" != "d"
  {
  }

  /** The docstring's examples with `only_common_keys=True`. */
  lemma CompareDictsCommonExamples()
    ensures CompareDicts(ExampleLeft(), ExampleRight(), true, Ne) == map["b" := (Value(2), Value(20))]
    ensures CompareDicts(ExampleLeft(), ExampleRight(), true, Eq) == map["a" := (Value(1), Value(1))]
  {
    ExampleKeys();
  }

  /** The docstring's example with `ne` and every key. */
  lemma CompareDictsNeExample()
    ensures CompareDicts(ExampleLeft(), ExampleRight(), false, Ne) ==
              map["c" := (Value(3), EllipsisSlot), "b" := (Value(2), Value(20)), "d" := (EllipsisSlot, Value(4))]
  {
    ExampleKeys();
  }

  /** The docstring's example with `eq` and every key. */
  lemma CompareDictsEqExample()
    ensures CompareDicts(ExampleLeft(), ExampleRight(), false, Eq) ==
              map["a" := (Value(1), Value(1)), "c" := (Value(3), EllipsisSlot), "d" := (EllipsisSlot, Value(4))]
  {
    ExampleKeys();
  }

  // ---------------------------------------------------------------------
  // iter_ibatches

  datatype BatchError = NegativeSize  // ValueError raised by islice

  /** `iter_ibatches(xs, size)`, each batch consumed before the next is
      asked for: batches of `size` elements, a shorter last one, none empty;
      a size of 0 gives no batch at all. */
  function Batches<T>(xs: seq<T>, size: int): (r: Result<seq<seq<T>>, BatchError>)
    ensures size < 0 <==> r.Failure?
    ensures size == 0 ==> r == Success([])
    ensures size > 0 ==> r.Success? && Concat(r.value) == xs
    ensures size > 0 ==> r.Success? && forall i :: 0 <= i < |r.value| ==> 1 <= |r.value[i]| <= size
    ensures size > 0 ==> r.Success? && forall i :: 0 <= i < |r.value| - 1 ==> |r.value[i]| == size
  {
    if size < 0 then Failure(NegativeSize)
    else if size == 0 then Success([])
    else Success(Chunks(xs, size))
  }

  function Chunks<T>(xs: seq<T>, size: nat): (r: seq<seq<T>>)
    requires size > 0
    ensures Concat(r) == xs
    ensures forall i :: 0 <= i < |r| ==> 1 <= |r[i]| <= size
    ensures forall i :: 0 <= i < |r| - 1 ==> |r[i]| == size
    decreases |xs|
  {
    if |xs| == 0 then []
    else if |xs| <= size then
      assert Concat([xs]) == xs + Concat([]);
      [xs]
    else
      var rest := Chunks(xs[size..], size);
      assert xs == xs[..size] + xs[size..];
      var r := [xs[..size]] + rest;
      assert r[1..] == rest;
      r
  }

  function Concat<T>(parts: seq<seq<T>>): seq<T> {
    if |parts| == 0 then [] else parts[0] + Concat(parts[1..])
  }

  /** The docstring's example: 55 numbers in batches of 10. */
  lemma BatchesExample()
    ensures var xs := seq(55, i => i);
            Batches(xs, 10) == Success([xs[..10], xs[10..20], xs[20..30], xs[30..40], xs[40..50], xs[50..]])
  {
    var xs := seq(55, i => i);
    var c50 := [xs[50..]];
    assert Chunks(xs[50..], 10) == c50;
    ChunkStep(xs, 40);
    var c40 := [xs[40..50]] + c50;
    ChunkStep(xs, 30);
    var c30 := [xs[30..40]] + c40;
    ChunkStep(xs, 20);
    var c20 := [xs[20..30]] + c30;
    ChunkStep(xs, 10);
    var c10 := [xs[10..20]] + c20;
    ChunkStep(xs, 0);
    assert xs[0..] == xs;
    assert xs[0..10] == xs[..10];
    assert Chunks(xs, 10) == [xs[..10]] + c10;
    assert [xs[..10]] + c10 == [xs[..10], xs[10..20], xs[20..30], xs[30..40], xs[40..50], xs[50..]];
  }

  lemma ChunkStep<T>(xs: seq<T>, k: nat)
    requires k + 10 < |xs|
    ensures Chunks(xs[k..], 10) == [xs[k..k + 10]] + Chunks(xs[k + 10..], 10)
  {
    assert xs[k..][..10] == xs[k..k + 10];
    assert xs[k..][10..] == xs[k + 10..];
  }
}
