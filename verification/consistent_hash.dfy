/** The consistent-hash ring: every bucket owns `replicas` positions on a
    ring of hash values; a key belongs to the bucket owning the first
    position strictly after the key's hash, wrapping round to the smallest
    position.

    The ring is the record `Ring`: `keys` is the sorted list of positions
    and `bucketMap` maps each position to its bucket. The hash function
    (MD5 of the UTF-8 bytes read as an integer) and the `%s` rendering of a
    bucket are outside the model and arrive in `Env`. */
module ConsistentHash {
  import opened Wrappers
  import Text

  /** `hash` is `ConsistentHashRing.hash`, `show` is `'%s' % bucket`. */
  datatype Env<!B> = Env(hash: string -> nat, show: B -> string)

  datatype Ring<B> = Ring(replicas: nat, keys: seq<nat>, bucketMap: map<nat, B>)

  datatype RingError =
    | AlreadyPresent          // the ValueError of add_bucket
    | MissingReplica(h: nat)  // the KeyError of remove_bucket
    | EmptyRing               // the IndexError of select_bucket on no buckets

  /** The ring after a mutation, and the error it raised, if any. A
      mutation that raises part way keeps the changes made before the
      failing replica, exactly as the in-place Python code does. */
  datatype Step<B> = Step(ring: Ring<B>, error: Option<RingError>)

  function Elems(s: seq<nat>): set<nat> {
    set x | x in s
  }

  predicate StrictlySorted(s: seq<nat>) {
    forall i, j :: 0 <= i < j < |s| ==> s[i] < s[j]
  }

  predicate Distinct(s: seq<nat>) {
    forall i, j :: 0 <= i < j < |s| ==> s[i] != s[j]
  }

  /** The ring invariant: positions sorted without duplicates, and exactly
      the positions that `bucketMap` knows. */
  predicate Valid<B(==)>(r: Ring<B>) {
    StrictlySorted(r.keys) && r.bucketMap.Keys == Elems(r.keys)
  }

  function Initial<B(==)>(replicas: nat): (r: Ring<B>)
    ensures Valid(r) && |r.keys| == 0
  {
    Ring(replicas, [], map[])
  }

  /** The text `'%s:%d' % (bucket, replica)` that a replica position is the hash of. */
  function ReplicaLabel(name: string, replica: nat): string {
    name + ":" + Text.Decimal(replica)
  }

  /** The positions `ireplicas` yields for a bucket, in replica order. */
  function ReplicaHashes<B(==)>(env: Env<B>, b: B, n: nat): (hs: seq<nat>)
    ensures |hs| == n
    ensures forall i :: 0 <= i < n ==> hs[i] == env.hash(ReplicaLabel(env.show(b), i))
  {
    seq<nat>(n, i requires 0 <= i < n => env.hash(ReplicaLabel(env.show(b), i)))
  }

  // ---------------------------------------------------------------------
  // bisect on a sorted list

  /** `bisect.bisect_right`: the insertion point after every position <= h. */
  function BisectRight(keys: seq<nat>, h: nat): (i: nat)
    requires StrictlySorted(keys)
    ensures i <= |keys|
    ensures forall j :: 0 <= j < i ==> keys[j] <= h
    ensures forall j :: i <= j < |keys| ==> h < keys[j]
  {
    if |keys| == 0 || h < keys[0] then 0
    else
      assert StrictlySorted(keys[1..]) by {
        forall i, j | 0 <= i < j < |keys| - 1 ensures keys[1..][i] < keys[1..][j] {
          assert keys[1..][i] == keys[i + 1] && keys[1..][j] == keys[j + 1];
        }
      }
      1 + BisectRight(keys[1..], h)
  }

  /** `bisect.bisect_left`: the insertion point before every position >= h. */
  function BisectLeft(keys: seq<nat>, h: nat): (i: nat)
    requires StrictlySorted(keys)
    ensures i <= |keys|
    ensures forall j :: 0 <= j < i ==> keys[j] < h
    ensures forall j :: i <= j < |keys| ==> h <= keys[j]
  {
    if |keys| == 0 || h <= keys[0] then 0
    else
      assert StrictlySorted(keys[1..]) by {
        forall i, j | 0 <= i < j < |keys| - 1 ensures keys[1..][i] < keys[1..][j] {
          assert keys[1..][i] == keys[i + 1] && keys[1..][j] == keys[j + 1];
        }
      }
      1 + BisectLeft(keys[1..], h)
  }

  /** The binary search `bisect.bisect_right` performs computes the same
      insertion point. */
  method BinarySearchRight(keys: seq<nat>, h: nat) returns (i: nat)
    requires StrictlySorted(keys)
    ensures i == BisectRight(keys, h)
  {
    var lo, hi := 0, |keys|;
    while lo < hi
      invariant 0 <= lo <= hi <= |keys|
      invariant forall j :: 0 <= j < lo ==> keys[j] <= h
      invariant forall j :: hi <= j < |keys| ==> h < keys[j]
      decreases hi - lo
    {
      var mid := (lo + hi) / 2;
      if h < keys[mid] {
        hi := mid;
      } else {
        lo := mid + 1;
      }
    }
    i := lo;
    var b := BisectRight(keys, h);
    assert i < |keys| ==> h < keys[i];
    assert b < |keys| ==> h < keys[b];
  }

  /** The binary search `bisect.bisect_left` performs computes the same
      insertion point. */
  method BinarySearchLeft(keys: seq<nat>, h: nat) returns (i: nat)
    requires StrictlySorted(keys)
    ensures i == BisectLeft(keys, h)
  {
    var lo, hi := 0, |keys|;
    while lo < hi
      invariant 0 <= lo <= hi <= |keys|
      invariant forall j :: 0 <= j < lo ==> keys[j] < h
      invariant forall j :: hi <= j < |keys| ==> h <= keys[j]
      decreases hi - lo
    {
      var mid := (lo + hi) / 2;
      if keys[mid] < h {
        lo := mid + 1;
      } else {
        hi := mid;
      }
    }
    i := lo;
    var b := BisectLeft(keys, h);
    assert i < |keys| ==> h <= keys[i];
    assert b < |keys| ==> h <= keys[b];
  }

  lemma InsertAtFacts(keys: seq<nat>, i: nat, h: nat)
    requires StrictlySorted(keys) && i <= |keys|
    requires forall j :: 0 <= j < i ==> keys[j] < h
    requires forall j :: i <= j < |keys| ==> h < keys[j]
    ensures StrictlySorted(keys[..i] + [h] + keys[i..])
    ensures Elems(keys[..i] + [h] + keys[i..]) == Elems(keys) + {h}
  {
    var r := keys[..i] + [h] + keys[i..];
    assert forall j :: 0 <= j < |r| ==> r[j] == (if j < i then keys[j] else if j == i then h else keys[j - 1]);
    forall x | x in Elems(keys) ensures x in Elems(r) {
      var j :| 0 <= j < |keys| && keys[j] == x;
      assert j < i ==> r[j] == x;
      assert j >= i ==> r[j + 1] == x;
    }
    assert r[i] == h;
  }

  lemma RemoveAtFacts(keys: seq<nat>, i: nat)
    requires StrictlySorted(keys) && i < |keys|
    ensures StrictlySorted(keys[..i] + keys[i + 1..])
    ensures Elems(keys[..i] + keys[i + 1..]) == Elems(keys) - {keys[i]}
  {
    var r := keys[..i] + keys[i + 1..];
    assert forall j :: 0 <= j < |r| ==> r[j] == (if j < i then keys[j] else keys[j + 1]);
    forall x | x in Elems(keys) - {keys[i]} ensures x in Elems(r) {
      var j :| 0 <= j < |keys| && keys[j] == x;
      assert j < i ==> r[j] == x;
      assert j > i ==> r[j - 1] == x;
    }
    forall x | x in Elems(r) ensures x != keys[i] {
      var j :| 0 <= j < |r| && r[j] == x;
      assert j < i ==> keys[j] < keys[i];
      assert j >= i ==> keys[i] < keys[j + 1];
    }
  }

  /** On a sorted list holding `h`, `bisect_left` finds `h` itself. */
  lemma BisectLeftFinds(keys: seq<nat>, h: nat)
    requires StrictlySorted(keys) && h in keys
    ensures BisectLeft(keys, h) < |keys| && keys[BisectLeft(keys, h)] == h
  {
    var i := BisectLeft(keys, h);
    var w :| 0 <= w < |keys| && keys[w] == h;
    assert w >= i;
    assert keys[i] <= keys[w];
  }

  /** `bisect.insort(keys, h)` for a position not yet on the ring. */
  function Insort(keys: seq<nat>, h: nat): (r: seq<nat>)
    requires StrictlySorted(keys) && h !in keys
    ensures StrictlySorted(r)
    ensures Elems(r) == Elems(keys) + {h}
    ensures |r| == |keys| + 1
  {
    var i := BisectRight(keys, h);
    assert forall j :: 0 <= j < i ==> keys[j] < h;
    InsertAtFacts(keys, i, h);
    keys[..i] + [h] + keys[i..]
  }

  /** `del keys[bisect_left(keys, h)]` for a position on the ring. */
  function DeleteKey(keys: seq<nat>, h: nat): (r: seq<nat>)
    requires StrictlySorted(keys) && h in keys
    ensures StrictlySorted(r)
    ensures Elems(r) == Elems(keys) - {h}
    ensures |r| == |keys| - 1
  {
    var i := BisectLeft(keys, h);
    BisectLeftFinds(keys, h);
    RemoveAtFacts(keys, i);
    keys[..i] + keys[i + 1..]
  }

  lemma NonEmptyElems(s: seq<nat>)
    ensures |s| > 0 ==> Elems(s) != {}
  {
    if |s| > 0 {
      assert s[0] in Elems(s);
    }
  }

  lemma SortedHeadIsMin(s: seq<nat>, x: nat)
    requires StrictlySorted(s) && x in Elems(s)
    ensures |s| > 0 && s[0] <= x
  {
    var j :| 0 <= j < |s| && s[j] == x;
    if j > 0 {
      assert s[0] < s[j];
    }
  }

  /** Two sorted duplicate-free lists with the same elements are equal: the
      key list is determined by the set of positions. */
  lemma {:induction false} SortedUnique(a: seq<nat>, b: seq<nat>)
    requires StrictlySorted(a) && StrictlySorted(b) && Elems(a) == Elems(b)
    ensures a == b
    decreases |a|
  {
    if |a| == 0 {
      NonEmptyElems(b);
    } else {
      assert a[0] in Elems(b);
      assert b[0] in Elems(a);
      assert |b| > 0;
      SortedHeadIsMin(b, a[0]);
      SortedHeadIsMin(a, b[0]);
      assert StrictlySorted(a[1..]) by {
        forall i, j | 0 <= i < j < |a| - 1 ensures a[1..][i] < a[1..][j] {
          assert a[1..][i] == a[i + 1] && a[1..][j] == a[j + 1];
        }
      }
      assert StrictlySorted(b[1..]) by {
        forall i, j | 0 <= i < j < |b| - 1 ensures b[1..][i] < b[1..][j] {
          assert b[1..][i] == b[i + 1] && b[1..][j] == b[j + 1];
        }
      }
      assert Elems(a[1..]) == Elems(a) - {a[0]} by {
        forall x | x in Elems(a[1..]) ensures x != a[0] {
          var k :| 0 <= k < |a| - 1 && a[1..][k] == x;
          assert a[k + 1] == x;
        }
        forall x | x in Elems(a) - {a[0]} ensures x in Elems(a[1..]) {
          var k :| 0 <= k < |a| && a[k] == x;
          assert k > 0 && a[1..][k - 1] == x;
        }
      }
      assert Elems(b[1..]) == Elems(b) - {b[0]} by {
        forall x | x in Elems(b[1..]) ensures x != b[0] {
          var k :| 0 <= k < |b| - 1 && b[1..][k] == x;
          assert b[k + 1] == x;
        }
        forall x | x in Elems(b) - {b[0]} ensures x in Elems(b[1..]) {
          var k :| 0 <= k < |b| && b[k] == x;
          assert k > 0 && b[1..][k - 1] == x;
        }
      }
      SortedUnique(a[1..], b[1..]);
      assert a == [a[0]] + a[1..];
      assert b == [b[0]] + b[1..];
    }
  }


  // ---------------------------------------------------------------------
  // add_bucket and remove_bucket, one replica position at a time

  lemma DistinctTail(hs: seq<nat>)
    requires |hs| > 0
    ensures Distinct(hs) <==> Distinct(hs[1..]) && hs[0] !in hs[1..]
  {
    if Distinct(hs[1..]) && hs[0] !in hs[1..] {
      forall i, j | 0 <= i < j < |hs| ensures hs[i] != hs[j] {
        if i == 0 {
          assert hs[j] == hs[1..][j - 1];
        } else {
          assert hs[i] == hs[1..][i - 1] && hs[j] == hs[1..][j - 1];
        }
      }
    }
    if Distinct(hs) {
      forall k | 0 <= k < |hs| - 1 ensures hs[1..][k] != hs[0] {
        assert hs[1..][k] == hs[k + 1];
      }
    }
  }

  /** The loop body of `add_bucket` run over the positions `hs`: a position
      already on the ring raises before it is written; every other one is
      mapped to `b` and inserted in order. */
  function AddReplicas<B(==)>(r: Ring<B>, hs: seq<nat>, b: B): (out: Step<B>)
    requires Valid(r)
    ensures Valid(out.ring) && out.ring.replicas == r.replicas
    ensures out.error.None? <==> Distinct(hs) && forall h :: h in hs ==> h !in r.bucketMap
    ensures out.error.Some? ==> out.error == Some(AlreadyPresent)
    ensures forall h :: h in r.bucketMap ==> h in out.ring.bucketMap && out.ring.bucketMap[h] == r.bucketMap[h]
    ensures out.error.None? ==> forall h :: h in hs ==> h in out.ring.bucketMap && out.ring.bucketMap[h] == b
    ensures out.error.None? ==> forall h :: h in out.ring.bucketMap ==> h in r.bucketMap || h in hs
    ensures |hs| > 0 && hs[0] in r.bucketMap ==> out == Step(r, Some(AlreadyPresent))
    decreases |hs|
  {
    if |hs| == 0 then Step(r, None)
    else if hs[0] in r.bucketMap then Step(r, Some(AlreadyPresent))
    else
      var r' := Ring(r.replicas, Insort(r.keys, hs[0]), r.bucketMap[hs[0] := b]);
      DistinctTail(hs);
      assert forall h :: h in hs <==> h == hs[0] || h in hs[1..];
      AddReplicas(r', hs[1..], b)
  }

  /** The loop body of `remove_bucket` run over the positions `hs`: a
      position not on the ring raises; every other one is dropped from the
      map and from the key list. */
  function RemoveReplicas<B(==)>(r: Ring<B>, hs: seq<nat>): (out: Step<B>)
    requires Valid(r)
    ensures Valid(out.ring) && out.ring.replicas == r.replicas
    ensures out.error.None? <==> Distinct(hs) && forall h :: h in hs ==> h in r.bucketMap
    ensures out.error.Some? ==> out.error.value.MissingReplica? && out.error.value.h in hs
    ensures forall h :: h in out.ring.bucketMap ==> h in r.bucketMap && out.ring.bucketMap[h] == r.bucketMap[h]
    ensures out.error.None? ==> forall h :: h in r.bucketMap ==> (h in out.ring.bucketMap <==> h !in hs)
    ensures |hs| > 0 && hs[0] !in r.bucketMap ==> out == Step(r, Some(MissingReplica(hs[0])))
    decreases |hs|
  {
    if |hs| == 0 then Step(r, None)
    else if hs[0] !in r.bucketMap then Step(r, Some(MissingReplica(hs[0])))
    else
      var r' := Ring(r.replicas, DeleteKey(r.keys, hs[0]), r.bucketMap - {hs[0]});
      DistinctTail(hs);
      assert forall h :: h in hs <==> h == hs[0] || h in hs[1..];
      RemoveReplicas(r', hs[1..])
  }

  /** Positions that can all be inserted: no repeats and none on the ring yet. */
  predicate Fresh(keys: set<nat>, hs: seq<nat>) {
    Distinct(hs) && forall h :: h in hs ==> h !in keys
  }

  /** Positions that can all be deleted: no repeats and all on the ring. */
  predicate Present(keys: set<nat>, hs: seq<nat>) {
    Distinct(hs) && forall h :: h in hs ==> h in keys
  }

  /** The positions `hs`, each owned by `b`. */
  function Owned<B>(hs: seq<nat>, b: B): map<nat, B> {
    map h | h in Elems(hs) :: b
  }

  /** The index of the first position that is already among `keys` or
      repeats an earlier one; `|hs|` when there is none. */
  function FirstClash(keys: set<nat>, hs: seq<nat>): (k: nat)
    ensures k <= |hs|
    ensures Fresh(keys, hs[..k])
    ensures k < |hs| ==> hs[k] in keys || hs[k] in hs[..k]
    decreases |hs|
  {
    if |hs| == 0 || hs[0] in keys then 0
    else
      var k' := FirstClash(keys + {hs[0]}, hs[1..]);
      assert hs[..1 + k'] == [hs[0]] + hs[1..][..k'];
      DistinctTail(hs[..1 + k']);
      1 + k'
  }

  /** The index of the first position that is not among `keys` or repeats
      an earlier one; `|hs|` when there is none. */
  function FirstMissing(keys: set<nat>, hs: seq<nat>): (k: nat)
    ensures k <= |hs|
    ensures Present(keys, hs[..k])
    ensures k < |hs| ==> hs[k] !in keys || hs[k] in hs[..k]
    decreases |hs|
  {
    if |hs| == 0 || hs[0] !in keys then 0
    else
      var k' := FirstMissing(keys - {hs[0]}, hs[1..]);
      assert hs[..1 + k'] == [hs[0]] + hs[1..][..k'];
      DistinctTail(hs[..1 + k']);
      1 + k'
  }

  lemma PrefixCons(hs: seq<nat>, k: nat)
    requires k < |hs|
    ensures hs[..k + 1] == [hs[0]] + hs[1..][..k]
  {
  }

  lemma OwnedCons<B>(m: map<nat, B>, h: nat, rest: seq<nat>, b: B)
    ensures m[h := b] + Owned(rest, b) == m + Owned([h] + rest, b)
  {
    assert Elems([h] + rest) == {h} + Elems(rest);
  }

  lemma MinusCons<B>(m: map<nat, B>, h: nat, rest: seq<nat>)
    ensures (m - {h}) - Elems(rest) == m - Elems([h] + rest)
  {
    assert Elems([h] + rest) == {h} + Elems(rest);
  }

  /** Whether or not `add_bucket` raises, the positions before the first
      clash are on the ring owned by `b`, and nothing else was written. */
  lemma {:induction false} AddReplicasPartial<B>(r: Ring<B>, hs: seq<nat>, b: B)
    requires Valid(r)
    ensures var k := FirstClash(r.bucketMap.Keys, hs);
            && (AddReplicas(r, hs, b).error.None? <==> k == |hs|)
            && AddReplicas(r, hs, b).ring.bucketMap == r.bucketMap + Owned(hs[..k], b)
    decreases |hs|
  {
    var k := FirstClash(r.bucketMap.Keys, hs);
    if |hs| == 0 || hs[0] in r.bucketMap {
      assert hs[..k] == [];
    } else {
      var r' := Ring(r.replicas, Insort(r.keys, hs[0]), r.bucketMap[hs[0] := b]);
      assert r'.bucketMap.Keys == r.bucketMap.Keys + {hs[0]};
      AddReplicasPartial(r', hs[1..], b);
      var k' := FirstClash(r'.bucketMap.Keys, hs[1..]);
      assert k == 1 + k';
      assert AddReplicas(r, hs, b) == AddReplicas(r', hs[1..], b);
      PrefixCons(hs, k');
      OwnedCons(r.bucketMap, hs[0], hs[1..][..k'], b);
    }
  }

  /** Whether or not `remove_bucket` raises, the positions before the first
      missing one are gone from the ring, and nothing else was deleted; the
      error names that first missing position. */
  lemma {:induction false} RemoveReplicasPartial<B>(r: Ring<B>, hs: seq<nat>)
    requires Valid(r)
    ensures var k := FirstMissing(r.bucketMap.Keys, hs);
            && RemoveReplicas(r, hs).error == (if k == |hs| then None else Some(MissingReplica(hs[k])))
            && RemoveReplicas(r, hs).ring.bucketMap == r.bucketMap - Elems(hs[..k])
    decreases |hs|
  {
    var k := FirstMissing(r.bucketMap.Keys, hs);
    if |hs| == 0 || hs[0] !in r.bucketMap {
      assert hs[..k] == [];
    } else {
      var r' := Ring(r.replicas, DeleteKey(r.keys, hs[0]), r.bucketMap - {hs[0]});
      assert r'.bucketMap.Keys == r.bucketMap.Keys - {hs[0]};
      RemoveReplicasPartial(r', hs[1..]);
      var k' := FirstMissing(r'.bucketMap.Keys, hs[1..]);
      assert k == 1 + k';
      assert RemoveReplicas(r, hs) == RemoveReplicas(r', hs[1..]);
      PrefixCons(hs, k');
      MinusCons(r.bucketMap, hs[0], hs[1..][..k']);
      assert k' < |hs[1..]| ==> hs[1..][k'] == hs[k];
    }
  }

  // ---------------------------------------------------------------------
  // the public operations

  lemma DistinctCard(s: seq<nat>)
    requires Distinct(s)
    ensures |Elems(s)| == |s|
    decreases |s|
  {
    if |s| > 0 {
      DistinctTail(s);
      DistinctCard(s[1..]);
      assert Elems(s) == {s[0]} + Elems(s[1..]);
    }
  }

  /** The key list of a valid ring is as long as the map is large. */
  lemma KeysCard<B>(r: Ring<B>)
    requires Valid(r)
    ensures |r.keys| == |r.bucketMap|
  {
    DistinctCard(r.keys);
    assert r.bucketMap.Keys == Elems(r.keys);
  }

  /** `add_bucket`: on success every replica label of `b` hashes to a new
      position owned by `b`, the ring grows by exactly `replicas`, and no
      existing position changes owner. */
  function AddBucket<B(==)>(env: Env<B>, r: Ring<B>, b: B): (out: Step<B>)
    requires Valid(r)
    ensures Valid(out.ring) && out.ring.replicas == r.replicas
    ensures out.error.None? ==>
              && |out.ring.keys| == |r.keys| + r.replicas
              && (forall i :: 0 <= i < r.replicas ==>
                    var h := env.hash(ReplicaLabel(env.show(b), i));
                    h !in r.bucketMap && h in out.ring.bucketMap && out.ring.bucketMap[h] == b)
              && (forall h :: h in out.ring.bucketMap && h !in r.bucketMap ==> out.ring.bucketMap[h] == b)
    ensures out.error.Some? ==> out.error == Some(AlreadyPresent)
    ensures forall h :: h in r.bucketMap ==> h in out.ring.bucketMap && out.ring.bucketMap[h] == r.bucketMap[h]
    ensures out.error.None? <==> Fresh(r.bucketMap.Keys, ReplicaHashes(env, b, r.replicas))
  {
    var hs := ReplicaHashes(env, b, r.replicas);
    var out := AddReplicas(r, hs, b);
    assert forall i :: 0 <= i < r.replicas ==> hs[i] in hs;
    if out.error.None? then
      AddReplicasGrows(r, hs, b);
      out
    else out
  }

  /** `add_bucket` that raises part way: the replicas before the first
      clashing one stay on the ring owned by `b`; nothing else changed. */
  lemma AddBucketPartial<B>(env: Env<B>, r: Ring<B>, b: B)
    requires Valid(r)
    ensures var hs := ReplicaHashes(env, b, r.replicas);
            AddBucket(env, r, b).ring.bucketMap == r.bucketMap + Owned(hs[..FirstClash(r.bucketMap.Keys, hs)], b)
  {
    AddReplicasPartial(r, ReplicaHashes(env, b, r.replicas), b);
  }

  /** A successful run of the `add_bucket` loop adds one key per position. */
  lemma AddReplicasGrows<B>(r: Ring<B>, hs: seq<nat>, b: B)
    requires Valid(r) && AddReplicas(r, hs, b).error.None?
    ensures |AddReplicas(r, hs, b).ring.keys| == |r.keys| + |hs|
  {
    var out := AddReplicas(r, hs, b);
    assert out.ring.bucketMap.Keys == r.bucketMap.Keys + Elems(hs);
    assert r.bucketMap.Keys !! Elems(hs);
    DistinctCard(hs);
    KeysCard(r);
    KeysCard(out.ring);
  }

  /** `remove_bucket`: on success the positions of every replica label of
      `b` are gone from the ring and nothing else changed. */
  function RemoveBucket<B(==)>(env: Env<B>, r: Ring<B>, b: B): (out: Step<B>)
    requires Valid(r)
    ensures Valid(out.ring) && out.ring.replicas == r.replicas
    ensures out.error.None? ==>
              forall i :: 0 <= i < r.replicas ==>
                var h := env.hash(ReplicaLabel(env.show(b), i));
                h in r.bucketMap && h !in out.ring.bucketMap
    ensures out.error.Some? ==> out.error.value.MissingReplica?
    ensures forall h :: h in out.ring.bucketMap ==> h in r.bucketMap && out.ring.bucketMap[h] == r.bucketMap[h]
    ensures r.replicas > 0 && env.hash(ReplicaLabel(env.show(b), 0)) !in r.bucketMap ==>
              out == Step(r, Some(MissingReplica(env.hash(ReplicaLabel(env.show(b), 0)))))
    ensures var hs := ReplicaHashes(env, b, r.replicas);
            var k := FirstMissing(r.bucketMap.Keys, hs);
            && (out.error.None? <==> Present(r.bucketMap.Keys, hs))
            && out.error == (if k == |hs| then None else Some(MissingReplica(hs[k])))
            && out.ring.bucketMap == r.bucketMap - Elems(hs[..k])
  {
    var hs := ReplicaHashes(env, b, r.replicas);
    assert forall i :: 0 <= i < r.replicas ==> hs[i] in hs;
    RemoveReplicasPartial(r, hs);
    RemoveReplicas(r, hs)
  }

  /** The map arithmetic behind `RemoveUndoesAdd`: adding fresh positions
      and then removing exactly those positions gives the map back. */
  lemma UndoMaps<B>(m0: map<nat, B>, m1: map<nat, B>, m2: map<nat, B>, hs: seq<nat>)
    requires forall h :: h in m0 ==> h in m1 && m1[h] == m0[h]
    requires forall h :: h in m1 ==> h in m0 || h in hs
    requires forall h :: h in hs ==> h !in m0
    requires forall h :: h in m2 ==> h in m1 && m2[h] == m1[h]
    requires forall h :: h in m1 ==> (h in m2 <==> h !in hs)
    ensures m2 == m0
  {
    assert m2.Keys == m0.Keys;
  }

  /** `remove_bucket(b)` right after a successful `add_bucket(b)` gives back
      the ring as it was. */
  lemma RemoveUndoesAdd<B>(env: Env<B>, r: Ring<B>, b: B)
    requires Valid(r)
    requires AddBucket(env, r, b).error.None?
    ensures RemoveBucket(env, AddBucket(env, r, b).ring, b) == Step(r, None)
  {
    var hs := ReplicaHashes(env, b, r.replicas);
    var added := AddReplicas(r, hs, b);
    assert added == AddBucket(env, r, b);
    var removed := RemoveReplicas(added.ring, hs);
    assert removed == RemoveBucket(env, added.ring, b);
    assert removed.error.None?;
    UndoMaps(r.bucketMap, added.ring.bucketMap, removed.ring.bucketMap, hs);
    assert Elems(removed.ring.keys) == Elems(r.keys);
    SortedUnique(removed.ring.keys, r.keys);
  }

  /** Adding a bucket that was just added raises at its first replica and
      leaves the ring untouched. */
  lemma ReAddFails<B>(env: Env<B>, r: Ring<B>, b: B)
    requires Valid(r) && r.replicas > 0
    requires AddBucket(env, r, b).error.None?
    ensures var r' := AddBucket(env, r, b).ring;
            AddBucket(env, r', b) == Step(r', Some(AlreadyPresent))
  {
    var r' := AddBucket(env, r, b).ring;
    var hs := ReplicaHashes(env, b, r.replicas);
    assert hs[0] in r'.bucketMap;
    assert ReplicaHashes(env, b, r'.replicas) == hs;
  }

  /** Removing a bucket twice: the second removal raises on the first
      replica and changes nothing. */
  lemma ReRemoveFails<B>(env: Env<B>, r: Ring<B>, b: B)
    requires Valid(r) && r.replicas > 0
    requires RemoveBucket(env, r, b).error.None?
    ensures var r' := RemoveBucket(env, r, b).ring;
            var h := env.hash(ReplicaLabel(env.show(b), 0));
            RemoveBucket(env, r', b) == Step(r', Some(MissingReplica(h)))
  {
  }

  // ---------------------------------------------------------------------
  // select_bucket

  /** `k` is the first ring position strictly after `h`, or the smallest
      position when no position is after `h`. */
  ghost predicate IsSuccessor(keys: seq<nat>, h: nat, k: nat) {
    && k in keys
    && (|| (h < k && forall k' :: k' in keys && h < k' ==> k <= k')
        || ((forall k' :: k' in keys ==> k' <= h) && (forall k' :: k' in keys ==> k <= k')))
  }

  /** The successor position is unique. */
  lemma SuccessorUnique(keys: seq<nat>, h: nat, k1: nat, k2: nat)
    requires IsSuccessor(keys, h, k1) && IsSuccessor(keys, h, k2)
    ensures k1 == k2
  {
  }

  /** `select_bucket` given `str(key)`: the owner of the successor position
      of the key's hash; raises on a ring without buckets. */
  function SelectBucket<B(==)>(env: Env<B>, r: Ring<B>, key: string): (res: Result<B, RingError>)
    requires Valid(r)
    ensures |r.keys| == 0 <==> res == Failure(EmptyRing)
    ensures res.Success? <==> |r.keys| > 0
    ensures res.Success? ==> exists k :: k in r.bucketMap && r.bucketMap[k] == res.value
    ensures res.Success? ==>
              exists k :: IsSuccessor(r.keys, env.hash(key), k) && r.bucketMap[k] == res.value
  {
    var h := env.hash(key);
    var found := BisectRight(r.keys, h);
    var start := if found == |r.keys| then 0 else found;
    if |r.keys| == 0 then Failure(EmptyRing)
    else
      var k := r.keys[start];
      assert k in Elems(r.keys);
      assert IsSuccessor(r.keys, h, k) by {
        if found == |r.keys| {
          forall k' | k' in r.keys ensures k <= k' {
            var j :| 0 <= j < |r.keys| && r.keys[j] == k';
            assert 0 < j ==> r.keys[0] < r.keys[j];
          }
        } else {
          forall k' | k' in r.keys && h < k' ensures k <= k' {
            var j :| 0 <= j < |r.keys| && r.keys[j] == k';
            assert j < start ==> k' <= h;
            assert start < j ==> k < k';
          }
        }
      }
      Success(r.bucketMap[k])
  }

  // ---------------------------------------------------------------------
  // the constructor

  /** Growing by `a` once and then by `a` for each of `n - 1` more steps is
      growing by `a` for each of `n` steps. */
  lemma GrowthStep(k0: nat, k1: nat, k2: nat, a: nat, n: nat)
    requires n > 0 && k1 == k0 + a && k2 == k1 + a * (n - 1)
    ensures k2 == k0 + a * n
  {
    assert a * n == a + a * (n - 1);
  }

  function AddBuckets<B(==)>(env: Env<B>, r: Ring<B>, buckets: seq<B>): (res: Result<Ring<B>, RingError>)
    requires Valid(r)
    ensures res.Success? ==>
              && Valid(res.value) && res.value.replicas == r.replicas
              && |res.value.keys| == |r.keys| + r.replicas * |buckets|
    ensures res.Failure? ==> res.error == AlreadyPresent
    decreases |buckets|
  {
    if |buckets| == 0 then Success(r)
    else
      var step := AddBucket(env, r, buckets[0]);
      if step.error.Some? then Failure(step.error.value)
      else
        var rest := AddBuckets(env, step.ring, buckets[1..]);
        if rest.Success? then
          GrowthStep(|r.keys|, |step.ring.keys|, |rest.value.keys|, r.replicas, |buckets|);
          rest
        else rest
  }

  /** No clash before the end exactly when all positions can be inserted. */
  lemma FirstClashFresh(keys: set<nat>, hs: seq<nat>)
    ensures FirstClash(keys, hs) == |hs| <==> Fresh(keys, hs)
  {
    var k := FirstClash(keys, hs);
    if k < |hs| && hs[k] in hs[..k] {
      var j :| 0 <= j < k && hs[..k][j] == hs[k];
      assert hs[j] == hs[k];
    }
    assert k == |hs| ==> hs[..k] == hs;
  }

  /** The replica positions of every bucket, bucket after bucket. */
  function AllReplicaHashes<B(==)>(env: Env<B>, buckets: seq<B>, n: nat): seq<nat>
    decreases |buckets|
  {
    if |buckets| == 0 then [] else ReplicaHashes(env, buckets[0], n) + AllReplicaHashes(env, buckets[1..], n)
  }

  /** Inserting `a + b` is inserting `a` and then `b` into the enlarged ring. */
  lemma FreshConcat(keys: set<nat>, a: seq<nat>, b: seq<nat>)
    ensures Fresh(keys, a + b) <==> Fresh(keys, a) && Fresh(keys + Elems(a), b)
    ensures Elems(a + b) == Elems(a) + Elems(b)
  {
    var ab := a + b;
    assert forall h :: h in ab <==> h in a || h in b;
    if Fresh(keys, a) && Fresh(keys + Elems(a), b) {
      forall i, j | 0 <= i < j < |ab| ensures ab[i] != ab[j] {
        if j < |a| {
          assert ab[i] == a[i] && ab[j] == a[j];
        } else if i < |a| {
          assert ab[i] == a[i] && ab[j] == b[j - |a|];
          assert a[i] in Elems(a);
        } else {
          assert ab[i] == b[i - |a|] && ab[j] == b[j - |a|];
        }
      }
    }
    if Fresh(keys, ab) {
      forall i, j | 0 <= i < j < |a| ensures a[i] != a[j] {
        assert ab[i] == a[i] && ab[j] == a[j];
      }
      forall i, j | 0 <= i < j < |b| ensures b[i] != b[j] {
        assert ab[|a| + i] == b[i] && ab[|a| + j] == b[j];
      }
      forall h | h in b ensures h !in Elems(a) {
        var j :| 0 <= j < |b| && b[j] == h;
        assert ab[|a| + j] == h;
        forall i | 0 <= i < |a| ensures a[i] != h {
          assert ab[i] == a[i];
        }
      }
    }
  }

  /** The constructor succeeds exactly when no replica position of any
      bucket repeats or is already on the ring, and then the ring holds
      exactly the old positions and those of the new buckets. */
  lemma {:induction false} AddBucketsSucceeds<B>(env: Env<B>, r: Ring<B>, buckets: seq<B>)
    requires Valid(r)
    ensures var all := AllReplicaHashes(env, buckets, r.replicas);
            && (AddBuckets(env, r, buckets).Success? <==> Fresh(r.bucketMap.Keys, all))
            && (AddBuckets(env, r, buckets).Success? ==>
                  AddBuckets(env, r, buckets).value.bucketMap.Keys == r.bucketMap.Keys + Elems(all))
    decreases |buckets|
  {
    if |buckets| > 0 {
      var hs0 := ReplicaHashes(env, buckets[0], r.replicas);
      var rest := AllReplicaHashes(env, buckets[1..], r.replicas);
      assert AllReplicaHashes(env, buckets, r.replicas) == hs0 + rest;
      FreshConcat(r.bucketMap.Keys, hs0, rest);
      var step := AddBucket(env, r, buckets[0]);
      if step.error.None? {
        AddBucketPartial(env, r, buckets[0]);
        FirstClashFresh(r.bucketMap.Keys, hs0);
        assert hs0[..|hs0|] == hs0;
        assert step.ring.bucketMap.Keys == r.bucketMap.Keys + Elems(hs0);
        AddBucketsSucceeds(env, step.ring, buckets[1..]);
      }
    }
  }

  /** After the constructor every bucket owns each of its replica positions,
      and positions that were on the ring keep their owner. */
  lemma {:induction false} AddBucketsOwners<B>(env: Env<B>, r: Ring<B>, buckets: seq<B>)
    requires Valid(r) && AddBuckets(env, r, buckets).Success?
    ensures var m := AddBuckets(env, r, buckets).value.bucketMap;
            forall h :: h in r.bucketMap ==> h in m && m[h] == r.bucketMap[h]
    ensures var m := AddBuckets(env, r, buckets).value.bucketMap;
            forall j, i :: 0 <= j < |buckets| && 0 <= i < r.replicas ==>
              env.hash(ReplicaLabel(env.show(buckets[j]), i)) in m &&
              m[env.hash(ReplicaLabel(env.show(buckets[j]), i))] == buckets[j]
    decreases |buckets|
  {
    if |buckets| > 0 {
      var step := AddBucket(env, r, buckets[0]);
      AddBucketsOwners(env, step.ring, buckets[1..]);
      var m := AddBuckets(env, r, buckets).value.bucketMap;
      forall j, i | 0 <= j < |buckets| && 0 <= i < r.replicas
        ensures env.hash(ReplicaLabel(env.show(buckets[j]), i)) in m
        ensures m[env.hash(ReplicaLabel(env.show(buckets[j]), i))] == buckets[j]
      {
        if j > 0 {
          assert buckets[1..][j - 1] == buckets[j];
        }
      }
    }
  }

  /** `ConsistentHashRing(buckets, replicas)`: add every bucket in order,
      the first failure propagating out of the constructor. */
  function NewRing<B(==)>(env: Env<B>, buckets: seq<B>, replicas: nat): (res: Result<Ring<B>, RingError>)
    ensures res.Success? ==> Valid(res.value) && res.value.replicas == replicas
    ensures res.Success? ==> |res.value.keys| == replicas * |buckets|
    ensures |buckets| == 0 ==> res == Success(Initial(replicas))
    ensures res.Success? <==> Distinct(AllReplicaHashes(env, buckets, replicas))
    ensures res.Success? ==> res.value.bucketMap.Keys == Elems(AllReplicaHashes(env, buckets, replicas))
    ensures res.Success? ==>
              forall j, i :: 0 <= j < |buckets| && 0 <= i < replicas ==>
                env.hash(ReplicaLabel(env.show(buckets[j]), i)) in res.value.bucketMap &&
                res.value.bucketMap[env.hash(ReplicaLabel(env.show(buckets[j]), i))] == buckets[j]
  {
    var res := AddBuckets(env, Initial(replicas), buckets);
    AddBucketsSucceeds(env, Initial(replicas), buckets);
    if res.Success? then
      AddBucketsOwners(env, Initial(replicas), buckets);
      res
    else res
  }
}
