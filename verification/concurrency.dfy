/** Optimistic concurrency protection of model forms: the hidden
    `object_version` field (`pk-hash-hmac`), the object hash over the
    sorted field values, and the decision the form's cleaning makes by
    comparing the submitted version with the database. */
module Concurrency {
  import opened Wrappers
  import Text

  // ---------------------------------------------------------------------
  // Order of Python strings

  /** Python's `<` on strings: lexicographic by code point. */
  predicate LexLess(a: string, b: string)
    decreases |a|
  {
    |b| > 0 && (|a| == 0 || a[0] < b[0] || (a[0] == b[0] && LexLess(a[1..], b[1..])))
  }

  lemma {:induction false} LexIrreflexive(a: string)
    ensures !LexLess(a, a)
    decreases |a|
  {
    if |a| > 0 {
      LexIrreflexive(a[1..]);
    }
  }

  lemma {:induction false} LexTransitive(a: string, b: string, c: string)
    requires LexLess(a, b) && LexLess(b, c)
    ensures LexLess(a, c)
    decreases |a|
  {
    if |a| > 0 && a[0] == b[0] && b[0] == c[0] {
      LexTransitive(a[1..], b[1..], c[1..]);
    }
  }

  lemma {:induction false} LexTotal(a: string, b: string)
    requires a != b
    ensures LexLess(a, b) || LexLess(b, a)
    decreases |a|
  {
    if |a| > 0 && |b| > 0 && a[0] == b[0] {
      assert a == [a[0]] + a[1..] && b == [b[0]] + b[1..];
      LexTotal(a[1..], b[1..]);
    }
  }

  lemma LexAsymmetric(a: string, b: string)
    requires LexLess(a, b)
    ensures !LexLess(b, a)
  {
    if LexLess(b, a) {
      LexTransitive(a, b, a);
      LexIrreflexive(a);
    }
  }

  // ---------------------------------------------------------------------
  // _gen_object_hash: the field items in key order

  /** One field of `model_to_dict(obj)`: its name and the text of its value. */
  type Item = (string, string)

  predicate KeysDistinct(items: seq<Item>) {
    forall i, j :: 0 <= i < j < |items| ==> items[i].0 != items[j].0
  }

  predicate SortedByKey(items: seq<Item>) {
    forall i, j :: 0 <= i < j < |items| ==> LexLess(items[i].0, items[j].0)
  }

  function Elems(items: seq<Item>): set<Item> {
    set i | 0 <= i < |items| :: items[i]
  }

  /** One step of insertion into a key-ordered list. */
  function Insert(x: Item, s: seq<Item>): (r: seq<Item>)
    ensures Elems(r) == Elems(s) + {x}
    ensures |r| == |s| + 1
  {
    if |s| == 0 then
      ElemsCons(x, s);
      assert [x] + s == [x];
      [x]
    else if LexLess(x.0, s[0].0) then
      ElemsCons(x, s);
      [x] + s
    else
      var rest := Insert(x, s[1..]);
      ElemsCons(s[0], s[1..]);
      assert s == [s[0]] + s[1..];
      ElemsCons(s[0], rest);
      [s[0]] + rest
  }

  lemma ElemsCons(x: Item, s: seq<Item>)
    ensures Elems([x] + s) == {x} + Elems(s)
  {
    var t := [x] + s;
    forall y | y in Elems(t) ensures y in {x} + Elems(s) {
      var i :| 0 <= i < |t| && t[i] == y;
      if i > 0 {
        assert s[i - 1] == y;
      }
    }
    forall y | y in Elems(s) ensures y in Elems(t) {
      var i :| 0 <= i < |s| && s[i] == y;
      assert t[i + 1] == y;
    }
    assert t[0] == x;
  }

  /** Inserting a new key into a key-ordered list keeps it ordered. */
  lemma {:induction false} InsertSorted(x: Item, s: seq<Item>)
    requires SortedByKey(s)
    requires forall i :: 0 <= i < |s| ==> s[i].0 != x.0
    ensures SortedByKey(Insert(x, s))
    decreases |s|
  {
    if |s| > 0 {
      LexTotal(x.0, s[0].0);
      if LexLess(x.0, s[0].0) {
        var r := [x] + s;
        forall i, j | 0 <= i < j < |r| ensures LexLess(r[i].0, r[j].0) {
          if i == 0 && j > 1 {
            LexTransitive(x.0, s[0].0, s[j - 1].0);
          }
        }
      } else {
        InsertSorted(x, s[1..]);
        var rest := Insert(x, s[1..]);
        HeadBelowRest(x, s, rest);
        var r := [s[0]] + rest;
        forall i, j | 0 <= i < j < |r| ensures LexLess(r[i].0, r[j].0) {
          if i > 0 {
            assert r[i] == rest[i - 1] && r[j] == rest[j - 1];
          } else {
            assert r[j] == rest[j - 1];
          }
        }
      }
    }
  }

  /** The head of an ordered list is below every element of the tail with
      one more key above it inserted. */
  lemma HeadBelowRest(x: Item, s: seq<Item>, rest: seq<Item>)
    requires SortedByKey(s) && |s| > 0 && LexLess(s[0].0, x.0)
    requires Elems(rest) == Elems(s[1..]) + {x}
    ensures forall k :: 0 <= k < |rest| ==> LexLess(s[0].0, rest[k].0)
  {
    forall k | 0 <= k < |rest| ensures LexLess(s[0].0, rest[k].0) {
      assert rest[k] in Elems(rest);
      if rest[k] != x {
        var j :| 0 <= j < |s[1..]| && rest[k] == s[1..][j];
        assert rest[k] == s[j + 1];
      }
    }
  }

  /** `sorted(items)`; for items with distinct keys this orders by key. */
  function SortItems(items: seq<Item>): (r: seq<Item>)
    ensures Elems(r) == Elems(items)
    ensures |r| == |items|
  {
    if |items| == 0 then []
    else
      var init := items[..|items| - 1];
      assert Elems(items) == Elems(init) + {items[|items| - 1]} by {
        assert forall i :: 0 <= i < |init| ==> init[i] == items[i];
      }
      Insert(items[|items| - 1], SortItems(init))
  }

  lemma {:induction false} SortItemsSorted(items: seq<Item>)
    requires KeysDistinct(items)
    ensures SortedByKey(SortItems(items))
    decreases |items|
  {
    if |items| > 0 {
      var init := items[..|items| - 1];
      var x := items[|items| - 1];
      SortItemsSorted(init);
      var s := SortItems(init);
      forall i | 0 <= i < |s| ensures s[i].0 != x.0 {
        assert s[i] in Elems(s);
        var j :| 0 <= j < |init| && init[j] == s[i];
        assert items[j] == s[i];
      }
      InsertSorted(x, s);
    }
  }

  lemma HeadIsLeast(s: seq<Item>, x: Item)
    requires SortedByKey(s) && x in Elems(s)
    ensures |s| > 0 && (s[0] == x || LexLess(s[0].0, x.0))
  {
    var j :| 0 <= j < |s| && s[j] == x;
  }

  lemma TailElems(s: seq<Item>)
    requires SortedByKey(s) && |s| > 0
    ensures SortedByKey(s[1..])
    ensures Elems(s[1..]) == Elems(s) - {s[0]}
  {
    forall i | 0 < i < |s| ensures s[i] != s[0] {
      LexIrreflexive(s[0].0);
    }
    assert forall i :: 0 < i < |s| ==> s[1..][i - 1] == s[i];
  }

  lemma ElemsEmpty(s: seq<Item>)
    ensures Elems(s) == {} ==> s == []
  {
    if |s| > 0 {
      assert s[0] in Elems(s);
    }
  }

  /** A key-sorted list is fixed by its elements. */
  lemma {:induction false} SortedUnique(a: seq<Item>, b: seq<Item>)
    requires SortedByKey(a) && SortedByKey(b) && Elems(a) == Elems(b)
    ensures a == b
    decreases |a|
  {
    if |a| == 0 {
      ElemsEmpty(b);
    } else {
      assert a[0] in Elems(b);
      HeadIsLeast(b, a[0]);
      HeadIsLeast(a, b[0]);
      if a[0] != b[0] {
        LexAsymmetric(a[0].0, b[0].0);
      }
      TailElems(a);
      TailElems(b);
      SortedUnique(a[1..], b[1..]);
      assert a == [a[0]] + a[1..];
      assert b == [b[0]] + b[1..];
    }
  }

  /** `u'%s=%s' % (k, v)` for each item. */
  function Pairs(items: seq<Item>): (r: seq<string>)
    ensures |r| == |items|
  {
    seq(|items|, i requires 0 <= i < |items| => items[i].0 + "=" + items[i].1)
  }

  /** The text `_gen_object_hash` feeds to SHA-256: the `k=v` pairs in
      sorted order joined by single spaces. */
  function ObjectData(items: seq<Item>): (r: string)
    ensures r == "" <==> |items| == 0
  {
    var ps := Pairs(SortItems(items));
    assert |ps| > 0 ==> |ps[0]| > 0;
    Text.Join(ps, " ")
  }

  /** The data depends only on which fields have which values, not on the
      order in which the dictionary lists them. */
  lemma ObjectDataOrderFree(a: seq<Item>, b: seq<Item>)
    requires KeysDistinct(a) && KeysDistinct(b) && Elems(a) == Elems(b)
    ensures ObjectData(a) == ObjectData(b)
  {
    SortItemsSorted(a);
    SortItemsSorted(b);
    SortedUnique(SortItems(a), SortItems(b));
  }

  /** The primitives the module relies on: SHA-256 and the salted HMAC
      (both as hex digests), here as parameters. */
  datatype Digests = Digests(sha256: string -> string, hmac: (string, string) -> string)

  function ObjectHash(d: Digests, items: seq<Item>): string {
    d.sha256(ObjectData(items))
  }

  /** The object hash is therefore independent of the field order too. */
  lemma ObjectHashOrderFree(d: Digests, a: seq<Item>, b: seq<Item>)
    requires KeysDistinct(a) && KeysDistinct(b) && Elems(a) == Elems(b)
    ensures ObjectHash(d, a) == ObjectHash(d, b)
  {
    ObjectDataOrderFree(a, b);
  }

  // ---------------------------------------------------------------------
  // _gen_object_version and _validate_object_version

  /** `u'%s-%s-%s' % (pk, hash, hmac(pk, hash))`, or "" for an unsaved
      object. */
  function GenVersion(d: Digests, pk: Option<string>, items: seq<Item>): (v: string)
    ensures pk.None? <==> v == ""
    ensures pk.Some? ==> var h := ObjectHash(d, items);
              v == pk.value + "-" + h + "-" + d.hmac(pk.value, h)
  {
    match pk
    case None => ""
    case Some(p) =>
      var h := ObjectHash(d, items);
      p + "-" + h + "-" + d.hmac(p, h)
  }

  datatype VersionError = BadFormat | Tampered

  /** `s` reads as `pk-hash-mac` with three non-empty parts; only the mac
      may itself hold a `-`. */
  predicate WellShaped(s: string, pk: string, h: string, m: string) {
    && s == pk + "-" + h + "-" + m
    && pk != "" && h != "" && m != ""
    && '-' !in pk && '-' !in h
  }

  /** What validation extracts: the form's primary key and hash. */
  datatype FormVersion = NoVersion | Version(pk: string, hash: string)

  /** `_validate_object_version`: a missing or empty field gives no
      version; otherwise the text is split on the first two `-`, all three
      parts must be non-empty and the HMAC must match. */
  function ValidateVersion(d: Digests, field: Option<string>): (r: Result<FormVersion, VersionError>)
    ensures (field.None? || field == Some("")) <==> r == Success(NoVersion)
    ensures r.Success? && r.value.Version? ==>
              && field == Some(r.value.pk + "-" + r.value.hash + "-" + d.hmac(r.value.pk, r.value.hash))
              && r.value.pk != "" && r.value.hash != "" && '-' !in r.value.pk && '-' !in r.value.hash
    ensures r == Failure(Tampered) ==>
              && field.Some?
              && var p := Text.Split(field.value, '-', 2);
              && |p| == 3 && WellShaped(field.value, p[0], p[1], p[2])
              && p[2] != d.hmac(p[0], p[1])
  {
    if field.None? || field.value == "" then Success(NoVersion)
    else
      var parts := Text.Split(field.value, '-', 2);
      Text.SplitJoin(field.value, '-', 2);
      Text.SplitPartsNoSep(field.value, '-', 2);
      if |parts| != 3 || parts[0] == "" || parts[1] == "" || parts[2] == "" then Failure(BadFormat)
      else
        assert parts[1..][1..] == [parts[2]];
        assert Text.Join(parts[1..][1..], "-") == parts[2];
        assert Text.Join(parts[1..], "-") == parts[1] + "-" + parts[2];
        assert field.value == parts[0] + "-" + (parts[1] + "-" + parts[2]);
        assert field.value == parts[0] + "-" + parts[1] + "-" + parts[2];
        if parts[2] != d.hmac(parts[0], parts[1]) then Failure(Tampered)
        else Success(Version(parts[0], parts[1]))
  }

  /** A generated version is read back as its primary key and hash when
      the key's text is non-empty and has no `-` and the digests are
      non-empty hexadecimal strings. */
  lemma VersionRoundTrip(d: Digests, pk: string, items: seq<Item>)
    requires pk != "" && '-' !in pk
    requires var h := ObjectHash(d, items); h != "" && '-' !in h && d.hmac(pk, h) != ""
    ensures ValidateVersion(d, Some(GenVersion(d, Some(pk), items)))
            == Success(Version(pk, ObjectHash(d, items)))
  {
    var h := ObjectHash(d, items);
    SplitVersion(pk, h, d.hmac(pk, h));
  }

  /** The three parts of a version with the given key and hash. */
  lemma SplitVersion(pk: string, h: string, m: string)
    requires '-' !in pk && '-' !in h
    ensures Text.Split(pk + "-" + h + "-" + m, '-', 2) == [pk, h, m]
  {
    var v := pk + "-" + h + "-" + m;
    assert v == pk + ['-'] + (h + ['-'] + m);
    Text.SplitFirst(pk, '-', h + ['-'] + m, 2);
    Text.SplitFirst(h, '-', m, 1);
    Text.SplitNoSep(m, '-', 0);
  }

  /** A well-shaped version is accepted with its key and hash when the
      HMAC matches and rejected as tampered when it does not. */
  lemma ShapedVersionChecked(d: Digests, pk: string, h: string, m: string)
    requires WellShaped(pk + "-" + h + "-" + m, pk, h, m)
    ensures ValidateVersion(d, Some(pk + "-" + h + "-" + m))
            == if m == d.hmac(pk, h) then Success(Version(pk, h)) else Failure(Tampered)
  {
    SplitVersion(pk, h, m);
  }

  /** A non-empty version is a format error exactly when it cannot be read
      as `pk-hash-mac` with three non-empty parts and no `-` in the first
      two. */
  lemma BadFormatIffMisshaped(d: Digests, s: string)
    requires s != ""
    ensures ValidateVersion(d, Some(s)) == Failure(BadFormat)
            <==> !exists pk, h, m :: WellShaped(s, pk, h, m)
  {
    var r := ValidateVersion(d, Some(s));
    if pk, h, m :| WellShaped(s, pk, h, m) {
      ShapedVersionChecked(d, pk, h, m);
    }
    if r.Success? && r.value.Version? {
      assert WellShaped(s, r.value.pk, r.value.hash, d.hmac(r.value.pk, r.value.hash));
    }
  }

  /** A version with one `-` only has too few parts. */
  lemma TwoPartsRejected(d: Digests, a: string, b: string)
    requires '-' !in a && '-' !in b
    ensures ValidateVersion(d, Some(a + "-" + b)) == Failure(BadFormat)
  {
    assert a + "-" + b == a + ['-'] + b;
    Text.SplitFirst(a, '-', b, 2);
    Text.SplitNoSep(b, '-', 1);
  }

  // ---------------------------------------------------------------------
  // _clean_object_version

  /** The non-field problems the form reports. */
  datatype Problem = MissingVersionField | Removed | Changed

  datatype CleanError =
    | Invalid(error: VersionError)
    | PkMismatch        // RuntimeError: the version names another primary key
    | RowMissing        // DoesNotExist: the row was deleted after the form was loaded

  /** The form's state after cleaning `object_version`: the problem found,
      whether the submitted version was blanked, and the non-field errors. */
  datatype Cleaned = Cleaned(problem: Option<Problem>, versionCleared: bool, errors: seq<Problem>)

  /** `_clean_object_version`. `instancePk` is the text of the instance's
      primary key (None when unsaved); `dbRow` holds the fields of the row
      the database holds for that key, or None when there is no such row
      any more; `errors` are the non-field errors so far. */
  function CleanVersion(d: Digests, field: Option<string>, instancePk: Option<string>,
                        dbRow: Option<seq<Item>>, errors: seq<Problem>): (r: Result<Cleaned, CleanError>)
    ensures ValidateVersion(d, field).Failure? ==> r == Failure(Invalid(ValidateVersion(d, field).error))
    ensures r.Success? ==> (r.value.problem.None? <==> r.value.errors == errors)
    ensures r.Success? && r.value.problem.Some? ==> r.value.errors == errors + [r.value.problem.value]
    ensures r.Success? ==> (r.value.versionCleared <==> r.value.problem == Some(Removed))
  {
    match ValidateVersion(d, field)
    case Failure(e) => Failure(Invalid(e))
    case Success(v) =>
      var problem :- Decide(d, v, instancePk, dbRow);
      Success(Cleaned(problem, problem == Some(Removed), if problem.Some? then errors + [problem.value] else errors))
  }

  /** The four-way comparison of the submitted version with the instance,
      and, when both name the same key, the hash comparison with the row
      `objects.get` reads, which raises when the row is gone. */
  function Decide(d: Digests, v: FormVersion, instancePk: Option<string>, dbRow: Option<seq<Item>>): (r: Result<Option<Problem>, CleanError>)
    ensures v.NoVersion? && instancePk.None? ==> r == Success(None)
    ensures v.NoVersion? && instancePk.Some? ==> r == Success(Some(MissingVersionField))
    ensures v.Version? && instancePk.None? ==> r == Success(Some(Removed))
    ensures v.Version? && instancePk.Some? && v.pk != instancePk.value ==> r == Failure(PkMismatch)
    ensures v.Version? && instancePk.Some? && v.pk == instancePk.value && dbRow.None? ==> r == Failure(RowMissing)
    ensures v.Version? && instancePk.Some? && v.pk == instancePk.value && dbRow.Some? ==>
              r == Success(if v.hash == ObjectHash(d, dbRow.value) then None else Some(Changed))
    ensures dbRow.None? && r.Failure? ==> r == Failure(PkMismatch) || r == Failure(RowMissing)
  {
    match v
    case NoVersion =>
      if instancePk.None? then Success(None) else Success(Some(MissingVersionField))
    case Version(formPk, formHash) =>
      if instancePk.None? then Success(Some(Removed))
      else if formPk != instancePk.value then Failure(PkMismatch)
      else if dbRow.None? then Failure(RowMissing)
      else if formHash != ObjectHash(d, dbRow.value) then Success(Some(Changed))
      else Success(None)
  }

  /** A form generated from a saved object and submitted while the row is
      unchanged passes with no problem. */
  lemma UnchangedObjectPasses(d: Digests, pk: string, items: seq<Item>, errors: seq<Problem>)
    requires pk != "" && '-' !in pk
    requires var h := ObjectHash(d, items); h != "" && '-' !in h && d.hmac(pk, h) != ""
    ensures CleanVersion(d, Some(GenVersion(d, Some(pk), items)), Some(pk), Some(items), errors)
            == Success(Cleaned(None, false, errors))
  {
    VersionRoundTrip(d, pk, items);
  }

  /** A form generated from a saved object whose row has since changed its
      hash reports the change. */
  lemma ChangedObjectReported(d: Digests, pk: string, items: seq<Item>, dbItems: seq<Item>, errors: seq<Problem>)
    requires pk != "" && '-' !in pk
    requires var h := ObjectHash(d, items); h != "" && '-' !in h && d.hmac(pk, h) != ""
    requires ObjectHash(d, dbItems) != ObjectHash(d, items)
    ensures CleanVersion(d, Some(GenVersion(d, Some(pk), items)), Some(pk), Some(dbItems), errors)
            == Success(Cleaned(Some(Changed), false, errors + [Changed]))
  {
    VersionRoundTrip(d, pk, items);
  }

  /** A form generated from a saved object whose row has since been
      deleted fails with DoesNotExist, while a new or removed object never
      reads the row. */
  lemma DeletedRowRaises(d: Digests, pk: string, items: seq<Item>, field: Option<string>, errors: seq<Problem>)
    requires pk != "" && '-' !in pk
    requires var h := ObjectHash(d, items); h != "" && '-' !in h && d.hmac(pk, h) != ""
    ensures CleanVersion(d, Some(GenVersion(d, Some(pk), items)), Some(pk), None, errors) == Failure(RowMissing)
    ensures ValidateVersion(d, field).Success? ==>
              CleanVersion(d, field, None, None, errors) == CleanVersion(d, field, None, Some(items), errors)
  {
    VersionRoundTrip(d, pk, items);
  }
}
