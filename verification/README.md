# django-useful helpers, modelled in Dafny

This project models the sequential logic of the `useful` package. The package is a set of small independent helpers for Python and Django projects. Each helper becomes a Dafny module of immutable datatypes and pure functions. The following primitives are not modelled; each becomes a function-typed parameter or an input value:

- MD5, SHA-256 and salted HMAC;
- Python `repr`, `str` and `int()`;
- Django's `get_callable`, `urlencode` and `get_text_list`;
- the permission methods of a user;
- database look-ups.

The modules:

- `ConsistentHash` (`consistent_hash.dfy`): the consistent-hash ring.
  - A ring is a strictly sorted list of replica hashes plus a hash→bucket map.
  - `Valid` ties the two together, and every update preserves it.
  - Binary search is written as methods with loop invariants and agrees with the `bisect` definitions.
- `UrlPatterns` (`urlpatterns.dfy`): the permission grammar of `UrlPatterns`.
  - It models `PERM_RE`, `compile_perms`, `test_perm` and `_can_url`, the alias-to-keyword step of the view wrapper, and the default URL name.
- `CanUrl` (`can_url.dfy`): the resolver tree as a datatype.
  - It models the name table built by `get_all_callbacks`, plus `can_url` and the `CanUrl` template helper.
- `Choices` (`choices.dfy`): the validated name→(id, text) registry, its inverse look-ups, the sorted listing, `select` and `+`.
- `Transforms` (`transforms.dfy`): counting, indexing and grouping by key, the two-dict comparison, and batching.
- `Shortcuts` (`shortcuts.dfy`): `first`, `int_or_0`, `int_or_None` and interval overlap.
- `TemplateTags` (`templatetags.dfy`): the template filters `querydict_set`, `get`, `getfrom`, `intspace`, `intspace_r`, `middle_truncate` and `strip_path`.
- `Concurrency` (`concurrency.dfy`): the `pk-hash-hmac` object-version token and the decision table of `_clean_object_version`.
- `Caching` (`caching.dfy`): the decoration checks of `cached_function`, cache-key construction and get-or-compute over a map.
- `Crypto`, `Auth`, `AttrDict`, `I18n`, `VerifiedHttp` and `LogEntry`: the small pure rules of the remaining helpers.
- `Text` (`text.dfy`) and `Wrappers` (`wrappers.dfy`): the Python string primitives the helpers rely on, plus `Option`/`Result`.
  - The string primitives are `%d`, `str.split` with `maxsplit`, `join`, `in` and slicing with negative bounds.

Python exceptions become the `Failure` side of a `Result`, with one error constructor per exception the source raises.

## Model

| member | source | states |
|---|---|---|
| ConsistentHash.Initial | useful/consistent_hash.py:21-24 | a new ring has no replica hashes and satisfies the ring invariant |
| ConsistentHash.ReplicaHashes | useful/consistent_hash.py:38-42 | a bucket has exactly `replicas` hashes, the r-th being the hash of `"<bucket>:<r>"` |
| ConsistentHash.BinarySearchRight | useful/consistent_hash.py:69 | the binary search returns the insertion point after every key not greater than h (`bisect_right`) |
| ConsistentHash.BinarySearchLeft | useful/consistent_hash.py:56-58 | the binary search returns the insertion point before every key not less than h (`bisect_left`) |
| ConsistentHash.Insort | useful/consistent_hash.py:50 | inserting a new hash keeps the keys strictly sorted and adds exactly that hash |
| ConsistentHash.DeleteKey | useful/consistent_hash.py:56-58 | deleting at the `bisect_left` position of a present hash keeps the keys sorted and removes exactly that hash |
| ConsistentHash.SortedUnique | useful/consistent_hash.py:44-58 | two strictly sorted key lists with the same elements are equal, so the key list is determined by the map's domain |
| ConsistentHash.AddReplicas | useful/consistent_hash.py:45-50 | the replica loop keeps the invariant and never changes an existing entry; it succeeds exactly when the hashes are distinct and none is already in the map, and then each maps to the bucket; a first hash already present fails with the ring untouched |
| ConsistentHash.RemoveReplicas | useful/consistent_hash.py:53-58 | the delete loop keeps the invariant and only deletes; it succeeds exactly when the hashes are distinct and all present, and then exactly those are deleted; a missing first hash fails with the ring untouched |
| ConsistentHash.FirstClash | useful/consistent_hash.py:45-47 | the index of the first replica hash that is already on the ring or repeats an earlier one: every hash before it can be inserted |
| ConsistentHash.FirstMissing | useful/consistent_hash.py:53-55 | the index of the first replica hash that is not on the ring or was already deleted: every hash before it can be deleted |
| ConsistentHash.AddReplicasPartial | useful/consistent_hash.py:44-50 | success or failure, the map afterwards is the old map plus exactly the hashes before the first clash, each owned by the bucket; it fails exactly when there is a clash |
| ConsistentHash.RemoveReplicasPartial | useful/consistent_hash.py:52-58 | success or failure, the map afterwards is the old map minus exactly the hashes before the first missing one, and the KeyError names that first missing hash |
| ConsistentHash.FirstClashFresh | useful/consistent_hash.py:45-47 | no clash before the end exactly when every replica hash is new and distinct |
| ConsistentHash.KeysCard | useful/consistent_hash.py:49-50 | a valid ring has as many keys as map entries |
| ConsistentHash.AddBucket | useful/consistent_hash.py:44-50 | succeeds exactly when the bucket's replica hashes are distinct and none is on the ring; then exactly `replicas` new hashes are added and each maps to the bucket; existing entries are never changed; the only error is "already present" |
| ConsistentHash.AddBucketPartial | useful/consistent_hash.py:44-50 | after `add_bucket`, raised or not, the ring holds the old entries plus the bucket's replicas up to the first clashing one |
| ConsistentHash.RemoveBucket | useful/consistent_hash.py:52-58 | succeeds exactly when the bucket's replica hashes are distinct and all on the ring; the map afterwards is the old one minus the replicas before the first missing one, whose hash the KeyError names; a bucket whose first replica is absent fails with nothing changed |
| ConsistentHash.RemoveUndoesAdd | useful/consistent_hash.py:44-58 | removing a bucket right after adding it restores the previous keys and map exactly |
| ConsistentHash.ReAddFails | useful/consistent_hash.py:45-47 | adding a bucket that is already present fails at replica 0 and leaves the ring unchanged |
| ConsistentHash.ReRemoveFails | useful/consistent_hash.py:53-55 | removing a bucket twice fails on its first replica with the ring unchanged |
| ConsistentHash.SuccessorUnique | useful/consistent_hash.py:60-76 | the wrap-around successor of a hash is unique |
| ConsistentHash.SelectBucket | useful/consistent_hash.py:60-76 | fails exactly on an empty ring; otherwise it returns the owner of the first hash strictly greater than the key's hash, wrapping to the smallest one |
| ConsistentHash.AddBuckets | useful/consistent_hash.py:26-27 | adding buckets in order gives a valid ring with `replicas` keys per bucket, or the "already present" error |
| ConsistentHash.FreshConcat | useful/consistent_hash.py:26-27 | inserting two runs of hashes one after the other is possible exactly when inserting them together is |
| ConsistentHash.AddBucketsSucceeds | useful/consistent_hash.py:26-27 | adding buckets succeeds exactly when no replica hash of any of them repeats or is already on the ring; the ring then holds exactly the old hashes and all the new ones |
| ConsistentHash.AddBucketsOwners | useful/consistent_hash.py:26-27 | after adding buckets every bucket owns each of its replica hashes, and old hashes keep their owner |
| ConsistentHash.NewRing | useful/consistent_hash.py:21-27 | a ring built from a bucket list is valid with `replicas * len(buckets)` keys; it is built exactly when all replica hashes of all buckets are distinct, and then holds exactly those hashes, each owned by its bucket; with no buckets it is the empty ring |
| UrlPatterns.MatchPerm | useful/django/urlpatterns.py:179 | `PERM_RE.match` succeeds exactly when the first non-blank character can start an identifier; a matched alias is an identifier |
| UrlPatterns.MatchPermWhen | useful/django/urlpatterns.py:179 | `PERM_RE.match` succeeds exactly when the first non-blank character can start an identifier |
| UrlPatterns.MatchPermShape | useful/django/urlpatterns.py:179 | the matched perm is the longest `[\w.]` run after the blanks, starting with a letter or `_`; the alias, when present, is an identifier |
| UrlPatterns.MatchRender | useful/django/urlpatterns.py:179 | parsing `perm (alias)` or a bare `perm` gives back that pair; a bare perm gets the alias True |
| UrlPatterns.MatchRenderPadded | useful/django/urlpatterns.py:179 | surrounding blanks do not change the parsed pair |
| UrlPatterns.MatchIgnoresTail | useful/django/urlpatterns.py:222-223 | text after a matched `perm (alias)` is ignored, because the match anchors only at the start |
| UrlPatterns.AndItems | useful/django/urlpatterns.py:218-219 | a perms value that is not a list is a one-element AND list |
| UrlPatterns.CompilePieces | useful/django/urlpatterns.py:222-227 | an OR group compiles when every piece matches, to one pair per piece in order; otherwise the error names the first piece that does not match, every earlier piece having matched |
| UrlPatterns.CompilePerms | useful/django/urlpatterns.py:212-229 | one compiled group per AND item, in order; the first item that fails decides the error |
| UrlPatterns.CompileItem | useful/django/urlpatterns.py:222-227 | an AND item compiles exactly when every bar-separated piece matches `PERM_RE`; a failure names the first piece that does not |
| UrlPatterns.CompileItemFails | useful/django/urlpatterns.py:222-225 | a failing item raises RuntimeError naming the first of its bar-separated pieces that `PERM_RE` rejects; all pieces before it match |
| UrlPatterns.CompileItemPieces | useful/django/urlpatterns.py:222-227 | a compiled item has one (perm, alias) pair per bar-separated piece, each the match of that piece |
| UrlPatterns.TrailingBarFails | useful/django/urlpatterns.py:222-225 | a perms string ending in a bar has an empty last piece and is rejected |
| UrlPatterns.TestPerm | useful/django/urlpatterns.py:276-291 | the four reserved names read the user's flags, dotted names use `has_perm`, and other names use `has_module_perms` |
| UrlPatterns.DottedIgnoresModulePerms | useful/django/urlpatterns.py:284-291 | a dotted permission does not depend on the user's module permissions |
| UrlPatterns.CanUrlCheck | useful/django/urlpatterns.py:265-274 | when every AND group has a satisfied perm, the result is the union of the satisfied aliases; otherwise it is the empty set, or PermissionDenied when `raise_exception` is set |
| UrlPatterns.GrantedNonEmpty | useful/django/urlpatterns.py:265-274 | a granted non-empty spec returns a non-empty alias set, so the wrapper calls the view |
| UrlPatterns.PassAliases | useful/django/urlpatterns.py:239-245 | an empty alias set redirects; otherwise True is dropped, each alias becomes the keyword `alias=True` beside the original keywords, and an alias already among the keywords fails the assertion |
| UrlPatterns.WrappedView | useful/django/urlpatterns.py:238-261 | a denied user is redirected, or gets PermissionDenied when `raise_exception` is set; a granted user reaches the view with the aliases of every satisfied pair passed on as keywords |
| UrlPatterns.UrlName | useful/django/urlpatterns.py:201-205 | the URL name defaults to the view function's name; an explicit name, including None, is kept |
| UrlPatterns.UrlNameIsFuncName | useful/django/urlpatterns.py:201-205 | the URL is named after the view function exactly when no name was given or that same name was given |
| UrlPatterns.Decorate | useful/django/urlpatterns.py:186-210 | without perms the view is undecorated; with perms the pattern carries the compiled spec and fails exactly when compilation fails |
| CanUrl.Store | useful/django/can_url.py:40-48 | a repeated full name with different perms raises; otherwise the later callback replaces the earlier one |
| CanUrl.Nest | useful/django/can_url.py:33-35 | an empty inner namespace inherits the outer one; otherwise the result ends with the inner namespace and, when the outer one is non-empty, starts with it and `:` |
| CanUrl.Qualify | useful/django/can_url.py:39 | the full name ends with the pattern name, starts with `ns:` inside a namespace, and is the bare name at top level |
| CanUrl.WalkList | useful/django/can_url.py:30-48 | the walk fails only on a name conflict and never drops a name already in the table |
| CanUrl.WalkEntry | useful/django/can_url.py:30-48 | one entry of the walk fails only on a name conflict and never drops a name already in the table |
| CanUrl.NestJoin | useful/django/can_url.py:33-35 | a nested namespace is appended with `:` only after a non-empty outer namespace, giving the `:`-join of the namespace path |
| CanUrl.QualifyJoin | useful/django/can_url.py:39 | a pattern name is keyed `ns:name`, or plain `name` at top level |
| CanUrl.WalkListFlatten | useful/django/can_url.py:30-48 | the recursive walk equals storing the flattened list of (full name, callback) pairs in tree order; resolvers without a namespace inherit the outer one and unnamed patterns are skipped |
| CanUrl.BuildFacts | useful/django/can_url.py:38-48 | storing the pairs succeeds exactly when equal names carry equal perms; a failure names the first pair whose perms differ from an earlier one of its name; the table's keys are the names, and each name maps to its last callback |
| CanUrl.ConflictNamesRepeat | useful/django/can_url.py:38-47 | with `a` once and `b` twice with different perms, the error names `b` |
| CanUrl.GetAllCallbacks | useful/django/can_url.py:22-51 | the table of the whole tree: a conflict names the first pattern, in walk order, whose full name repeats with different perms; keys are the full names of named patterns, and later patterns win |
| CanUrl.NamespaceExample | useful/django/can_url.py:30-48 | a resolver with an empty namespace inherits `app`, and an unnamed pattern adds no key |
| CanUrl.FromTable | useful/django/can_url.py:64-69 | a name missing from the table raises NoReverseMatch |
| CanUrl.RunCheck | useful/django/can_url.py:71-77 | a view without `can_url_func` raises NoReverseMatch; PermissionDenied becomes False; otherwise the check's alias set is returned |
| CanUrl.CanUrlAsWritten | useful/django/can_url.py:54-77 | as written, a callable view raises TypeError, and a text view gives the same answer as the corrected lookup |
| CanUrl.CallableRejectedAsWritten | useful/django/can_url.py:61 | as written, a view passed as a callable fails on `':' not in view` and never reaches its check; the corrected lookup checks it |
| CanUrl.CanUrlOf | useful/django/can_url.py:54-77 | a callable view is checked directly; a namespaced name is looked up in the table; a plain name goes through `get_callable` |
| CanUrl.GetItem | useful/django/can_url.py:88-93 | `CanUrl[name]` is `can_url(user, name)` |
| CanUrl.Contains | useful/django/can_url.py:95-100 | `name in CanUrl` is the truth value of `can_url(user, name)`, and errors propagate |
| Choices.New | useful/django/choices.py:37-53 | checks names starting with `_`, then reserved names, then shared db ids, in that order; on success the object invariant holds |
| Choices.Get | useful/django/choices.py:72-79 | the db id of a defined name, else the default |
| Choices.GetAttr | useful/django/choices.py:81-88 | names the normal lookup finds (the class's methods, special methods such as `__add__` included, its instance fields, and what `object` provides) are members; other underscore and reserved names raise AttributeError, defined names give their id, and unknown names raise KeyError |
| Choices.SpecialMethodsFound | useful/django/choices.py:37-88 | `__init__`, `__add__` and `__getattr__` are found by the normal lookup; an underscore name is refused exactly when the lookup does not know it |
| Choices.NameOf | useful/django/choices.py:90-94 | the name registered for a db id; an unknown id raises |
| Choices.TextOf | useful/django/choices.py:96-100 | the text registered for a db id; an unknown id raises |
| Choices.LookupRoundTrip | useful/django/choices.py:90-100 | for every defined name, `name_of(get(n))` is n and `text_of(get(n))` is n's text; ids not in use are unknown to both |
| Choices.GetAttrAgreesWithGet | useful/django/choices.py:72-88 | attribute access and `get` give the same id for a defined name |
| Choices.ChoiceList | useful/django/choices.py:63-70 | `choices()` lists every definition exactly once, sorted ascending by db id |
| Choices.Select | useful/django/choices.py:114-124 | keeps exactly the requested names that are defined, with their definitions; a single key is wrapped in a list; the result is valid |
| Choices.Add | useful/django/choices.py:55-61 | the union of definitions with the right operand winning name clashes; it fails exactly when the merged definitions share a db id |
| Choices.AddSelf | useful/django/choices.py:55-61 | adding a registry to itself gives the same definitions |
| Choices.AddDisjoint | useful/django/choices.py:55-61 | registries with disjoint names and ids always merge |
| Transforms.CountBy | useful/transforms.py:7-13 | each key's count is the number of elements with that key, and only keys that occur appear |
| Transforms.CountsSumToLength | useful/transforms.py:7-13 | the counts sum to the input length |
| Transforms.DictBy | useful/transforms.py:16-28 | the keys are exactly the element keys, and the last element's key maps to its value |
| Transforms.DictByLastWins | useful/transforms.py:22-26 | every key maps to the value (or `get` attribute) of the last element with that key |
| Transforms.GroupBy | useful/transforms.py:31-39 | each group lists the values of the elements with that key, in input order |
| Transforms.GroupSizesAreCounts | useful/transforms.py:7-39 | group sizes equal the counts of `count_by_attr` |
| Transforms.CompareDicts | useful/transforms.py:68-79 | a common key is yielded exactly when the comparison holds; a one-sided key is yielded with Ellipsis on the missing side exactly when `only_common_keys` is off |
| Transforms.CompareDictsSwap | useful/transforms.py:68-79 | swapping the dicts and flipping the comparison yields the same keys with the pairs swapped |
| Transforms.CompareDictsCommonExamples | useful/transforms.py:56-61 | with only the common keys, `ne` yields just `b` and `eq` just `a`, as the docstring shows |
| Transforms.CompareDictsNeExample | useful/transforms.py:62-63 | with every key, `ne` yields `b` with both values and `c`, `d` against Ellipsis |
| Transforms.CompareDictsEqExample | useful/transforms.py:64-65 | with every key, `eq` yields `a` with both values and `c`, `d` against Ellipsis |
| Transforms.Batches | useful/transforms.py:82-113 | negative sizes fail, size 0 yields nothing; otherwise the batches concatenate to the input, each non-empty and at most `size` long, all but the last exactly `size` |
| Transforms.BatchesExample | useful/transforms.py:97-104 | 55 items in batches of 10 give five full batches and one of five |
| Shortcuts.First | useful/shortcuts.py:10-19 | the first element that passes the predicate (or is truthy when it is None), else the default |
| Shortcuts.IntOr0 | useful/shortcuts.py:22-26 | the parsed integer, 0 on ValueError or TypeError, other exceptions propagate |
| Shortcuts.IntOrNone | useful/shortcuts.py:29-33 | the parsed integer, None on ValueError or TypeError, other exceptions propagate |
| Shortcuts.IntFallbacksAgree | useful/shortcuts.py:22-33 | both return the same integer when parsing succeeds and differ only in the fallback, 0 against None |
| Shortcuts.Overlap | useful/shortcuts.py:36-61 | the overlap is never longer than either interval |
| Shortcuts.OverlapSymmetric | useful/shortcuts.py:61 | the overlap does not depend on argument order |
| Shortcuts.OverlapCountsCommonCells | useful/shortcuts.py:36-61 | a non-negative overlap is the number of integer points the half-open intervals share; otherwise they share none |
| Shortcuts.OverlapExamples | useful/shortcuts.py:38-59 | the doctest values |
| Shortcuts.OverlapNested | useful/shortcuts.py:46-53 | an interval inside another overlaps it by its own length |
| TemplateTags.QuerydictUpdate | useful/django/templatetags/useful.py:31-37 | a non-empty value replaces the parameter, an empty one removes it, and other parameters are untouched |
| TemplateTags.QuerydictClearAfterSet | useful/django/templatetags/useful.py:31-37 | setting then clearing a parameter leaves no trace of it |
| TemplateTags.QuerydictSet | useful/django/templatetags/useful.py:31-37 | the encoded text is that of the dictionary with the parameter replaced by the value, or removed for an empty value |
| TemplateTags.Get | useful/django/templatetags/useful.py:44-50 | the mapping's value for the key, or None |
| TemplateTags.GetFrom | useful/django/templatetags/useful.py:53-60 | the mapping's value for the key, or None, with the key first |
| TemplateTags.GetFromIsGet | useful/django/templatetags/useful.py:44-60 | `getfrom(k, m)` equals `get(m, k)` |
| TemplateTags.IntspaceStep | useful/django/templatetags/useful.py:63-73 | one substitution: no change when the leading digit run is shorter than 4; otherwise one space goes before its last three digits |
| TemplateTags.Intspace | useful/django/templatetags/useful.py:66-74 | the substitution is repeated until `INTSPACE_RE` no longer matches |
| TemplateTags.IntspaceGroups | useful/django/templatetags/useful.py:63-74 | rewriting to a fixed point groups the leading digit run in threes from the right, keeping the sign and everything after the run |
| TemplateTags.IntspaceIntGroups | useful/django/templatetags/useful.py:66-74 | for an integer, `intspace` is its sign followed by its digits grouped in threes |
| TemplateTags.IntspaceExamples | useful/django/templatetags/useful.py:66-74 | 300, 3000, 30000 and 300000 and their negatives format as "300", "3 000", "30 000", "300 000" and "-300" … "-300 000" |
| TemplateTags.IntspaceOnlyAddsSpaces | useful/django/templatetags/useful.py:73-74 | deleting the spaces from the result gives the input with its spaces deleted |
| TemplateTags.IntspaceIdempotent | useful/django/templatetags/useful.py:73-74 | the result is a fixed point: formatting it again changes nothing |
| TemplateTags.IntspaceR | useful/django/templatetags/useful.py:77-83 | `intspace_r` also only inserts spaces |
| TemplateTags.ReverseGroup3 | useful/django/templatetags/useful.py:83 | grouping the reversed text from the right and reversing back groups the text in threes from the left |
| TemplateTags.IntspaceRDigits | useful/django/templatetags/useful.py:77-83 | `intspace_r` of a digit string groups it in threes from the left, putting the short group at the end |
| TemplateTags.IntspaceRExample | useful/django/templatetags/useful.py:80-83 | "1234567" becomes "123 456 7" |
| TemplateTags.MiddleTruncateAsWritten | useful/django/templatetags/useful.py:131-140 | under Python 3 every string that would be cut with size above 3 raises, because the slice bound is a float |
| TemplateTags.MiddleTruncateFailsUnderPython3 | useful/django/templatetags/useful.py:134-136 | `middle_truncate("abcdefghij", 6)` raises as written; with floor division it is "a…ij" |
| TemplateTags.MiddleTruncate | useful/django/templatetags/useful.py:131-140 | short strings are unchanged; for size above 3 the result is the first (size-3)//2 characters, an ellipsis and the last (size-3)-(size-3)//2 characters; for smaller sizes it is the first `size` characters and an ellipsis |
| TemplateTags.MiddleTruncateAgreesOutsideCut | useful/django/templatetags/useful.py:131-140 | the corrected and the as-written filters agree wherever the as-written one does not raise |
| TemplateTags.StripPath | useful/django/templatetags/useful.py:163-169 | the result has no `/` and is the end of the path after a prefix that is empty or ends with `/` |
| TemplateTags.StripPathOf | useful/django/templatetags/useful.py:163-169 | a directory part followed by a slash-free name strips to that name |
| TemplateTags.StripPathExample | useful/django/templatetags/useful.py:163-169 | "/etc/passwd/shadow" strips to "shadow" |
| Concurrency.SortItems | useful/django/concurrency.py:160 | `sorted(items)` keeps the same items and the same length |
| Concurrency.SortItemsSorted | useful/django/concurrency.py:160 | fields with distinct names come out sorted by name, with the same elements |
| Concurrency.ObjectDataOrderFree | useful/django/concurrency.py:158-164 | the hashed `k=v` text depends only on the field→value pairs, not the order the dict lists them in |
| Concurrency.ObjectData | useful/django/concurrency.py:158-164 | the hashed text is empty exactly for an object with no fields |
| Concurrency.ObjectHashOrderFree | useful/django/concurrency.py:158-164 | the object hash depends only on the field→value pairs, not on their order |
| Concurrency.GenVersion | useful/django/concurrency.py:167-177 | empty for an unsaved object, otherwise `pk-hash-hmac(pk,hash)` |
| Concurrency.ValidateVersion | useful/django/concurrency.py:180-194 | a missing or empty version gives no pk and no hash; an accepted version is three non-empty parts whose HMAC matches; a tampered one has the `pk-hash-mac` shape with a mac that does not match |
| Concurrency.BadFormatIffMisshaped | useful/django/concurrency.py:185-189 | a non-empty version is a format error exactly when it cannot be read as `pk-hash-mac` with three non-empty parts and no `-` in the first two |
| Concurrency.VersionRoundTrip | useful/django/concurrency.py:167-194 | validating a generated version returns the pk and object hash, for pks without `-` |
| Concurrency.ShapedVersionChecked | useful/django/concurrency.py:185-194 | a well-shaped version is accepted with its pk and hash when the HMAC matches and reported as tampering when it does not |
| Concurrency.TwoPartsRejected | useful/django/concurrency.py:185-189 | a version with fewer than three parts is a format error |
| Concurrency.Decide | useful/django/concurrency.py:36-60 | the decision table: new object, missing version field, removed object, pk mismatch, and the hash comparison against the row `objects.get` reads, which raises DoesNotExist when the row has been deleted |
| Concurrency.CleanVersion | useful/django/concurrency.py:28-64 | a problem is appended to the non-field errors and nothing is added otherwise; the version field is cleared exactly for a removed object; format errors, the pk mismatch and a deleted row propagate |
| Concurrency.UnchangedObjectPasses | useful/django/concurrency.py:28-64 | a form carrying the version of the unchanged saved object passes with no problem |
| Concurrency.ChangedObjectReported | useful/django/concurrency.py:54-64 | a database object whose hash differs is reported as changed |
| Concurrency.DeletedRowRaises | useful/django/concurrency.py:44-56 | a saved object's version whose row has been deleted raises DoesNotExist; a removed object never reads the row |
| Caching.Decorate | useful/django/caching.py:51-58 | a function with default args, then a lambda, raises RuntimeError; anything else is wrapped |
| Caching.CachedFunction | useful/django/caching.py:92-101 | None gives the decorator factory, a callable is decorated, and any other argument raises |
| Caching.BareMatchesFactory | useful/django/caching.py:51-101 | the bare decorator wraps or refuses a function exactly as the inner decorator from `cached_function(num_args_to_key=n)` does |
| Caching.KeyArgs | useful/django/caching.py:62 | all args, or the first `num_args_to_key` of them; always a prefix of the args |
| Caching.Unallowed | useful/django/caching.py:64-65 | empty exactly when every keyable arg's type is in the Python 3 allowlist |
| Caching.Key | useful/django/caching.py:69-79 | `cached_function:<module>.<name>(<reprs>)` when at most 200 characters long, else the reprs replaced by their SHA-256 digest and `-hashed` appended |
| Caching.KeyNamesFunction | useful/django/caching.py:69-79 | every key starts with the function's module and name |
| Caching.HashedKeyLength | useful/django/caching.py:73-79 | a hashed key has fixed length, the head plus a 64-character digest plus `)-hashed` |
| Caching.Call | useful/django/caching.py:61-88 | an unallowed keyable type raises before the cache is touched; a cached non-None value is returned without calling the function; otherwise the function is called and its result stored |
| Caching.SecondCallHits | useful/django/caching.py:81-88 | a second call with the same args is served from the cache and changes nothing |
| Caching.UnkeyedArgsIgnored | useful/django/caching.py:62 | arguments past `num_args_to_key` do not affect the key |
| Caching.ExpensiveFunctionCounts | useful/django/caching.py:51-88 | the decorated `expensive_function` returns its argument count, long arguments included, on the first call and again from the cache |
| Crypto.EveryOtherReversed | useful/django/crypto.py:25 | `[::-2]` keeps half the characters, rounded up |
| Crypto.EveryOtherReversedAt | useful/django/crypto.py:25 | `[::-2]` picks the characters at positions len-1, len-3, … |
| Crypto.MakeToken | useful/django/crypto.py:23-25 | the token is ceil(len(digest)/2) characters of the salted HMAC digest |
| Crypto.TokenFromDigest | useful/django/crypto.py:25 | the i-th token character is the digest character 2i from the end |
| Crypto.CheckToken | useful/django/crypto.py:27-28 | a token checks exactly when it equals the token made for the protectable |
| Crypto.MadeTokenChecks | useful/django/crypto.py:23-28 | a made token always checks |
| Crypto.TokenDependsOnDigest | useful/django/crypto.py:23-25 | two protectables get the same token exactly when their digests have the same half-length and agree at every position an even distance from the end; the other positions never matter |
| Crypto.EveryOtherReversedEq | useful/django/crypto.py:25 | `[::-2]` of two strings is equal exactly when they agree at the positions it keeps |
| Auth.GetUniqueUsername | useful/django/auth.py:24-37 | an empty name fails the assertion; a free name is returned unchanged; otherwise the result is `base` + k for the smallest k ≥ 2 that is free; the result is never taken |
| AttrDict.SetAttr | useful/attrdict.py:12-16 | names of `dict` attributes raise the collision error; other names set the item |
| AttrDict.GetAttr | useful/attrdict.py:18-22 | names the instance lookup finds (in `AttrDict`, `dict` or `object`, not the metaclass) are members; any other name reads its item, or raises AttributeError when it is missing |
| AttrDict.SetThenGet | useful/attrdict.py:12-22 | an attribute set reads back when neither the write test nor the instance lookup knows its name, and other names are unaffected |
| AttrDict.WriteAndReadDisagree | useful/attrdict.py:12-22 | the write test and the read lookup differ: `__getattr__` is stored as an item but reads as the method, and `mro` is refused as a write but reads its item |
| AttrDict.MethodNamesRefused | useful/attrdict.py:12-14 | `dict` method names such as `keys` and `items` cannot be set |
| AttrDict.SetAttrOrdered | useful/attrdict.py:48-58 | names with the `_OrderedDict__` prefix bypass the items; other names follow the collision and item rules, preserving the insertion order |
| AttrDict.GetAttrOrdered | useful/attrdict.py:60-67 | the instance's own attributes, then the names the class lookup finds, then the item; a missing key raises AttributeError |
| AttrDict.SetThenGetOrdered | useful/attrdict.py:48-67 | an attribute set on an ordered dictionary reads back unless an instance attribute or the class lookup (`__getattr__`, say) shadows it, and other names read as before |
| AttrDict.OrderedGetattrShadowed | useful/attrdict.py:48-67 | writing `__getattr__` stores an item that reading finds shadowed by `OrderedAttrDict`'s own method |
| AttrDict.OrderIsFirstWrite | useful/attrdict.py:44-58 | the order is that of the first write; rewriting a name keeps its place |
| I18n.SafeLangcode | useful/django/i18n.py:7-13 | the lower-cased first two characters of the active language when configured, else "en" |
| I18n.RegionalVariant | useful/django/i18n.py:12-13 | "cs-cz" gives "cs", and an unconfigured "pt-br" falls back to "en" |
| I18n.Getter | useful/django/i18n.py:25-30 | the `<fld>_<lang>` value when it is truthy, else the `<fld>_en` value, and a missing English attribute raises |
| I18n.TrailingNewlineAccepted | useful/django/i18n.py:35 | the `$` anchor lets an identifier followed by one newline pass |
| I18n.DecoratedFieldReads | useful/django/i18n.py:16-46 | a decorated field is a language getter; with an unconfigured active language it reads `<fld>_en` even when that is falsy |
| I18n.AddGetter | useful/django/i18n.py:34-45 | a bad identifier raises before anything changes; the class then gets `_language_getters`, empty if it had none; an existing attribute (that one included) which is not a language getter raises; otherwise the property is added |
| I18n.LanguageGettersFieldRefused | useful/django/i18n.py:38-42 | a field named `_language_getters` is never accepted |
| I18n.AddLanguageGetters | useful/django/i18n.py:33-46 | on success the getter set is the one held before (empty for a class without it) plus every field, and the class's attributes gain exactly the fields and, for a non-empty list, `_language_getters`; nothing already held is removed |
| I18n.ReAddAllowed | useful/django/i18n.py:40-45 | decorating a class again with the same fields succeeds and changes nothing |
| I18n.AddedNamesValid | useful/django/i18n.py:35-42 | a successful decoration only had valid field names, none of them `_language_getters` |
| VerifiedHttp.MatchOrganization | useful/verifiedhttp.py:20-30 | with no pattern it accepts; otherwise it accepts exactly when some `organizationName` value of some RDN contains the pattern |
| VerifiedHttp.EmptySubjectFails | useful/verifiedhttp.py:24-30 | an empty subject is rejected when a pattern is required |
| VerifiedHttp.OtherAttributesIgnored | useful/verifiedhttp.py:26 | attributes other than `organizationName` never match |
| LogEntry.ChangeMessage | useful/django/logentry.py:72-80 | the common dict is always first; a dict message is added as a one-element list; a list message extends; a falsy message adds nothing |
| LogEntry.LogAction | useful/django/logentry.py:72-89 | the entry records the acting user, the object and the flag, with the assembled message |
| LogEntry.LogAddition | useful/django/logentry.py:47-53 | logs with the ADDITION flag |
| LogEntry.LogChange | useful/django/logentry.py:55-61 | logs with the CHANGE flag |
| LogEntry.LogDeletion | useful/django/logentry.py:63-70 | logs with the DELETION flag |
| LogEntry.LogFormAdditionOrChange | useful/django/logentry.py:91-106 | an invalid form or invalid formsets raise; otherwise the change list is logged as an addition exactly when `was_adding` |
| LogEntry.LoggedMessagesExample | useful/django/logentry.py:39-106 | with `ui=True` as the common message, an addition stores `[{"ui": true}]` and a form change stores `[{"ui": true}, {"changed": …}]` |
| LogEntry.UIChangeSummary | useful/django/logentry.py:152-160 | the translated "Changed <fields>." when fields changed and that text is non-empty, else the translated "No fields changed." |
| LogEntry.EnglishEndsInStop | useful/django/logentry.py:157-160 | the untranslated texts end in a full stop |
| LogEntry.UILogChangeMessage | useful/django/logentry.py:130-142 | with a form, the summary follows the message after a space, or stands alone when the message is empty |
| LogEntry.UILogMessageEndsWithSummary | useful/django/logentry.py:130-160 | with a form, the logged message starts with the given message and ends with the summary, hence with a full stop whenever the translated texts end in one |
| LogEntry.UILogChangeExample | useful/django/logentry.py:130-160 | the default message "UI" with one changed field gives "UI Changed name." in English |

## Left out

- `useful/filelock.py`, `useful/daemontools.py` and `useful/encoding.py`. They consist of file locking, process control, signals, syslog and Unicode codec tables: operating-system side effects and foreign tables with no sequential core to model.
- The socket and SSL parts of `useful/verifiedhttp.py`. Only `match_organization` is modelled.
- Django plumbing with no logic of its own:
  - `cached_auth.py`, `remote_addr.py`, `readonly_admin.py`, `getters.py`, `db.py`, `views.py` and `templatetags/freshstatic.py`;
  - the email authentication backends and `get_random_password`, which uses randomness;
  - `LogEntryAdmin` rendering and `UILogEntry.save_form_instance_and_log`;
  - the other template filters in `templatetags/useful.py`.
- The login-redirect branch of the view wrapper (useful/django/urlpatterns.py:250-261). It is one outcome, `LoginRedirect`, without the URL computation.
- MD5, SHA-256 and salted HMAC. They are parameters.
  - The ring's hash is any function from strings to naturals.
  - `constant_time_compare` is plain equality.
- `repr`, `str`, `int()`, `urlencode`, `get_callable`, `get_text_list`, translations and the user's permission methods are parameters or inputs.
- AttrDict.GetAttr, Choices.GetAttr: the names Python's attribute lookup finds through `dict` and `object` are parameters, since they depend on the Python version.
- I18n.AddGetter: the class's `_language_getters` set is inherited and changed in place, so a subclass shares it with a decorated parent; the model gives each class its own set. A set that already holds the name `_language_getters` is reported as an error without modelling the lost set.
- The statistical behaviour of the ring and `demo()`. They are probabilistic and use floating point.
- The cache timeout and cache expiry. Django's cache is a map that keeps what is stored.
- The `lru_cache` on `get_all_callbacks`. It does not change results.
- The database collation of the username filter. Existing usernames are a finite set compared by exact equality.
- `AttrDict.__getstate__`, `__setstate__` and `__repr__`.
- Python 2 behaviour. The allowlist of `cached_function` argument types is the Python 3 one.
- ConsistentHash.SelectBucket: follows the code's `bisect.bisect`, a strictly greater hash. The docstring says "not less than", which would be `bisect_left`.
- ConsistentHash.AddBucket: not atomic. When a later replica collides with another bucket's hash, the replicas already inserted remain; the model returns that partial ring with the error.
- UrlPatterns.TestPerm: `is_authenticated` and the other reserved names are boolean flags of the user. On Django 2 and later, calling `is_authenticated` as a method would raise TypeError.
- UrlPatterns.PassAliases: the clash of an alias with an existing keyword is an `assert`. It is modelled as an error, which holds only when assertions are enabled.
- Transforms.DictBy: `default_factory` is left out. It only changes what a later missing-key read of the returned dict does, not its contents.
- Transforms.Batches: only sequences of known length; the lazy, consume-before-next behaviour of the iterator is not modelled.
- TemplateTags.IntspaceStep, UrlPatterns.MatchPermShape and I18n.IsIdentifier use ASCII character classes. Python 3's `\d` and `\w` also match other Unicode digits and letters. Likewise Text.Lower, used by I18n.SafeLangcode, lower-cases ASCII letters only.
- Choices.New: choice ids are integers. The source also accepts other hashable ids, such as strings.
- Concurrency.VersionRoundTrip: holds only for primary keys without `-`. The code splits on the first two `-`, so a key such as a UUID is read as a shorter key and the version fails validation.
- TemplateTags.MiddleTruncate: the result of a cut is size-2 characters long for size above 3, not `size` as the docstring says. The model follows the code.
- LogEntry.ChangeMessage: a dict message is appended wrapped in a one-element list, following the code. The docstring says the dict is appended.
- AttrDict.SetAttrOrdered: `_OrderedDict__` names matter only for the pure-Python `OrderedDict`. They are modelled as a separate attribute store.

## Findings

| source | as written | input that shows it | evidently intended | confidence | as-written member | corrected member |
|---|---|---|---|---|---|---|
| useful/django/can_url.py:61 | `':' not in view` is evaluated before the callable check, so a view function raises TypeError | `can_url(user, view_function)` | the docstring allows a callable view, which should go straight to its `can_url_func` | not executed | CanUrl.CanUrlAsWritten (CanUrl.CallableRejectedAsWritten) | CanUrl.CanUrlOf |
| useful/django/templatetags/useful.py:134 | `(size - 3) / 2` is true division under Python 3, which setup.py lists as supported, so the slice bounds are floats and slicing raises TypeError | `middle_truncate("abcdefghij", 6)` | floor division, giving "a…ij" | not executed | TemplateTags.MiddleTruncateAsWritten (TemplateTags.MiddleTruncateFailsUnderPython3) | TemplateTags.MiddleTruncate |
