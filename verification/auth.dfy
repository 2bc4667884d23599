/** `get_unique_username`: the first of `base`, `base2`, `base3`, ... that
    is not yet a username in the user table. */
module Auth {
  import opened Wrappers
  import Text

  datatype AuthError = EmptyUsername  // the failing `assert username`

  /** The candidate with index `k`: `'%s%d' % (base, k)`. */
  function Candidate(base: string, k: nat): string {
    base + Text.Decimal(k)
  }

  /** A bound on the length of every taken name. */
  ghost function MaxLength(taken: set<string>): (n: nat)
    ensures forall s :: s in taken ==> |s| <= n
    decreases taken
  {
    if taken == {} then 0
    else
      var s :| s in taken;
      var rest := MaxLength(taken - {s});
      if |s| > rest then |s| else rest
  }

  /** The result is free, and it is `base` itself when `base` is free,
      otherwise the candidate with the smallest index from 2 on that is
      free. The user table is the finite set `taken`. */
  method GetUniqueUsername(base: string, taken: set<string>) returns (r: Result<string, AuthError>)
    ensures base == "" <==> r.Failure?
    ensures r.Success? ==> r.value !in taken
    ensures r.Success? && base !in taken ==> r.value == base
    ensures r.Success? && base in taken ==>
              exists k :: 2 <= k && r.value == Candidate(base, k)
                          && forall j :: 2 <= j < k ==> Candidate(base, j) in taken
  {
    if base == "" {
      return Failure(EmptyUsername);
    }
    var username := base;
    var idx: nat := 2;
    ghost var bound := Text.Pow10(MaxLength(taken));
    while username in taken
      invariant idx >= 2
      invariant idx == 2 ==> username == base
      invariant idx > 2 ==> username == Candidate(base, idx - 1)
      invariant idx > 2 ==> base in taken
      invariant forall j :: 2 <= j < idx - 1 ==> Candidate(base, j) in taken
      decreases bound + 2 - idx
    {
      if idx > 2 {
        if idx - 1 >= bound {
          Text.DecimalLength(idx - 1, MaxLength(taken));
        }
      }
      username := Candidate(base, idx);
      idx := idx + 1;
    }
    if idx > 2 {
      assert username == Candidate(base, idx - 1);
    }
    return Success(username);
  }
}
