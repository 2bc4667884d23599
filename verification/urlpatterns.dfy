/** Permission-aware URL patterns: the `perms=` grammar (an AND-list of
    OR-groups of `perm (alias)` items), its compilation, its evaluation for
    a user, the hand-over of the granted aliases to the view as keyword
    arguments, and the URL name a decorated view receives. */
module UrlPatterns {
  import opened Wrappers
  import Text

  /** The `perms=` argument: one definition, or a list or a tuple of them
      (a list and a tuple with the same items compare unequal in Python). */
  datatype PermsSpec = Single(text: string) | ListOf(items: seq<string>) | TupleOf(items: seq<string>)

  /** The alias of a permission: the identifier in parentheses, or Python's
      `True` when none is given. */
  datatype Alias = Named(name: string) | AlwaysTrue

  datatype PermAlias = PermAlias(perm: string, alias: Alias)

  /** A compiled definition: the groups are AND-ed, the pairs inside a group
      are OR-ed. */
  type Compiled = seq<seq<PermAlias>>

  datatype UrlError =
    | CannotParse(permdef: string)  // RuntimeError of compile_perms
    | PermissionDenied              // raised by _can_url when raise_exception is set
    | AliasClash                    // the AssertionError of the view wrapper

  /** The user as `test_perm` sees it: four flags and the two permission
      oracles of the authentication framework. */
  datatype User = User(
    isActive: bool, isAuthenticated: bool, isStaff: bool, isSuperuser: bool,
    hasPerm: string -> bool, hasModulePerms: string -> bool)

  // ---------------------------------------------------------------------
  // PERM_RE = \s*([a-zA-Z_][\w.]*)\s*(\(\s*([a-zA-Z_]\w*)\s*\))?\s*

  predicate IsIdentStart(c: char) {
    Text.IsAsciiLetter(c) || c == '_'
  }

  predicate IsPermChar(c: char) {
    Text.IsWordChar(c) || c == '.'
  }

  /** Length of the longest prefix of `s` made of whitespace. */
  function SpaceRun(s: string): (n: nat)
    ensures n <= |s|
    ensures forall i :: 0 <= i < n ==> Text.IsSpace(s[i])
    ensures n == |s| || !Text.IsSpace(s[n])
  {
    if |s| > 0 && Text.IsSpace(s[0]) then 1 + SpaceRun(s[1..]) else 0
  }

  /** `s` without its leading whitespace (the regex's `\s*`). */
  function SkipSpaces(s: string): string {
    s[SpaceRun(s)..]
  }

  /** Length of the longest prefix of `s` made of permission characters. */
  function PermRun(s: string): (n: nat)
    ensures n <= |s|
    ensures forall i :: 0 <= i < n ==> IsPermChar(s[i])
    ensures n == |s| || !IsPermChar(s[n])
  {
    if |s| > 0 && IsPermChar(s[0]) then 1 + PermRun(s[1..]) else 0
  }

  /** Length of the longest prefix of `s` made of `\w` characters. */
  function WordRun(s: string): (n: nat)
    ensures n <= |s|
    ensures forall i :: 0 <= i < n ==> Text.IsWordChar(s[i])
    ensures n == |s| || !Text.IsWordChar(s[n])
  {
    if |s| > 0 && Text.IsWordChar(s[0]) then 1 + WordRun(s[1..]) else 0
  }

  /** The optional group `(\s*([a-zA-Z_]\w*)\s*\))?` at the start of `u`,
      followed by `alias or True`. */
  function MatchAlias(u: string): (a: Alias)
    ensures a.Named? ==> IsAliasName(a.name)
  {
    if |u| > 0 && u[0] == '(' then
      var v := SkipSpaces(u[1..]);
      if |v| > 0 && IsIdentStart(v[0]) then
        var m := 1 + WordRun(v[1..]);
        IdentPrefix(v);
        var w := SkipSpaces(v[m..]);
        if |w| > 0 && w[0] == ')' then Named(v[..m]) else AlwaysTrue
      else AlwaysTrue
    else AlwaysTrue
  }

  /** `re.match(PERM_RE, permdef)`: anchored at the start only, so anything
      after the matched prefix is ignored. `None` when no match. */
  function MatchPerm(permdef: string): (r: Option<PermAlias>)
    ensures r.Some? <==> var t := SkipSpaces(permdef); |t| > 0 && IsIdentStart(t[0])
    ensures r.Some? && r.value.alias.Named? ==> IsAliasName(r.value.alias.name)
  {
    var t := SkipSpaces(permdef);
    if |t| == 0 || !IsIdentStart(t[0]) then None
    else
      var n := 1 + PermRun(t[1..]);
      Some(PermAlias(t[..n], MatchAlias(SkipSpaces(t[n..]))))
  }

  /** An identifier start followed by its longest `\w` run is an alias name. */
  lemma IdentPrefix(v: string)
    requires |v| > 0 && IsIdentStart(v[0])
    ensures IsAliasName(v[..1 + WordRun(v[1..])])
  {
    var m := 1 + WordRun(v[1..]);
    assert forall i :: 1 <= i < m ==> v[i] == v[1..][i - 1];
  }

  predicate IsPermName(p: string) {
    |p| > 0 && IsIdentStart(p[0]) && forall i :: 0 <= i < |p| ==> IsPermChar(p[i])
  }

  predicate IsAliasName(a: string) {
    |a| > 0 && IsIdentStart(a[0]) && forall i :: 0 <= i < |a| ==> Text.IsWordChar(a[i])
  }

  /** A piece matches exactly when its first non-blank character can start
      a permission name. */
  lemma MatchPermWhen(permdef: string)
    ensures var t := SkipSpaces(permdef);
            MatchPerm(permdef).Some? <==> |t| > 0 && IsIdentStart(t[0])
  {
  }

  /** The permission taken is the longest run of permission characters
      after the leading blanks; an alias, when found, is an identifier. */
  lemma MatchPermShape(permdef: string)
    requires MatchPerm(permdef).Some?
    ensures var t := SkipSpaces(permdef);
            var p := MatchPerm(permdef).value.perm;
            && IsPermName(p) && Text.StartsWith(t, p)
            && (|t| == |p| || !IsPermChar(t[|p|]))
    ensures MatchPerm(permdef).value.alias.Named? ==> IsAliasName(MatchPerm(permdef).value.alias.name)
  {
    var t := SkipSpaces(permdef);
    var n := 1 + PermRun(t[1..]);
    assert forall i :: 1 <= i < n ==> t[i] == t[1..][i - 1];
  }

  /** The text `perm (alias)`, or `perm` alone for the alias True. */
  function Render(pa: PermAlias): string {
    match pa.alias
    case Named(a) => pa.perm + " (" + a + ")"
    case AlwaysTrue => pa.perm
  }

  /** Parsing a rendered item gives it back. */
  lemma {:induction false} MatchRender(pa: PermAlias)
    requires IsPermName(pa.perm)
    requires pa.alias.Named? ==> IsAliasName(pa.alias.name)
    ensures MatchPerm(Render(pa)) == Some(pa)
  {
    RenderMatches(pa, "", "", Render(pa));
  }

  /** Blanks around an item do not change its parse. */
  lemma {:induction false} MatchRenderPadded(pa: PermAlias)
    requires IsPermName(pa.perm)
    requires pa.alias.Named? ==> IsAliasName(pa.alias.name)
    ensures MatchPerm(" " + Render(pa) + " ") == Some(pa)
  {
    RenderMatches(pa, " ", " ", " " + Render(pa) + " ");
  }

  /** After a closing parenthesis the rest of the piece is not looked at. */
  lemma {:induction false} MatchIgnoresTail(pa: PermAlias, tail: string)
    requires IsPermName(pa.perm)
    requires pa.alias.Named? && IsAliasName(pa.alias.name)
    ensures MatchPerm(Render(pa) + tail) == Some(pa)
  {
    RenderMatches(pa, "", tail, Render(pa) + tail);
  }

  lemma {:induction false} PermRunOf(p: string, rest: string)
    requires forall i :: 0 <= i < |p| ==> IsPermChar(p[i])
    requires |rest| == 0 || !IsPermChar(rest[0])
    ensures PermRun(p + rest) == |p|
    decreases |p|
  {
    if |p| > 0 {
      assert (p + rest)[0] == p[0];
      assert (p + rest)[1..] == p[1..] + rest;
      PermRunOf(p[1..], rest);
    } else {
      assert p + rest == rest;
    }
  }

  lemma {:induction false} WordRunOf(a: string, rest: string)
    requires forall i :: 0 <= i < |a| ==> Text.IsWordChar(a[i])
    requires |rest| == 0 || !Text.IsWordChar(rest[0])
    ensures WordRun(a + rest) == |a|
    decreases |a|
  {
    if |a| > 0 {
      assert (a + rest)[0] == a[0];
      assert (a + rest)[1..] == a[1..] + rest;
      WordRunOf(a[1..], rest);
    } else {
      assert a + rest == rest;
    }
  }

  /** Leading blanks are skipped up to the first other character. */
  lemma {:induction false} SkipLead(lead: string, s: string)
    requires forall i :: 0 <= i < |lead| ==> Text.IsSpace(lead[i])
    requires |s| == 0 || !Text.IsSpace(s[0])
    ensures SpaceRun(lead + s) == |lead|
    ensures SkipSpaces(lead + s) == s
    decreases |lead|
  {
    if |lead| > 0 {
      assert (lead + s)[0] == lead[0];
      assert (lead + s)[1..] == lead[1..] + s;
      SkipLead(lead[1..], s);
    } else {
      assert lead + s == s;
    }
    assert (lead + s)[|lead|..] == s;
  }

  /** The permission part: after the blanks, the name runs up to the first
      character that cannot continue it. */
  lemma {:induction false} MatchPermPart(lead: string, p: string, after: string, s: string)
    requires forall i :: 0 <= i < |lead| ==> Text.IsSpace(lead[i])
    requires IsPermName(p)
    requires |after| == 0 || !IsPermChar(after[0])
    requires s == lead + (p + after)
    ensures MatchPerm(s) == Some(PermAlias(p, MatchAlias(SkipSpaces(after))))
  {
    var t := p + after;
    SkipLead(lead, t);
    assert t[0] == p[0];
    assert t[1..] == p[1..] + after;
    PermRunOf(p[1..], after);
    assert t[..|p|] == p;
    assert t[|p|..] == after;
  }

  /** The alias part of a rendered `perm (alias)`. */
  lemma {:induction false} MatchAliasPart(a: string, tail: string, after: string)
    requires IsAliasName(a)
    requires after == " (" + a + ")" + tail
    ensures MatchAlias(SkipSpaces(after)) == Named(a)
  {
    var u := "(" + a + ")" + tail;
    assert after == " " + u;
    SkipLead(" ", u);
    MatchAliasOpen(a, tail, u);
  }

  lemma {:induction false} MatchAliasOpen(a: string, tail: string, u: string)
    requires IsAliasName(a)
    requires u == "(" + a + ")" + tail
    ensures MatchAlias(u) == Named(a)
  {
    var close := ")" + tail;
    assert u[1..] == a + close;
    SkipLead("", a + close);
    assert "" + (a + close) == a + close;
    var v := a + close;
    assert v[1..] == a[1..] + close;
    WordRunOf(a[1..], close);
    assert v[..|a|] == a;
    assert v[|a|..] == close;
    SkipLead("", close);
    assert "" + close == close;
  }

  /** The common step of `MatchRender` and `MatchIgnoresTail`. */
  lemma {:induction false} RenderMatches(pa: PermAlias, lead: string, tail: string, s: string)
    requires IsPermName(pa.perm)
    requires pa.alias.Named? ==> IsAliasName(pa.alias.name)
    requires forall i :: 0 <= i < |lead| ==> Text.IsSpace(lead[i])
    requires pa.alias.AlwaysTrue? ==> forall i :: 0 <= i < |tail| ==> Text.IsSpace(tail[i])
    requires s == lead + Render(pa) + tail
    ensures MatchPerm(s) == Some(pa)
  {
    match pa.alias
    case AlwaysTrue =>
      assert s == lead + (pa.perm + tail);
      MatchPermPart(lead, pa.perm, tail, s);
      SkipLead(tail, "");
      assert tail + "" == tail;
    case Named(a) =>
      var after := " (" + a + ")" + tail;
      assert s == lead + (pa.perm + after);
      MatchPermPart(lead, pa.perm, after, s);
      MatchAliasPart(a, tail, after);
  }

  // ---------------------------------------------------------------------
  // compile_perms

  /** A perms value that is not a list or tuple is a one-element AND-list. */
  function AndItems(spec: PermsSpec): (items: seq<string>)
    ensures spec.Single? ==> items == [spec.text]
    ensures !spec.Single? ==> items == spec.items
  {
    match spec
    case Single(t) => [t]
    case ListOf(xs) => xs
    case TupleOf(xs) => xs
  }

  /** The `|`-separated pieces of one AND item. */
  function OrPieces(item: string): seq<string> {
    Text.Split(item, '|', -1)
  }

  /** Piece `i` is the first one `PERM_RE` rejects. */
  predicate FirstRejected(pieces: seq<string>, i: int) {
    0 <= i < |pieces| && MatchPerm(pieces[i]).None? && forall j :: 0 <= j < i ==> MatchPerm(pieces[j]).Some?
  }

  /** One OR-group: the pieces parsed in order; the first piece that does
      not match raises, naming that piece. */
  function CompilePieces(pieces: seq<string>): (r: Result<seq<PermAlias>, UrlError>)
    ensures r.Success? <==> forall i :: 0 <= i < |pieces| ==> MatchPerm(pieces[i]).Some?
    ensures r.Success? ==>
              |r.value| == |pieces| && forall i :: 0 <= i < |pieces| ==> MatchPerm(pieces[i]) == Some(r.value[i])
    ensures r.Failure? ==> exists i :: FirstRejected(pieces, i) && r.error == CannotParse(pieces[i])
  {
    var r := Collect(pieces, ParsePiece);
    if r.Success? then r
    else
      ghost var i :| 0 <= i < |pieces| && ParsePiece(pieces[i]) == Failure(r.error)
                     && forall j :: 0 <= j < i ==> ParsePiece(pieces[j]).Success?;
      assert FirstRejected(pieces, i);
      r
  }

  /** One piece through `PERM_RE`: its pair, or the error naming it. */
  function ParsePiece(permdef: string): (r: Result<PermAlias, UrlError>)
    ensures r.Success? <==> MatchPerm(permdef).Some?
    ensures r.Success? ==> MatchPerm(permdef) == Some(r.value)
    ensures r.Failure? ==> r.error == CannotParse(permdef)
  {
    match MatchPerm(permdef)
    case Some(pa) => Success(pa)
    case None => Failure(CannotParse(permdef))
  }

  /** `f` applied to each element in order: the first failure, or all the
      values. */
  function Collect<T, U, E>(xs: seq<T>, f: T -> Result<U, E>): (r: Result<seq<U>, E>)
    ensures r.Success? <==> forall i :: 0 <= i < |xs| ==> f(xs[i]).Success?
    ensures r.Success? ==> |r.value| == |xs| && forall i :: 0 <= i < |xs| ==> f(xs[i]) == Success(r.value[i])
    ensures r.Failure? ==>
              exists i :: 0 <= i < |xs| && f(xs[i]) == Failure(r.error) && forall j :: 0 <= j < i ==> f(xs[j]).Success?
    decreases |xs|
  {
    if |xs| == 0 then Success([])
    else
      match f(xs[0])
      case Failure(e) => Failure(e)
      case Success(v) =>
        var rest := Collect(xs[1..], f);
        assert forall j :: 1 <= j < |xs| ==> xs[j] == xs[1..][j - 1];
        if rest.Failure? then
          ghost var i :| 0 <= i < |xs| - 1 && f(xs[1..][i]) == Failure(rest.error)
                         && forall j :: 0 <= j < i ==> f(xs[1..][j]).Success?;
          assert f(xs[i + 1]) == Failure(rest.error);
          Failure(rest.error)
        else Success([v] + rest.value)
  }

  /** One AND item compiled to its OR-group. */
  function CompileItem(item: string): (r: Result<seq<PermAlias>, UrlError>)
    ensures r.Success? <==> forall j :: 0 <= j < |OrPieces(item)| ==> MatchPerm(OrPieces(item)[j]).Some?
    ensures r.Failure? ==> exists i :: FirstRejected(OrPieces(item), i) && r.error == CannotParse(OrPieces(item)[i])
  {
    CompilePieces(OrPieces(item))
  }

  /** `compile_perms`: one group per AND item, one pair per `|`-separated
      piece of that item, in order; the first piece that does not parse
      raises, naming it. */
  function CompilePerms(spec: PermsSpec): (r: Result<Compiled, UrlError>)
    ensures var items := AndItems(spec);
            r.Success? <==> forall i :: 0 <= i < |items| ==> CompileItem(items[i]).Success?
    ensures var items := AndItems(spec);
            r.Success? ==> |r.value| == |items| && forall i :: 0 <= i < |items| ==> CompileItem(items[i]) == Success(r.value[i])
    ensures var items := AndItems(spec);
            r.Failure? ==>
              exists i :: 0 <= i < |items| && CompileItem(items[i]) == Failure(r.error)
                && forall j :: 0 <= j < i ==> CompileItem(items[j]).Success?
  {
    Collect(AndItems(spec), CompileItem)
  }

  /** A failing item names the first of its pieces that does not parse:
      every piece before it parses. */
  lemma CompileItemFails(item: string)
    requires CompileItem(item).Failure?
    ensures var pieces := OrPieces(item);
            exists i :: 0 <= i < |pieces| && CompileItem(item).error == CannotParse(pieces[i])
              && MatchPerm(pieces[i]).None? && forall j :: 0 <= j < i ==> MatchPerm(pieces[j]).Some?
  {
    var pieces := OrPieces(item);
    var i :| FirstRejected(pieces, i) && CompileItem(item).error == CannotParse(pieces[i]);
  }

  /** The pairs of a compiled group are exactly the parses of the item's
      pieces, in order. */
  lemma CompileItemPieces(item: string)
    requires CompileItem(item).Success?
    ensures |CompileItem(item).value| == |OrPieces(item)|
    ensures forall j :: 0 <= j < |OrPieces(item)| ==> MatchPerm(OrPieces(item)[j]) == Some(CompileItem(item).value[j])
  {
  }

  /** A definition ending in `|` leaves an empty last piece, which cannot be
      parsed. */
  lemma TrailingBarFails(text: string)
    ensures CompilePerms(Single(text + "|")).Failure?
  {
    TrailingBarItem(text);
    assert AndItems(Single(text + "|")) == [text + "|"];
  }

  lemma TrailingBarItem(text: string)
    ensures CompileItem(text + "|").Failure?
  {
    var t := text + "|";
    assert t[|t| - 1] == '|';
    EndingBarFails(t);
  }

  /** An item whose last character is `|` has an empty last piece. */
  lemma EndingBarFails(item: string)
    requires |item| > 0 && item[|item| - 1] == '|'
    ensures CompileItem(item).Failure?
  {
    Text.SplitTrailingSep(item, '|');
    var pieces := OrPieces(item);
    var k := |pieces| - 1;
    assert pieces[k] == "";
    assert SpaceRun("") == 0;
    assert ParsePiece(pieces[k]).Failure?;
    assert CompileItem(item) == CompilePieces(pieces);
  }

  // ---------------------------------------------------------------------
  // test_perm and _can_url

  /** `test_perm`: the four reserved names read the user's flags, a name
      with a dot asks `has_perm`, any other name asks `has_module_perms`. */
  function TestPerm(perm: string, user: User): (granted: bool)
    ensures perm == "is_active" ==> granted == user.isActive
    ensures perm == "is_authenticated" ==> granted == user.isAuthenticated
    ensures perm == "is_staff" ==> granted == user.isStaff
    ensures perm == "is_superuser" ==> granted == user.isSuperuser
    ensures perm !in ReservedPerms() && '.' in perm ==> granted == user.hasPerm(perm)
    ensures perm !in ReservedPerms() && '.' !in perm ==> granted == user.hasModulePerms(perm)
  {
    if perm == "is_active" then user.isActive
    else if perm == "is_authenticated" then user.isAuthenticated
    else if perm == "is_staff" then user.isStaff
    else if perm == "is_superuser" then user.isSuperuser
    else if '.' in perm then user.hasPerm(perm)
    else user.hasModulePerms(perm)
  }

  function ReservedPerms(): set<string> {
    {"is_active", "is_authenticated", "is_staff", "is_superuser"}
  }

  /** A dotted permission never consults `has_module_perms`: two users that
      differ only there get the same answer. */
  lemma DottedIgnoresModulePerms(perm: string, u1: User, u2: User)
    requires '.' in perm
    requires u1.(hasModulePerms := u2.hasModulePerms) == u2
    ensures TestPerm(perm, u1) == TestPerm(perm, u2)
  {
    assert perm !in ReservedPerms() by {
      assert forall n :: n in ReservedPerms() ==> '.' !in n;
    }
  }

  /** The aliases of the satisfied pairs of one OR-group. */
  function GroupAliases(group: seq<PermAlias>, user: User): set<Alias> {
    set pa | pa in group && TestPerm(pa.perm, user) :: pa.alias
  }

  /** Every AND-group has a satisfied pair. */
  predicate AllGroupsMet(groups: Compiled, user: User) {
    forall i :: 0 <= i < |groups| ==> GroupAliases(groups[i], user) != {}
  }

  /** The aliases of every satisfied pair across all groups. */
  ghost function AllAliases(groups: Compiled, user: User): set<Alias> {
    set i, pa | 0 <= i < |groups| && pa in groups[i] && TestPerm(pa.perm, user) :: pa.alias
  }

  function CanUrlFrom(groups: Compiled, user: User, raiseException: bool, acc: set<Alias>): (r: Result<set<Alias>, UrlError>)
    ensures AllGroupsMet(groups, user) ==> r == Success(acc + AllAliases(groups, user))
    ensures !AllGroupsMet(groups, user) ==>
              r == (if raiseException then Failure(PermissionDenied) else Success({}))
    decreases |groups|
  {
    if |groups| == 0 then
      assert AllAliases(groups, user) == {};
      assert acc + {} == acc;
      Success(acc)
    else
      var met := GroupAliases(groups[0], user);
      assert forall j :: 1 <= j < |groups| ==> groups[j] == groups[1..][j - 1];
      if met == {} then
        if raiseException then Failure(PermissionDenied) else Success({})
      else
        var r := CanUrlFrom(groups[1..], user, raiseException, acc + met);
        assert AllAliases(groups, user) == met + AllAliases(groups[1..], user) by {
          forall a | a in AllAliases(groups, user) ensures a in met + AllAliases(groups[1..], user) {
            var i, pa :| 0 <= i < |groups| && pa in groups[i] && TestPerm(pa.perm, user) && pa.alias == a;
            if i > 0 {
              assert pa in groups[1..][i - 1];
            }
          }
          forall a | a in AllAliases(groups[1..], user) ensures a in AllAliases(groups, user) {
            var i, pa :| 0 <= i < |groups| - 1 && pa in groups[1..][i] && TestPerm(pa.perm, user) && pa.alias == a;
            assert pa in groups[i + 1];
          }
        }
        assert AllGroupsMet(groups, user) <==> AllGroupsMet(groups[1..], user);
        assert acc + met + AllAliases(groups[1..], user) == acc + AllAliases(groups, user);
        r
  }

  /** `_can_url`: the empty set (or PermissionDenied when `raise_exception`
      is set) as soon as some AND-group has no satisfied pair; otherwise the
      union of the aliases of all satisfied pairs. */
  function CanUrlCheck(groups: Compiled, user: User, raiseException: bool): (r: Result<set<Alias>, UrlError>)
    ensures AllGroupsMet(groups, user) ==> r == Success(AllAliases(groups, user))
    ensures !AllGroupsMet(groups, user) ==>
              r == (if raiseException then Failure(PermissionDenied) else Success({}))
  {
    assert {} + AllAliases(groups, user) == AllAliases(groups, user);
    CanUrlFrom(groups, user, raiseException, {})
  }

  /** A granted result is never empty unless there were no groups at all. */
  lemma GrantedNonEmpty(groups: Compiled, user: User, raiseException: bool)
    requires |groups| > 0 && AllGroupsMet(groups, user)
    ensures CanUrlCheck(groups, user, raiseException).Success?
    ensures CanUrlCheck(groups, user, raiseException).value != {}
  {
    var a :| a in GroupAliases(groups[0], user);
    var pa :| pa in groups[0] && TestPerm(pa.perm, user) && pa.alias == a;
    assert a in AllAliases(groups, user);
  }

  // ---------------------------------------------------------------------
  // the view wrapper of user_passes_test

  /** A keyword argument of the view: `True`, or some other value. */
  datatype Kwarg = KwTrue | KwValue(text: string)

  /** What the wrapped view does: redirect to the login page (not modelled
      further), or call the view with these keyword arguments. */
  datatype ViewCall = LoginRedirect | CallView(kwargs: map<string, Kwarg>)

  function AliasNames(aliases: set<Alias>): set<string> {
    set a | a in aliases && a.Named? :: a.name
  }

  /** The alias-to-keyword step: an empty result redirects; otherwise `True`
      is discarded and every named alias becomes the keyword `alias=True`,
      which must not already be among the keywords. */
  function PassAliases(aliases: set<Alias>, kwargs: map<string, Kwarg>): (r: Result<ViewCall, UrlError>)
    ensures aliases == {} <==> r == Success(LoginRedirect)
    ensures r == Failure(AliasClash) <==> aliases != {} && exists a :: a in aliases && a.Named? && a.name in kwargs
    ensures r.Success? && r.value.CallView? ==>
              && r.value.kwargs.Keys == kwargs.Keys + AliasNames(aliases)
              && (forall k :: k in kwargs ==> r.value.kwargs[k] == kwargs[k])
              && (forall a :: a in aliases && a.Named? ==> r.value.kwargs[a.name] == KwTrue)
  {
    if aliases == {} then Success(LoginRedirect)
    else
      var names := AliasNames(aliases);
      if exists n :: n in names && n in kwargs then Failure(AliasClash)
      else Success(CallView(kwargs + map n | n in names :: KwTrue))
  }

  /** The whole wrapped view: evaluate the compiled definition for the
      request's user, then hand the aliases over. */
  function WrappedView(groups: Compiled, user: User, raiseException: bool, kwargs: map<string, Kwarg>): (r: Result<ViewCall, UrlError>)
    ensures !AllGroupsMet(groups, user) ==>
              r == (if raiseException then Failure(PermissionDenied) else Success(LoginRedirect))
    ensures AllGroupsMet(groups, user) && |groups| > 0 && r.Success? ==> r.value.CallView?
    ensures AllGroupsMet(groups, user) ==> r == PassAliases(AllAliases(groups, user), kwargs)
  {
    var check := CanUrlCheck(groups, user, raiseException);
    if check.Failure? then Failure(check.error)
    else
      if AllGroupsMet(groups, user) && |groups| > 0 then
        GrantedNonEmpty(groups, user, raiseException);
        PassAliases(check.value, kwargs)
      else PassAliases(check.value, kwargs)
  }

  // ---------------------------------------------------------------------
  // UrlPatterns.url

  /** The `name=` argument: left at its default `()`, or given (possibly
      as None). */
  datatype NameArg = DefaultName | GivenName(name: Option<string>)

  /** The permission guard a decorated view carries: `can_url_perms`, the
      compiled definition and the owning UrlPatterns' `raise_exception`. */
  datatype Guard = Guard(spec: PermsSpec, compiled: Compiled, raiseException: bool)

  /** A view callable: its `__name__` and, when decorated with `perms=`,
      its guard (`can_url_func`). */
  datatype View = View(funcName: string, guard: Option<Guard>)

  datatype Pattern = Pattern(name: Option<string>, view: View)

  /** The URL name: the view function's name unless `name=` was given. */
  function UrlName(funcName: string, arg: NameArg): (n: Option<string>)
    ensures arg == DefaultName ==> n == Some(funcName)
    ensures arg.GivenName? ==> n == arg.name
  {
    match arg
    case DefaultName => Some(funcName)
    case GivenName(n) => n
  }

  /** The URL is named after the view function exactly when no name was
      given or the given name is that function's name. */
  lemma UrlNameIsFuncName(funcName: string, arg: NameArg)
    ensures UrlName(funcName, arg) == Some(funcName) <==> arg in {DefaultName, GivenName(Some(funcName))}
  {
  }

  /** `UrlPatterns.url(regex, name=..., perms=...)(view_func)`: the pattern
      appended to the list; compiling the definition may raise. */
  function Decorate(funcName: string, nameArg: NameArg, perms: Option<PermsSpec>, raiseException: bool): (r: Result<Pattern, UrlError>)
    ensures perms.None? ==> r == Success(Pattern(UrlName(funcName, nameArg), View(funcName, None)))
    ensures perms.Some? ==> (r.Success? <==> CompilePerms(perms.value).Success?)
    ensures perms.Some? && r.Success? ==>
              && r.value.name == UrlName(funcName, nameArg)
              && r.value.view.guard == Some(Guard(perms.value, CompilePerms(perms.value).value, raiseException))
  {
    match perms
    case None => Success(Pattern(UrlName(funcName, nameArg), View(funcName, None)))
    case Some(spec) =>
      var compiled :- CompilePerms(spec);
      Success(Pattern(UrlName(funcName, nameArg), View(funcName, Some(Guard(spec, compiled, raiseException)))))
  }
}
