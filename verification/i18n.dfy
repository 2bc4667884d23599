/** Language helpers: the two-letter code of the active language with a
    fallback to English, and the class decorator that adds, for each
    translated field `f`, a property reading `f_<lang>` or `f_en`. */
module I18n {
  import opened Wrappers
  import Text

  /** `get_safe_langcode`: the lower-cased first two characters of the
      active language when that code is configured, else "en". */
  function SafeLangcode(active: string, configured: set<string>): (code: string)
    ensures code == "en" || code in configured
    ensures Text.Lower(Text.Prefix(active, 2)) in configured ==> code == Text.Lower(Text.Prefix(active, 2))
    ensures Text.Lower(Text.Prefix(active, 2)) !in configured ==> code == "en"
  {
    var lang := Text.Lower(Text.Prefix(active, 2));
    if lang in configured then lang else "en"
  }

  /** A regional variant reads as its base language when that is
      configured. */
  lemma RegionalVariant(configured: set<string>)
    requires "cs" in configured && "pt" !in configured
    ensures SafeLangcode("cs-cz", configured) == "cs"
    ensures SafeLangcode("pt-br", configured) == "en"
  {
    assert Text.Prefix("cs-cz", 2) == "cs";
    assert Text.Lower("cs") == "cs";
    assert Text.Prefix("pt-br", 2) == "pt";
    assert Text.Lower("pt") == "pt";
  }

  datatype I18nError =
    | NoAttribute(name: string)     // AttributeError from the English fallback
    | BadFieldName(name: string)    // RuntimeError: not an identifier
    | AlreadyExists(name: string)   // RuntimeError: attribute already defined
    | GettersReplaced               // AttributeError: the getters set became a property

  /** The getter of field `fld` on an instance whose attributes are
      `attrs`: `fld_<lang>` when present and truthy, otherwise `fld_en`,
      which must exist. */
  function Getter<V>(attrs: map<string, V>, truthy: V -> bool, fld: string, lang: string): (r: Result<V, I18nError>)
    ensures var own := fld + "_" + lang;
            own in attrs && truthy(attrs[own]) ==> r == Success(attrs[own])
    ensures var own := fld + "_" + lang;
            !(own in attrs && truthy(attrs[own])) ==>
              if fld + "_en" in attrs then r == Success(attrs[fld + "_en"])
              else r == Failure(NoAttribute(fld + "_en"))
  {
    var own := fld + "_" + lang;
    if own in attrs && truthy(attrs[own]) then Success(attrs[own])
    else if fld + "_en" in attrs then Success(attrs[fld + "_en"])
    else Failure(NoAttribute(fld + "_en"))
  }

  // ---------------------------------------------------------------------
  // add_language_getter_for

  predicate IsIdentStart(c: char) {
    c == '_' || Text.IsAsciiLetter(c)
  }

  predicate IsIdentChar(c: char) {
    c == '_' || Text.IsAsciiLetter(c) || Text.IsDigit(c)
  }

  predicate IsIdentifier(s: string) {
    |s| > 0 && IsIdentStart(s[0]) && forall i :: 1 <= i < |s| ==> IsIdentChar(s[i])
  }

  /** `re.match('^[_a-zA-Z][_a-zA-Z0-9]*$', s)`: `$` also matches just
      before a final newline, so an identifier followed by one newline
      passes too. */
  predicate MatchesIdentifier(s: string) {
    IsIdentifier(s) || (|s| > 0 && s[|s| - 1] == '\n' && IsIdentifier(s[..|s| - 1]))
  }

  lemma TrailingNewlineAccepted()
    ensures MatchesIdentifier("title\n")
    ensures !MatchesIdentifier("1title")
    ensures !MatchesIdentifier("")
  {
    assert "title\n"[..5] == "title";
  }

  /** What the decorator reads and changes on the class: the names
      `hasattr` finds and the class's `_language_getters`. */
  datatype Klass = Klass(attrs: set<string>, getters: set<string>)

  /** The class attribute holding the set of fields already turned into
      language getters. */
  const LanguageGetters: string := "_language_getters"

  /** The class after the decorator and the error that stopped it, if
      any; the fields before the failing one have been added. */
  datatype Outcome = Outcome(klass: Klass, error: Option<I18nError>)

  /** The set `_language_getters` holds once the decorator has made sure
      it exists: the class's own set, or a new empty one when the class
      had none. */
  function HeldGetters(k: Klass): set<string> {
    if LanguageGetters in k.attrs then k.getters else {}
  }

  /** One field: a bad name is refused before anything changes; then the
      class gets an empty `_language_getters` set if it has none, and an
      existing attribute (that set included) which is not already a
      language getter is refused; otherwise the property is set and the
      name recorded. A field named `_language_getters` that the set
      already holds replaces the set by the property, so the `add` that
      follows raises AttributeError. */
  function AddGetter(k: Klass, fld: string): (r: Outcome)
    ensures !MatchesIdentifier(fld) ==> r == Outcome(k, Some(BadFieldName(fld)))
    ensures MatchesIdentifier(fld) ==> r.klass.attrs == k.attrs + {LanguageGetters, fld}
    ensures MatchesIdentifier(fld) && fld !in HeldGetters(k) && fld in k.attrs + {LanguageGetters} ==>
              r.error == Some(AlreadyExists(fld)) && r.klass.getters == HeldGetters(k)
    ensures MatchesIdentifier(fld) && fld == LanguageGetters && fld in HeldGetters(k) ==>
              r.error == Some(GettersReplaced)
    ensures MatchesIdentifier(fld) && fld != LanguageGetters && (fld in HeldGetters(k) || fld !in k.attrs) ==>
              r == Outcome(Klass(k.attrs + {LanguageGetters, fld}, HeldGetters(k) + {fld}), None)
  {
    if !MatchesIdentifier(fld) then Outcome(k, Some(BadFieldName(fld)))
    else
      var attrs := k.attrs + {LanguageGetters};
      var getters := HeldGetters(k);
      if fld !in getters && fld in attrs then Outcome(Klass(attrs, getters), Some(AlreadyExists(fld)))
      else if fld == LanguageGetters then Outcome(Klass(attrs, getters), Some(GettersReplaced))
      else Outcome(Klass(attrs + {fld}, getters + {fld}), None)
  }

  /** The field name `_language_getters` is never accepted: either the
      set of that name already exists, or it is replaced. */
  lemma LanguageGettersFieldRefused(k: Klass)
    ensures AddGetter(k, LanguageGetters).error.Some?
  {
    assert MatchesIdentifier(LanguageGetters) by {
      assert IsIdentStart(LanguageGetters[0]);
      assert forall i :: 1 <= i < |LanguageGetters| ==> IsIdentChar(LanguageGetters[i]);
    }
  }

  /** The names in a list of fields. */
  function Names(fields: seq<string>): (r: set<string>)
    ensures forall i :: 0 <= i < |fields| ==> fields[i] in r
  {
    if |fields| == 0 then {} else {fields[0]} + Names(fields[1..])
  }

  /** `add_language_getter(klass)` for the fields in order. */
  function AddLanguageGetters(k: Klass, fields: seq<string>): (r: Outcome)
    ensures r.error.None? ==>
              r.klass.getters == if |fields| == 0 then k.getters else HeldGetters(k) + Names(fields)
    ensures r.error.None? ==>
              r.klass.attrs == k.attrs + Names(fields) + (if |fields| == 0 then {} else {LanguageGetters})
    ensures HeldGetters(k) <= r.klass.getters && k.attrs <= r.klass.attrs
    decreases |fields|
  {
    if |fields| == 0 then Outcome(k, None)
    else
      var step := AddGetter(k, fields[0]);
      if step.error.Some? then step
      else AddLanguageGetters(step.klass, fields[1..])
  }

  /** A field the decorator went through is a language getter of the
      class; with an active language that is not configured the getter
      reads `<fld>_en`, even when that value is falsy. */
  lemma DecoratedFieldReads<V>(k: Klass, fields: seq<string>, i: nat, attrs: map<string, V>,
                               truthy: V -> bool, active: string, configured: set<string>)
    requires AddLanguageGetters(k, fields).error.None? && i < |fields|
    ensures fields[i] in AddLanguageGetters(k, fields).klass.getters
    ensures Text.Lower(Text.Prefix(active, 2)) !in configured ==>
              Getter(attrs, truthy, fields[i], SafeLangcode(active, configured))
              == if fields[i] + "_en" in attrs then Success(attrs[fields[i] + "_en"])
                 else Failure(NoAttribute(fields[i] + "_en"))
  {
    if Text.Lower(Text.Prefix(active, 2)) !in configured {
      assert fields[i] + "_" + SafeLangcode(active, configured) == fields[i] + "_en";
    }
  }

  /** A class the decorator has gone through successfully can be decorated
      again with the same fields. */
  lemma {:induction false} ReAddAllowed(k: Klass, fields: seq<string>)
    requires AddLanguageGetters(k, fields).error.None?
    ensures var k2 := AddLanguageGetters(k, fields).klass;
            AddLanguageGetters(k2, fields) == Outcome(k2, None)
  {
    var k2 := AddLanguageGetters(k, fields).klass;
    AddedNamesValid(k, fields);
    ReAddFrom(k2, fields);
  }

  lemma {:induction false} ReAddFrom(k: Klass, fields: seq<string>)
    requires |fields| > 0 ==> LanguageGetters in k.attrs
    requires forall i :: 0 <= i < |fields| ==>
               MatchesIdentifier(fields[i]) && fields[i] != LanguageGetters && fields[i] in k.getters && fields[i] in k.attrs
    ensures AddLanguageGetters(k, fields) == Outcome(k, None)
    decreases |fields|
  {
    if |fields| > 0 {
      assert k.attrs + {LanguageGetters, fields[0]} == k.attrs && k.getters + {fields[0]} == k.getters;
      assert AddGetter(k, fields[0]) == Outcome(k, None);
      assert forall i :: 0 <= i < |fields[1..]| ==> fields[1..][i] == fields[i + 1];
      ReAddFrom(k, fields[1..]);
    }
  }

  /** Every field of a successful decoration is a valid name, and none is
      `_language_getters`. */
  lemma {:induction false} AddedNamesValid(k: Klass, fields: seq<string>)
    requires AddLanguageGetters(k, fields).error.None?
    ensures forall i :: 0 <= i < |fields| ==> MatchesIdentifier(fields[i]) && fields[i] != LanguageGetters
    decreases |fields|
  {
    if |fields| > 0 {
      var k2 := AddGetter(k, fields[0]).klass;
      AddedNamesValid(k2, fields[1..]);
      assert forall i :: 1 <= i < |fields| ==> fields[i] == fields[1..][i - 1];
    }
  }
}
