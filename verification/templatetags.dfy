/** The template filters and tags of the `useful` tag library: editing a
    query string, dictionary lookups, thousands grouping with spaces,
    truncation in the middle and the last component of a path. */
module TemplateTags {
  import opened Wrappers
  import Text

  // ---------------------------------------------------------------------
  // querydict_set, get, getfrom

  /** A query dictionary: each parameter with its list of values. */
  type QueryDict = map<string, seq<string>>

  /** The change `querydict_set` makes to its copy: a non-empty value
      replaces the parameter's values, an empty one removes it. */
  function QuerydictUpdate(q: QueryDict, name: string, value: string): (r: QueryDict)
    ensures value != "" ==> name in r && r[name] == [value]
    ensures value == "" ==> name !in r
    ensures forall k :: k != name ==> (k in r <==> k in q)
    ensures forall k :: k != name && k in q ==> r[k] == q[k]
  {
    if value != "" then q[name := [value]] else q - {name}
  }

  /** `querydict_set`: the encoded copy; the caller's dictionary is a
      value here and so is never changed. */
  function QuerydictSet(q: QueryDict, name: string, value: string, urlencode: QueryDict -> string): (r: string)
    ensures value != "" ==> r == urlencode(q[name := [value]])
    ensures value == "" ==> r == urlencode(q - {name})
  {
    urlencode(QuerydictUpdate(q, name, value))
  }

  /** Setting a parameter and then clearing it gives the same dictionary as
      clearing it directly. */
  lemma QuerydictClearAfterSet(q: QueryDict, name: string, value: string)
    ensures QuerydictUpdate(QuerydictUpdate(q, name, value), name, "") == QuerydictUpdate(q, name, "")
  {
  }

  /** The `get` filter: `mapping.get(key)`. */
  function Get<K, V>(m: map<K, V>, key: K): (r: Option<V>)
    ensures key in m <==> r.Some?
    ensures r.Some? ==> r.value == m[key]
  {
    if key in m then Some(m[key]) else None
  }

  /** The `getfrom` filter: `get` with the arguments swapped. */
  function GetFrom<K, V>(key: K, m: map<K, V>): (r: Option<V>)
    ensures key in m <==> r.Some?
    ensures r.Some? ==> r.value == m[key]
  {
    if key in m then Some(m[key]) else None
  }

  lemma GetFromIsGet<K, V>(key: K, m: map<K, V>)
    ensures GetFrom(key, m) == Get(m, key)
  {
  }

  // ---------------------------------------------------------------------
  // intspace: INTSPACE_RE = ^(-?\d+)(\d{3}), rewritten until nothing changes

  /** Length of the sign the regex takes: a leading `-`. */
  function SignLen(s: string): (n: nat)
    ensures n <= |s|
  {
    if |s| > 0 && s[0] == '-' then 1 else 0
  }

  /** Length of the longest run of digits at the start of `s`. */
  function DigitRun(s: string): (n: nat)
    ensures n <= |s|
    ensures forall i :: 0 <= i < n ==> Text.IsDigit(s[i])
    ensures n == |s| || !Text.IsDigit(s[n])
  {
    if |s| > 0 && Text.IsDigit(s[0]) then 1 + DigitRun(s[1..]) else 0
  }

  /** The length of the digit run after the sign. */
  function LeadDigits(s: string): nat {
    DigitRun(s[SignLen(s)..])
  }

  /** One substitution: the regex matches when the sign is followed by at
      least four digits, and a space goes in before the run's last three. */
  function IntspaceStep(s: string): (r: Option<string>)
    ensures r.None? <==> LeadDigits(s) < 4
    ensures r.Some? ==>
              var k := SignLen(s) + LeadDigits(s);
              r.value == s[..k - 3] + " " + s[k - 3..]
  {
    var k := SignLen(s) + LeadDigits(s);
    if LeadDigits(s) >= 4 then Some(s[..k - 3] + " " + s[k - 3..]) else None
  }

  /** `intspace(value)` on the text of the value. */
  function Intspace(s: string): (r: string)
    ensures IntspaceStep(r).None?
    decreases LeadDigits(s)
  {
    match IntspaceStep(s)
    case None => s
    case Some(t) =>
      StepShortensRun(s);
      Intspace(t)
  }

  /** A string split as sign, leading digits and the rest. */
  lemma SplitLead(s: string)
    ensures var sign := SignLen(s);
            var n := LeadDigits(s);
            && sign + n <= |s|
            && s == s[..sign] + s[sign..sign + n] + s[sign + n..]
            && Text.AllDigits(s[sign..sign + n])
            && (sign + n == |s| || !Text.IsDigit(s[sign + n]))
  {
    var sign := SignLen(s);
    var n := LeadDigits(s);
    assert forall i :: 0 <= i < n ==> s[sign..][i] == s[sign + i];
    if sign + n < |s| {
      assert s[sign..][n] == s[sign + n];
    }
  }

  /** Digit runs of a known shape. */
  lemma {:induction false} DigitRunOf(d: string, rest: string)
    requires Text.AllDigits(d)
    requires |rest| == 0 || !Text.IsDigit(rest[0])
    ensures DigitRun(d + rest) == |d|
    decreases |d|
  {
    if |d| > 0 {
      assert (d + rest)[0] == d[0];
      assert (d + rest)[1..] == d[1..] + rest;
      DigitRunOf(d[1..], rest);
    } else {
      assert d + rest == rest;
    }
  }

  /** The sign of `sign + d + rest` when `d` is non-empty digits. */
  lemma SignOf(sign: string, d: string, rest: string)
    requires sign == "" || sign == "-"
    requires |d| > 0 && Text.AllDigits(d)
    ensures SignLen(sign + d + rest) == |sign|
    ensures (sign + d + rest)[|sign|..] == d + rest
  {
    var s := sign + d + rest;
    if sign == "" {
      assert s[0] == d[0];
    }
  }

  /** The substitution on `sign + d + rest`, with `d` the leading digits. */
  lemma StepOn(sign: string, d: string, rest: string)
    requires sign == "" || sign == "-"
    requires |d| > 0 && Text.AllDigits(d)
    requires |rest| == 0 || !Text.IsDigit(rest[0])
    ensures LeadDigits(sign + d + rest) == |d|
    ensures |d| >= 4 ==> IntspaceStep(sign + d + rest) == Some(sign + d[..|d| - 3] + (" " + d[|d| - 3..] + rest))
  {
    var s := sign + d + rest;
    SignOf(sign, d, rest);
    DigitRunOf(d, rest);
    assert LeadDigits(s) == DigitRun(d + rest) == |d|;
    var k := |sign| + |d|;
    if |d| >= 4 {
      assert s[..k - 3] == sign + d[..|d| - 3];
      assert s[k - 3..] == d[|d| - 3..] + rest;
      assert IntspaceStep(s) == Some(s[..k - 3] + " " + s[k - 3..]);
      assert s[..k - 3] + " " + s[k - 3..] == sign + d[..|d| - 3] + (" " + d[|d| - 3..] + rest);
    }
  }

  /** A substitution cuts the leading run by three digits. */
  lemma StepShortensRun(s: string)
    requires IntspaceStep(s).Some?
    ensures LeadDigits(IntspaceStep(s).value) == LeadDigits(s) - 3
  {
    SplitLead(s);
    var sign := s[..SignLen(s)];
    var n := LeadDigits(s);
    assert n >= 4;
    var d := s[SignLen(s)..SignLen(s) + n];
    var rest := s[SignLen(s) + n..];
    assert s == sign + d + rest;
    StepOn(sign, d, rest);
    var rest2 := " " + d[n - 3..] + rest;
    var t := sign + d[..n - 3] + rest2;
    assert IntspaceStep(s) == Some(t);
    assert Text.AllDigits(d[..n - 3]);
    assert rest2[0] == ' ';
    StepOn(sign, d[..n - 3], rest2);
  }

  /** The reference: digits grouped in threes from the right, the first
      group holding one to three digits. */
  function Group3(d: string): (r: string)
    decreases |d|
  {
    if |d| <= 3 then d else Group3(d[..|d| - 3]) + " " + d[|d| - 3..]
  }

  /** One step of the fixed-point recursion. */
  lemma IntspaceUnfold(s: string)
    ensures IntspaceStep(s).None? ==> Intspace(s) == s
    ensures IntspaceStep(s).Some? ==> Intspace(s) == Intspace(IntspaceStep(s).value)
  {
  }

  lemma GroupRegroup(sign: string, g: string, last: string, rest: string)
    ensures sign + g + (" " + last + rest) == sign + (g + " " + last) + rest
  {
  }

  /** `intspace` groups the digits after the sign in threes from the
      right and leaves the sign and everything after the digits alone. */
  lemma {:induction false} IntspaceGroups(sign: string, d: string, rest: string)
    requires sign == "" || sign == "-"
    requires |d| > 0 && Text.AllDigits(d)
    requires |rest| == 0 || !Text.IsDigit(rest[0])
    ensures Intspace(sign + d + rest) == sign + Group3(d) + rest
    decreases |d|
  {
    StepOn(sign, d, rest);
    IntspaceUnfold(sign + d + rest);
    if |d| >= 4 {
      var head := d[..|d| - 3];
      var last := d[|d| - 3..];
      var rest2 := " " + last + rest;
      assert Text.AllDigits(head);
      assert rest2[0] == ' ';
      IntspaceGroups(sign, head, rest2);
      GroupRegroup(sign, Group3(head), last, rest);
    }
  }

  /** `intspace` applied to an integer: the text of the number. */
  function IntText(n: int): string {
    if n < 0 then "-" + Text.Decimal(-n) else Text.Decimal(n)
  }

  function IntspaceInt(n: int): string {
    Intspace(IntText(n))
  }

  /** Grouping an integer: its sign followed by its digits in threes. */
  lemma IntspaceIntGroups(n: int)
    ensures IntspaceInt(n) == (if n < 0 then "-" else "") + Group3(Text.Decimal(if n < 0 then -n else n))
  {
    var sign := if n < 0 then "-" else "";
    var d := Text.Decimal(if n < 0 then -n else n);
    assert IntText(n) == sign + d + "";
    IntspaceGroups(sign, d, "");
    assert sign + Group3(d) + "" == sign + Group3(d);
  }

  /** Appending a zero digit multiplies by ten. */
  lemma DecimalTimesTen(n: nat)
    requires n > 0
    ensures Text.Decimal(10 * n) == Text.Decimal(n) + "0"
  {
    assert (10 * n) / 10 == n && (10 * n) % 10 == 0;
  }

  lemma GroupStep(d: string, last: string)
    requires |d| > 0 && |last| == 3
    ensures Group3(d + last) == Group3(d) + " " + last
  {
    assert (d + last)[..|d|] == d && (d + last)[|d|..] == last;
  }

  /** A number and its negation, given its digits and their grouping. */
  lemma IntspaceIntOf(n: nat, d: string, g: string)
    requires n > 0 && Text.Decimal(n) == d && Group3(d) == g
    ensures IntspaceInt(n) == g
    ensures IntspaceInt(-(n as int)) == "-" + g
  {
    IntspaceIntGroups(n);
    IntspaceIntGroups(-(n as int));
  }

  lemma Decimal300()
    ensures Text.Decimal(300) == "300"
  {
    assert Text.Decimal(3) == "3";
    DecimalTimesTen(3);
    DecimalTimesTen(30);
  }

  lemma Decimal3000()
    ensures Text.Decimal(3000) == "3000"
  {
    Decimal300();
    DecimalTimesTen(300);
  }

  lemma Decimal30000()
    ensures Text.Decimal(30000) == "30000"
  {
    Decimal3000();
    DecimalTimesTen(3000);
  }

  lemma Decimal300000()
    ensures Text.Decimal(300000) == "300000"
  {
    Decimal30000();
    DecimalTimesTen(30000);
  }

  lemma Group3000()
    ensures Group3("3000") == "3 000"
  {
    assert "3000" == "3" + "000";
    GroupStep("3", "000");
  }

  lemma Group30000()
    ensures Group3("30000") == "30 000"
  {
    assert "30000" == "30" + "000";
    GroupStep("30", "000");
  }

  lemma Group300000()
    ensures Group3("300000") == "300 000"
  {
    assert "300000" == "300" + "000";
    GroupStep("300", "000");
  }

  /** The negative outputs, spelled as a sign and the grouped digits. */
  lemma SignedLiterals()
    ensures "-" + "300" == "-300"
    ensures "-" + "3 000" == "-3 000"
    ensures "-" + "30 000" == "-30 000"
    ensures "-" + "300 000" == "-300 000"
  {
  }

  lemma IntspaceExample300()
    ensures IntspaceInt(300) == "300"
    ensures IntspaceInt(-300) == "-300"
  {
    Decimal300();
    IntspaceIntOf(300, "300", "300");
    SignedLiterals();
  }

  lemma IntspaceExample3000()
    ensures IntspaceInt(3000) == "3 000"
    ensures IntspaceInt(-3000) == "-3 000"
  {
    Decimal3000();
    Group3000();
    IntspaceIntOf(3000, "3000", "3 000");
    SignedLiterals();
  }

  lemma IntspaceExample30000()
    ensures IntspaceInt(30000) == "30 000"
    ensures IntspaceInt(-30000) == "-30 000"
  {
    Decimal30000();
    Group30000();
    IntspaceIntOf(30000, "30000", "30 000");
    SignedLiterals();
  }

  lemma IntspaceExample300000()
    ensures IntspaceInt(300000) == "300 000"
    ensures IntspaceInt(-300000) == "-300 000"
  {
    Decimal300000();
    Group300000();
    IntspaceIntOf(300000, "300000", "300 000");
    SignedLiterals();
  }

  /** The outputs the tag library's tests expect. */
  lemma IntspaceExamples()
    ensures IntspaceInt(300) == "300"
    ensures IntspaceInt(3000) == "3 000"
    ensures IntspaceInt(30000) == "30 000"
    ensures IntspaceInt(300000) == "300 000"
    ensures IntspaceInt(-300) == "-300"
    ensures IntspaceInt(-3000) == "-3 000"
    ensures IntspaceInt(-30000) == "-30 000"
    ensures IntspaceInt(-300000) == "-300 000"
  {
    IntspaceExample300();
    IntspaceExample3000();
    IntspaceExample30000();
    IntspaceExample300000();
  }

  /** `intspace` only inserts spaces. */
  lemma {:induction false} IntspaceOnlyAddsSpaces(s: string)
    ensures Text.Without(Intspace(s), ' ') == Text.Without(s, ' ')
    decreases LeadDigits(s)
  {
    match IntspaceStep(s)
    case None =>
    case Some(t) =>
      StepShortensRun(s);
      IntspaceOnlyAddsSpaces(t);
      var k := SignLen(s) + LeadDigits(s);
      assert s == s[..k - 3] + s[k - 3..];
      Text.WithoutAppend(s[..k - 3], s[k - 3..], ' ');
      Text.WithoutAppend(s[..k - 3], " " + s[k - 3..], ' ');
      Text.WithoutAppend(" ", s[k - 3..], ' ');
      assert t == s[..k - 3] + (" " + s[k - 3..]);
  }

  /** The result is a fixed point of the substitution, so applying
      `intspace` again changes nothing. */
  lemma {:induction false} IntspaceIdempotent(s: string)
    ensures IntspaceStep(Intspace(s)).None?
    ensures Intspace(Intspace(s)) == Intspace(s)
    decreases LeadDigits(s)
  {
    match IntspaceStep(s)
    case None =>
    case Some(t) =>
      StepShortensRun(s);
      IntspaceIdempotent(t);
  }

  /** `intspace_r`: the grouping done on the reversed text, so that the
      short group comes last. */
  function IntspaceR(s: string): (r: string)
    ensures Text.Without(r, ' ') == Text.Without(s, ' ')
  {
    IntspaceOnlyAddsSpaces(Text.Reverse(s));
    WithoutReverse(Intspace(Text.Reverse(s)));
    WithoutReverse(s);
    ReverseReverse(Text.Without(s, ' '));
    Text.Reverse(Intspace(Text.Reverse(s)))
  }

  lemma {:induction false} WithoutReverse(s: string)
    ensures Text.Without(Text.Reverse(s), ' ') == Text.Reverse(Text.Without(s, ' '))
    decreases |s|
  {
    if |s| > 0 {
      WithoutReverse(s[1..]);
      assert Text.Reverse(s) == Text.Reverse(s[1..]) + [s[0]];
      Text.WithoutAppend(Text.Reverse(s[1..]), [s[0]], ' ');
      assert [s[0]][1..] == [];
      var w := Text.Without(s[1..], ' ');
      if s[0] != ' ' {
        assert Text.Reverse([s[0]] + w) == Text.Reverse(w) + [s[0]] by {
          assert ([s[0]] + w)[1..] == w;
        }
      }
    }
  }

  lemma ReverseReverse(s: string)
    ensures Text.Reverse(Text.Reverse(s)) == s
  {
  }

  /** The reference for `intspace_r`: digits grouped in threes from the
      left, the last group holding one to three digits. */
  function GroupLeft(d: string): (r: string)
    decreases |d|
  {
    if |d| <= 3 then d else d[..3] + " " + GroupLeft(d[3..])
  }

  lemma ReverseConcat(a: string, b: string)
    ensures Text.Reverse(a + b) == Text.Reverse(b) + Text.Reverse(a)
  {
    var l := Text.Reverse(a + b);
    var r := Text.Reverse(b) + Text.Reverse(a);
    assert |l| == |r|;
    forall i | 0 <= i < |l|
      ensures l[i] == r[i]
    {
      if i < |b| {
        assert l[i] == (a + b)[|a| + |b| - 1 - i];
      } else {
        assert l[i] == (a + b)[|a| + |b| - 1 - i];
      }
    }
  }

  /** Grouping the reversed text from the right and reversing back groups
      the original text from the left. */
  lemma {:induction false} ReverseGroup3(d: string)
    ensures Text.Reverse(Group3(Text.Reverse(d))) == GroupLeft(d)
    decreases |d|
  {
    var e := Text.Reverse(d);
    if |d| > 3 {
      var n := |e|;
      assert e[n - 3..] == Text.Reverse(d[..3]);
      assert e[..n - 3] == Text.Reverse(d[3..]);
      ReverseConcat(Group3(e[..n - 3]) + " ", e[n - 3..]);
      ReverseConcat(Group3(e[..n - 3]), " ");
      ReverseGroup3(d[3..]);
      ReverseReverse(d[..3]);
      assert Text.Reverse(" ") == " ";
    } else {
      ReverseReverse(d);
    }
  }

  /** `intspace_r` of a number's digits groups them in threes from the
      left, putting the short group at the end. */
  lemma IntspaceRDigits(d: string)
    requires |d| > 0 && Text.AllDigits(d)
    ensures IntspaceR(d) == GroupLeft(d)
  {
    IntspaceOfDigits(Text.Reverse(d));
    ReverseGroup3(d);
  }

  lemma IntspaceRExample()
    ensures IntspaceR("1234567") == "123 456 7"
  {
    GroupLeft7();
    IntspaceRDigits("1234567");
  }

  lemma GroupLeft7()
    ensures Text.AllDigits("1234567")
    ensures GroupLeft("1234567") == "123 456 7"
  {
    assert "1234567"[..3] == "123" && "1234567"[3..] == "4567";
    assert "4567"[..3] == "456" && "4567"[3..] == "7";
  }

  /** A bare run of digits is grouped whole. */
  lemma IntspaceOfDigits(d: string)
    requires |d| > 0 && Text.AllDigits(d)
    ensures Intspace(d) == Group3(d)
  {
    assert d == "" + d + "";
    IntspaceGroups("", d, "");
    assert "" + Group3(d) + "" == Group3(d);
  }

  // ---------------------------------------------------------------------
  // middle_truncate

  /** The ellipsis character U+2026. */
  const Ellipsis: char := 0x2026 as char

  /** Slicing with a float index raises TypeError under Python 3. */
  datatype TruncateError = SliceByFloat

  /** `middle_truncate` as written, run under Python 3: `(size - 3) / 2` is
      a float there even when the division is exact, and a float slice
      index raises TypeError, so every value that needs the middle cut
      fails. */
  function MiddleTruncateAsWritten(value: string, size: int): (r: Result<string, TruncateError>)
    ensures r.Failure? <==> |value| > size > 3
  {
    if |value| > size then
      if size > 3 then Failure(SliceByFloat)
      else Success(Text.Prefix(value, size) + [Ellipsis])
    else Success(value)
  }

  /** Under Python 3 a ten-character value cut to six fails, where integer
      division gives one leading and two trailing characters. */
  lemma MiddleTruncateFailsUnderPython3()
    ensures MiddleTruncateAsWritten("abcdefghij", 6) == Failure(SliceByFloat)
    ensures MiddleTruncate("abcdefghij", 6) == "a" + [Ellipsis] + "ij"
  {
    assert "abcdefghij"[..1] == "a";
    assert "abcdefghij"[8..] == "ij";
  }

  /** `middle_truncate` with the integer division it was written for: a
      value no longer than `size` is kept; otherwise, for a size over 3,
      the first `(size-3)/2` characters, the ellipsis and the last
      `(size-3) - (size-3)/2` characters; for a size up to 3, the first
      `size` characters (Python slice) and the ellipsis. */
  function MiddleTruncate(value: string, size: int): (r: string)
    ensures |value| <= size ==> r == value
    ensures |value| > size && size > 3 ==>
              var head := (size - 3) / 2;
              var tail := (size - 3) - head;
              && |r| == size - 2
              && r == value[..head] + [Ellipsis] + value[|value| - tail..]
    ensures |value| > size && size <= 3 ==> r == Text.Prefix(value, size) + [Ellipsis]
  {
    if |value| > size then
      if size > 3 then
        var start := (size - 3) / 2;
        var end := (size - 3) - start;
        Text.Prefix(value, start) + [Ellipsis] + Text.Suffix(value, -end)
      else Text.Prefix(value, size) + [Ellipsis]
    else value
  }

  /** Outside the middle cut, the code as written and the corrected
      definition agree. */
  lemma MiddleTruncateAgreesOutsideCut(value: string, size: int)
    requires !(|value| > size > 3)
    ensures MiddleTruncateAsWritten(value, size) == Success(MiddleTruncate(value, size))
  {
  }

  // ---------------------------------------------------------------------
  // strip_path

  /** Index just after the last `/` of `s`, or 0 when there is none. */
  function AfterLastSlash(s: string): (i: nat)
    ensures i <= |s|
    ensures i > 0 ==> s[i - 1] == '/'
    ensures '/' !in s[i..]
    decreases |s|
  {
    if |s| == 0 then 0
    else if s[|s| - 1] == '/' then |s|
    else
      var i := AfterLastSlash(s[..|s| - 1]);
      assert s[i..] == s[..|s| - 1][i..] + [s[|s| - 1]];
      i
  }

  /** `strip_path`: `os.path.split(path)[1]`, the text after the last `/`,
      or the whole path when it has none. */
  function StripPath(path: string): (r: string)
    ensures '/' !in r
    ensures exists head :: path == head + r && (head == "" || head[|head| - 1] == '/')
  {
    var i := AfterLastSlash(path);
    var head := path[..i];
    assert path == head + path[i..];
    assert head == "" || head[|head| - 1] == '/';
    path[i..]
  }

  /** The part after a final `/` is what `strip_path` returns. */
  lemma {:induction false} AfterLastSlashOf(head: string, tail: string)
    requires |head| > 0 && head[|head| - 1] == '/'
    requires '/' !in tail
    ensures AfterLastSlash(head + tail) == |head|
    decreases |tail|
  {
    var s := head + tail;
    if |tail| > 0 {
      assert s[|s| - 1] == tail[|tail| - 1];
      assert s[..|s| - 1] == head + tail[..|tail| - 1];
      AfterLastSlashOf(head, tail[..|tail| - 1]);
    } else {
      assert s == head;
    }
  }

  lemma StripPathOf(head: string, tail: string)
    requires |head| > 0 && head[|head| - 1] == '/'
    requires '/' !in tail
    ensures StripPath(head + tail) == tail
  {
    AfterLastSlashOf(head, tail);
    assert (head + tail)[|head|..] == tail;
  }

  lemma StripPathExample()
    ensures StripPath("/etc/passwd/shadow") == "shadow"
  {
    assert "/etc/passwd/shadow" == "/etc/passwd/" + "shadow";
    StripPathOf("/etc/passwd/", "shadow");
  }
}
