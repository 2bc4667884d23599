/** Python string and sequence primitives the helpers are built from:
    ASCII character classes, decimal rendering (`%d`), `str.split` with a
    maximum split count, `str.join`, the `in` substring test and slicing
    with negative or out-of-range bounds. */
module Text {

  predicate IsDigit(c: char) {
    '0' <= c <= '9'
  }

  predicate IsAsciiLetter(c: char) {
    ('a' <= c <= 'z') || ('A' <= c <= 'Z')
  }

  /** The regular-expression class `\w`, restricted to ASCII. */
  predicate IsWordChar(c: char) {
    IsAsciiLetter(c) || IsDigit(c) || c == '_'
  }

  /** The regular-expression class `\s`, restricted to ASCII. */
  predicate IsSpace(c: char) {
    c == ' ' || c == '\t' || c == '\n' || c == '\r' || c == 11 as char || c == 12 as char
  }

  predicate AllDigits(s: string) {
    forall i :: 0 <= i < |s| ==> IsDigit(s[i])
  }

  predicate StartsWith(s: string, prefix: string) {
    |prefix| <= |s| && s[..|prefix|] == prefix
  }

  /** Python's `sub in s` for strings. */
  predicate Contains(s: string, sub: string)
    decreases |s|
  {
    StartsWith(s, sub) || (|s| > 0 && Contains(s[1..], sub))
  }

  function DigitChar(d: nat): (c: char)
    requires d < 10
    ensures IsDigit(c)
  {
    (d + '0' as int) as char
  }

  function DigitValue(c: char): (d: nat)
    requires IsDigit(c)
    ensures d < 10 && DigitChar(d) == c
  {
    (c as int - '0' as int)
  }

  /** `'%d' % n` for a non-negative integer. */
  function Decimal(n: nat): (s: string)
    ensures |s| >= 1 && AllDigits(s)
    decreases n
  {
    if n < 10 then [DigitChar(n)] else Decimal(n / 10) + [DigitChar(n % 10)]
  }

  /** The value of a non-empty run of decimal digits. */
  function DigitsValue(s: string): nat
    requires AllDigits(s)
    decreases |s|
  {
    if |s| == 0 then 0 else 10 * DigitsValue(s[..|s| - 1]) + DigitValue(s[|s| - 1])
  }

  /** Reading back a rendered number gives the number. */
  lemma {:induction false} DecimalRoundTrip(n: nat)
    ensures DigitsValue(Decimal(n)) == n
    decreases n
  {
    if n >= 10 {
      DecimalRoundTrip(n / 10);
      var s := Decimal(n);
      assert s[..|s| - 1] == Decimal(n / 10);
    }
  }

  function Pow10(k: nat): (p: nat)
    ensures p >= 1
  {
    if k == 0 then 1 else 10 * Pow10(k - 1)
  }

  /** A number of at least `10^k` needs more than `k` digits. */
  lemma {:induction false} DecimalLength(n: nat, k: nat)
    requires n >= Pow10(k)
    ensures |Decimal(n)| > k
    decreases k
  {
    if k > 0 {
      assert n >= 10;
      assert n / 10 >= Pow10(k - 1);
      DecimalLength(n / 10, k - 1);
    }
  }

  /** Python's `sep.join(parts)`. */
  function Join(parts: seq<string>, sep: string): string
    decreases |parts|
  {
    if |parts| == 0 then ""
    else if |parts| == 1 then parts[0]
    else parts[0] + sep + Join(parts[1..], sep)
  }

  /** Joining one more part appends the separator and that part. */
  lemma {:induction false} JoinAppend(parts: seq<string>, x: string, sep: string)
    requires |parts| > 0
    ensures Join(parts + [x], sep) == Join(parts, sep) + sep + x
    decreases |parts|
  {
    if |parts| > 1 {
      assert (parts + [x])[1..] == parts[1..] + [x];
      JoinAppend(parts[1..], x, sep);
    } else {
      assert parts + [x] == [parts[0], x];
      assert [parts[0], x][1..] == [x];
    }
  }

  /** A join is at least as long as its first part. */
  lemma {:induction false} JoinHead(parts: seq<string>, sep: string)
    requires |parts| > 0
    ensures StartsWith(Join(parts, sep), parts[0])
  {
    if |parts| > 1 {
      assert Join(parts, sep) == parts[0] + (sep + Join(parts[1..], sep));
    }
  }

  /** Python's `s.split(sep, maxsplit)` with a one-character separator; a
      negative `maxsplit` means no limit. The string is read one character
      at a time: a separator opens a new part while splits remain, any
      other character joins the current first part. */
  function Split(s: string, sep: char, maxsplit: int): (parts: seq<string>)
    ensures |parts| >= 1
    ensures maxsplit >= 0 ==> |parts| <= maxsplit + 1
    decreases |s|
  {
    if |s| == 0 then [""]
    else if s[0] == sep && maxsplit != 0 then
      [""] + Split(s[1..], sep, if maxsplit < 0 then maxsplit else maxsplit - 1)
    else
      var r := Split(s[1..], sep, maxsplit);
      [[s[0]] + r[0]] + r[1..]
  }

  /** Adding a character to the front of the first part adds it to the
      front of the join. */
  lemma JoinFrontChar(c: char, r: seq<string>, sep: string)
    requires |r| > 0
    ensures Join([[c] + r[0]] + r[1..], sep) == [c] + Join(r, sep)
  {
    var parts := [[c] + r[0]] + r[1..];
    if |r| > 1 {
      assert parts[1..] == r[1..];
    }
  }

  /** Joining the parts of a split with the separator gives back the
      string. */
  lemma {:induction false} SplitJoin(s: string, sep: char, maxsplit: int)
    ensures Join(Split(s, sep, maxsplit), [sep]) == s
    decreases |s|
  {
    if |s| > 0 {
      if s[0] == sep && maxsplit != 0 {
        var m := if maxsplit < 0 then maxsplit else maxsplit - 1;
        SplitJoin(s[1..], sep, m);
        var rest := Split(s[1..], sep, m);
        assert ([""] + rest)[1..] == rest;
        assert s == [sep] + s[1..];
      } else {
        SplitJoin(s[1..], sep, maxsplit);
        JoinFrontChar(s[0], Split(s[1..], sep, maxsplit), [sep]);
        assert s == [s[0]] + s[1..];
      }
    }
  }

  /** Every part of a split but the last holds no separator. */
  lemma {:induction false} SplitPartsNoSep(s: string, sep: char, maxsplit: int)
    ensures forall i :: 0 <= i < |Split(s, sep, maxsplit)| - 1 ==> sep !in Split(s, sep, maxsplit)[i]
    decreases |s|
  {
    if |s| > 0 {
      var parts := Split(s, sep, maxsplit);
      if s[0] == sep && maxsplit != 0 {
        var m := if maxsplit < 0 then maxsplit else maxsplit - 1;
        SplitPartsNoSep(s[1..], sep, m);
        var rest := Split(s[1..], sep, m);
        assert forall i :: 0 <= i < |rest| - 1 ==> sep !in rest[i];
        assert parts == [""] + rest;
        forall j | 0 <= j < |parts| - 1
          ensures sep !in parts[j]
        {
          if j > 0 {
            assert parts[j] == rest[j - 1];
          }
        }
      } else {
        SplitPartsNoSep(s[1..], sep, maxsplit);
        var r := Split(s[1..], sep, maxsplit);
        assert forall i :: 0 <= i < |r| - 1 ==> sep !in r[i];
        assert parts == [[s[0]] + r[0]] + r[1..];
        forall j | 0 <= j < |parts| - 1
          ensures sep !in parts[j]
        {
          if j > 0 {
            assert parts[j] == r[j];
          } else {
            assert s[0] != sep;
            assert sep !in r[0];
          }
        }
      }
    }
  }

  /** Without a split limit, the last part holds no separator either. */
  lemma {:induction false} SplitLastNoSep(s: string, sep: char, maxsplit: int)
    requires maxsplit < 0
    ensures var parts := Split(s, sep, maxsplit); sep !in parts[|parts| - 1]
    decreases |s|
  {
    if |s| > 0 {
      SplitLastNoSep(s[1..], sep, maxsplit);
      var r := Split(s[1..], sep, maxsplit);
      if s[0] != sep && |r| == 1 {
        assert Split(s, sep, maxsplit) == [[s[0]] + r[0]];
      }
    }
  }

  /** A string without the separator, or split with a limit of zero, is
      one part. */
  lemma {:induction false} SplitNoSep(s: string, sep: char, maxsplit: int)
    requires sep !in s || maxsplit == 0
    ensures Split(s, sep, maxsplit) == [s]
    decreases |s|
  {
    if |s| > 0 {
      assert s[0] != sep || maxsplit == 0;
      SplitNoSep(s[1..], sep, maxsplit);
      assert s == [s[0]] + s[1..];
    }
  }

  /** The first split takes the text before the first separator. */
  lemma {:induction false} SplitFirst(a: string, sep: char, rest: string, maxsplit: int)
    requires sep !in a && maxsplit != 0
    ensures Split(a + [sep] + rest, sep, maxsplit)
            == [a] + Split(rest, sep, if maxsplit < 0 then maxsplit else maxsplit - 1)
    decreases |a|
  {
    var s := a + [sep] + rest;
    if |a| == 0 {
      assert s == [sep] + rest;
      assert s[1..] == rest;
    } else {
      assert s[0] == a[0] && a[0] != sep;
      assert s[1..] == a[1..] + [sep] + rest;
      SplitFirst(a[1..], sep, rest, maxsplit);
      assert [a[0]] + a[1..] == a;
    }
  }

  /** A join ends with its last part. */
  lemma {:induction false} JoinLast(parts: seq<string>, sep: string)
    requires |parts| > 0
    ensures var j := Join(parts, sep); var p := parts[|parts| - 1];
            |p| <= |j| && j[|j| - |p|..] == p
    decreases |parts|
  {
    if |parts| > 1 {
      JoinLast(parts[1..], sep);
      var rest := Join(parts[1..], sep);
      var p := parts[|parts| - 1];
      assert parts[1..][|parts[1..]| - 1] == p;
      var j := parts[0] + sep + rest;
      assert j[|j| - |p|..] == rest[|rest| - |p|..];
    }
  }

  /** A text ending in `sep`, joined from parts whose last one has no
      `sep`, has an empty last part. */
  lemma LastPartEmpty(parts: seq<string>, sep: char)
    requires |parts| > 0 && sep !in parts[|parts| - 1]
    requires var j := Join(parts, [sep]); |j| > 0 && j[|j| - 1] == sep
    ensures parts[|parts| - 1] == ""
  {
    JoinLast(parts, [sep]);
  }

  /** A string ending in the separator splits with an empty last part. */
  lemma SplitTrailingSep(t: string, sep: char)
    requires |t| > 0 && t[|t| - 1] == sep
    ensures var parts := Split(t, sep, -1); parts[|parts| - 1] == ""
  {
    SplitJoin(t, sep, -1);
    SplitLastNoSep(t, sep, -1);
    LastPartEmpty(Split(t, sep, -1), sep);
  }

  function Reverse<T>(s: seq<T>): (r: seq<T>)
    ensures |r| == |s|
    ensures forall i :: 0 <= i < |s| ==> r[i] == s[|s| - 1 - i]
  {
    if |s| == 0 then [] else Reverse(s[1..]) + [s[0]]
  }

  /** Every character of `s` except the occurrences of `c`. */
  function Without(s: string, c: char): (r: string)
    ensures c !in r
    ensures |r| <= |s|
  {
    if |s| == 0 then ""
    else if s[0] == c then Without(s[1..], c)
    else [s[0]] + Without(s[1..], c)
  }

  lemma {:induction false} WithoutAppend(a: string, b: string, c: char)
    ensures Without(a + b, c) == Without(a, c) + Without(b, c)
    decreases |a|
  {
    if |a| > 0 {
      assert (a + b)[1..] == a[1..] + b;
      WithoutAppend(a[1..], b, c);
    } else {
      assert a + b == b;
    }
  }

  /** The start index Python uses for a slice bound `n` of a sequence of
      length `len`: negative bounds count from the end, and every bound
      is clipped to `0..len`. */
  function SliceIndex(n: int, len: nat): (i: nat)
    ensures i <= len
  {
    if n < 0 then (if len + n < 0 then 0 else len + n)
    else if n > len then len else n
  }

  /** Python's `s[:n]`. */
  function Prefix<T>(s: seq<T>, n: int): seq<T> {
    s[..SliceIndex(n, |s|)]
  }

  /** Python's `s[n:]`. */
  function Suffix<T>(s: seq<T>, n: int): seq<T> {
    s[SliceIndex(n, |s|)..]
  }

  /** ASCII `str.lower`. */
  function Lower(s: string): (r: string)
    ensures |r| == |s|
  {
    seq(|s|, i requires 0 <= i < |s| =>
      if 'A' <= s[i] <= 'Z' then (s[i] as int + 32) as char else s[i])
  }
}
