/** `SecretTokenGenerator`: a token for a protectable string, made from
    the salted HMAC of the string, and the check of a returned token. */
module Crypto {

  /** `s[::-2]`: from the last character backwards, every second one. */
  function EveryOtherReversed(s: string): (r: string)
    ensures |r| == (|s| + 1) / 2
    decreases |s|
  {
    if |s| == 0 then ""
    else if |s| == 1 then s
    else [s[|s| - 1]] + EveryOtherReversed(s[..|s| - 2])
  }

  /** Position `i` of the token is position `|s| - 1 - 2i` of the digest. */
  lemma {:induction false} EveryOtherReversedAt(s: string, i: nat)
    requires i < (|s| + 1) / 2
    ensures EveryOtherReversed(s)[i] == s[|s| - 1 - 2 * i]
    decreases |s|
  {
    if |s| >= 2 && i > 0 {
      EveryOtherReversedAt(s[..|s| - 2], i - 1);
    }
  }

  /** The generator: the class name that salts the HMAC (the subclass's
      name when subclassed) and the salted HMAC hex digest itself, whose
      key is the project's secret. */
  datatype Generator = Generator(className: string, saltedHmac: (string, string) -> string)

  /** `make_token`: the digest of the protectable's text read backwards,
      every second character. */
  function MakeToken(g: Generator, protectable: string): (t: string)
    ensures |t| == (|g.saltedHmac(g.className, protectable)| + 1) / 2
  {
    EveryOtherReversed(g.saltedHmac(g.className, protectable))
  }

  /** `check_token`: the constant-time comparison is plain equality. */
  function CheckToken(g: Generator, protectable: string, token: string): (ok: bool)
    ensures ok <==> token == MakeToken(g, protectable)
  {
    token == MakeToken(g, protectable)
  }

  /** The i-th token character is the digest character `2i` places from
      its end, for a digest of any length (Django's default salted HMAC is
      SHA-1, 40 hexadecimal characters, giving a 20-character token). */
  lemma TokenFromDigest(g: Generator, protectable: string, i: nat)
    requires i < |MakeToken(g, protectable)|
    ensures var d := g.saltedHmac(g.className, protectable);
            MakeToken(g, protectable)[i] == d[|d| - 1 - 2 * i]
  {
    EveryOtherReversedAt(g.saltedHmac(g.className, protectable), i);
  }

  /** A token made for a string is accepted for it. */
  lemma MadeTokenChecks(g: Generator, protectable: string)
    ensures CheckToken(g, protectable, MakeToken(g, protectable))
  {
  }

  /** The digest positions `[::-2]` keeps agree between two strings. */
  predicate KeptAgree(s1: string, s2: string) {
    && (|s1| + 1) / 2 == (|s2| + 1) / 2
    && forall i :: 0 <= i < (|s1| + 1) / 2 ==> s1[|s1| - 1 - 2 * i] == s2[|s2| - 1 - 2 * i]
  }

  /** Two strings read the same backwards every second character exactly
      when they agree at every position an even distance from their ends,
      with the same half-length rounded up. */
  lemma EveryOtherReversedEq(s1: string, s2: string)
    ensures EveryOtherReversed(s1) == EveryOtherReversed(s2) <==> KeptAgree(s1, s2)
  {
    var t1, t2 := EveryOtherReversed(s1), EveryOtherReversed(s2);
    forall i | 0 <= i < |t1|
      ensures t1[i] == s1[|s1| - 1 - 2 * i]
    {
      EveryOtherReversedAt(s1, i);
    }
    forall i | 0 <= i < |t2|
      ensures t2[i] == s2[|s2| - 1 - 2 * i]
    {
      EveryOtherReversedAt(s2, i);
    }
    PickedEq(t1, t2, s1, s2);
  }

  /** The same fact for any two strings picked from `s1` and `s2` that way. */
  lemma PickedEq(t1: string, t2: string, s1: string, s2: string)
    requires |t1| == (|s1| + 1) / 2 && |t2| == (|s2| + 1) / 2
    requires forall i :: 0 <= i < |t1| ==> t1[i] == s1[|s1| - 1 - 2 * i]
    requires forall i :: 0 <= i < |t2| ==> t2[i] == s2[|s2| - 1 - 2 * i]
    ensures t1 == t2 <==> KeptAgree(s1, s2)
  {
    if KeptAgree(s1, s2) {
      assert forall i :: 0 <= i < |t1| ==> t1[i] == t2[i];
    }
    if t1 == t2 {
      forall i | 0 <= i < (|s1| + 1) / 2
        ensures s1[|s1| - 1 - 2 * i] == s2[|s2| - 1 - 2 * i]
      {
        assert t1[i] == t2[i];
      }
    }
  }

  /** Two protectables get the same token exactly when their digests agree
      at the positions the token keeps: the others never matter. */
  lemma TokenDependsOnDigest(g: Generator, p1: string, p2: string)
    ensures var d1, d2 := g.saltedHmac(g.className, p1), g.saltedHmac(g.className, p2);
            MakeToken(g, p1) == MakeToken(g, p2) <==> KeptAgree(d1, d2)
  {
    EveryOtherReversedEq(g.saltedHmac(g.className, p1), g.saltedHmac(g.className, p2));
  }

  lemma TokenExample()
    ensures EveryOtherReversed("abcdef") == "fdb"
    ensures EveryOtherReversed("abcde") == "eca"
  {
    assert "abcdef"[..4] == "abcd" && "abcd"[..2] == "ab" && "ab"[..0] == "";
    assert "abcde"[..3] == "abc" && "abc"[..1] == "a";
  }
}
