/** The certificate check of `VerifiedHTTPSConnection`: whether the
    server certificate's subject names the required organization. */
module VerifiedHttp {
  import opened Wrappers
  import Text

  /** A relative distinguished name: its (attribute, value) pairs. */
  type Rdn = seq<(string, string)>

  /** Whether one attribute is an organization name containing the
      pattern. */
  predicate OrgMatches(attr: (string, string), pattern: string) {
    attr.0 == "organizationName" && Text.Contains(attr.1, pattern)
  }

  /** The scan of one RDN's pairs in order. */
  function ScanRdn(rdn: Rdn, pattern: string): (found: bool)
    ensures found <==> exists j :: 0 <= j < |rdn| && OrgMatches(rdn[j], pattern)
  {
    if |rdn| == 0 then false
    else if OrgMatches(rdn[0], pattern) then true
    else
      var rest := ScanRdn(rdn[1..], pattern);
      assert forall j :: 0 < j < |rdn| ==> rdn[j] == rdn[1..][j - 1];
      assert rest ==> exists j :: 0 <= j < |rdn| && OrgMatches(rdn[j], pattern) by {
        if rest {
          var j :| 0 <= j < |rdn[1..]| && OrgMatches(rdn[1..][j], pattern);
          assert rdn[j + 1] == rdn[1..][j];
        }
      }
      rest
  }

  /** The scan of the subject's RDNs in order. */
  function ScanSubject(subject: seq<Rdn>, pattern: string): (found: bool)
    ensures found <==> exists i :: 0 <= i < |subject| && ScanRdn(subject[i], pattern)
  {
    if |subject| == 0 then false
    else if ScanRdn(subject[0], pattern) then true
    else
      var rest := ScanSubject(subject[1..], pattern);
      assert forall i :: 0 < i < |subject| ==> subject[i] == subject[1..][i - 1];
      assert rest ==> exists i :: 0 <= i < |subject| && ScanRdn(subject[i], pattern) by {
        if rest {
          var i :| 0 <= i < |subject[1..]| && ScanRdn(subject[1..][i], pattern);
          assert subject[i + 1] == subject[1..][i];
        }
      }
      rest
  }

  /** `match_organization`: with no required pattern every certificate
      passes; otherwise some RDN must hold an `organizationName` value
      containing the pattern. */
  function MatchOrganization(required: Option<string>, subject: seq<Rdn>): (ok: bool)
    ensures required.None? ==> ok
    ensures required.Some? ==>
              (ok <==> exists i, j :: 0 <= i < |subject| && 0 <= j < |subject[i]|
                                      && subject[i][j].0 == "organizationName"
                                      && Text.Contains(subject[i][j].1, required.value))
  {
    match required
    case None => true
    case Some(p) => ScanSubject(subject, p)
  }

  /** An empty subject fails any required pattern. */
  lemma EmptySubjectFails(pattern: string)
    ensures !MatchOrganization(Some(pattern), [])
  {
  }

  /** Attributes other than the organization name never match, whatever
      their values. */
  lemma OtherAttributesIgnored(pattern: string, attr: string, value: string)
    requires attr != "organizationName"
    ensures !MatchOrganization(Some(pattern), [[(attr, value)]])
  {
  }

  /** A pattern found inside the organization name matches. */
  lemma SubstringMatches()
    ensures MatchOrganization(Some("PayPal"), [[("countryName", "US")], [("organizationName", "PayPal, Inc.")]])
  {
    var v := "PayPal, Inc.";
    assert v[..6] == "PayPal";
    assert Text.StartsWith(v, "PayPal");
    var subject: seq<Rdn> := [[("countryName", "US")], [("organizationName", v)]];
    assert subject[1][0].0 == "organizationName" && Text.Contains(subject[1][0].1, "PayPal");
  }
}
