/**
 * IdentifierExtractor: reads the tenant identifier out of an IAM Identity
 * Center start URL "http(s)://<label>.awsapps.com/...".
 *
 * The label is the run of label characters after the scheme; it is
 * returned only when it is not empty and is followed by ".awsapps.com".
 * Any other input yields the empty string.
 */
module IdentifierExtractor {

  import opened Wrappers
  import FilenameSanitizer

  const Https: string := "https://"
  const Http: string := "http://"
  const AwsAppsDomain: string := ".awsapps.com"

  /**
   * A character that can stand in the host label: not the '.' that ends it,
   * not '@', which a host label never holds, and nothing the file-name
   * sanitizer would have to neutralise (a separator, NUL, space, ':' or '%').
   */
  predicate IsLabelChar(c: char) {
    !FilenameSanitizer.IsUnsafe(c) && c != '%' && c != '.' && c != '@'
  }

  /** A non-empty host label. */
  ghost predicate IsLabel(l: string) {
    l != [] && forall i :: 0 <= i < |l| ==> IsLabelChar(l[i])
  }

  /** What follows the scheme, if u starts with "https://" or "http://". */
  function AfterScheme(u: string): (h: Option<string>)
    ensures h.Some? ==> (u == Https + h.value || u == Http + h.value)
  {
    if Https <= u then Some(u[|Https|..])
    else if Http <= u then Some(u[|Http|..])
    else None
  }

  /** The longest prefix of s made of label characters. */
  function LabelPrefix(s: string): (l: string)
    ensures l <= s
    ensures forall i :: 0 <= i < |l| ==> IsLabelChar(l[i])
    ensures |l| == |s| || !IsLabelChar(s[|l|])
    decreases |s|
  {
    if s == [] || !IsLabelChar(s[0]) then [] else [s[0]] + LabelPrefix(s[1..])
  }

  function ExtractIDCIdentifier(startURL: string): (r: string)
    ensures r == [] || IsLabel(r)
  {
    if startURL == [] then []
    else match AfterScheme(startURL)
      case None => []
      case Some(h) =>
        var l := LabelPrefix(h);
        if l != [] && AwsAppsDomain <= h[|l|..] then l else []
  }

  /** The label of a start URL of the recognised shape comes back unchanged. */
  lemma {:induction false} LabelRoundTrip(scheme: string, name: string, rest: string)
    requires scheme == Https || scheme == Http
    requires IsLabel(name)
    ensures ExtractIDCIdentifier(scheme + name + AwsAppsDomain + rest) == name
  {
    var u := scheme + name + AwsAppsDomain + rest;
    var t := AwsAppsDomain + rest;
    assert u == scheme + (name + t);
    assert AfterScheme(u) == Some(name + t) by {
      if scheme == Http {
        assert !(Https <= u) by {
          assert u[4] == ':' && Https[4] == 's';
        }
      }
      assert u[|scheme|..] == name + t;
    }
    LabelPrefixStopsAtDot(name, t);
    assert (name + t)[|name|..] == t;
  }

  /** The label run of name + t is name when t starts with a dot. */
  lemma {:induction false} LabelPrefixStopsAtDot(name: string, t: string)
    requires forall i :: 0 <= i < |name| ==> IsLabelChar(name[i])
    requires t != [] && t[0] == '.'
    ensures LabelPrefix(name + t) == name
    decreases |name|
  {
    var s := name + t;
    if name == [] {
      assert s == t;
    } else {
      assert s[0] == name[0] && s[1..] == name[1..] + t;
      LabelPrefixStopsAtDot(name[1..], t);
      assert [name[0]] + name[1..] == name;
    }
  }

  /**
   * A non-empty result comes only from a start URL of the recognised shape,
   * with the result as its label.
   */
  lemma {:induction false} ResultHasRecognisedShape(startURL: string)
    requires ExtractIDCIdentifier(startURL) != []
    ensures exists scheme, rest ::
              && (scheme == Https || scheme == Http)
              && startURL == scheme + ExtractIDCIdentifier(startURL) + AwsAppsDomain + rest
  {
    var r := ExtractIDCIdentifier(startURL);
    var h := AfterScheme(startURL).value;
    var scheme := if startURL == Https + h then Https else Http;
    var rest := h[|r|..][|AwsAppsDomain|..];
    Reassemble(scheme, h, r, rest);
  }

  /** Putting the scheme, the label, the domain and the rest back together. */
  lemma {:induction false} Reassemble(scheme: string, h: string, r: string, rest: string)
    requires r <= h && AwsAppsDomain <= h[|r|..] && rest == h[|r|..][|AwsAppsDomain|..]
    ensures scheme + h == scheme + r + AwsAppsDomain + rest
  {
    var t := h[|r|..];
    assert h == r + t;
    assert t == AwsAppsDomain + rest;
  }

  /** The empty start URL yields nothing. */
  lemma {:induction false} EmptyURLYieldsNothing()
    ensures ExtractIDCIdentifier([]) == []
  {
  }

  /* The start-URL table, row by row. */

  lemma {:induction false} TableStandardURL()
    ensures ExtractIDCIdentifier("https://d-1234567890.awsapps.com/start") == "d-1234567890"
  {
    assert "https://d-1234567890.awsapps.com/start" == Https + "d-1234567890" + AwsAppsDomain + "/start";
    assert IsLabel("d-1234567890");
    LabelRoundTrip(Https, "d-1234567890", "/start");
  }

  lemma {:induction false} TableCompanyURL()
    ensures ExtractIDCIdentifier("https://my-company.awsapps.com/start") == "my-company"
  {
    assert "https://my-company.awsapps.com/start" == Https + "my-company" + AwsAppsDomain + "/start";
    assert IsLabel("my-company");
    LabelRoundTrip(Https, "my-company", "/start");
  }

  lemma {:induction false} TableSimpleNameURL()
    ensures ExtractIDCIdentifier("https://acme-corp.awsapps.com/start") == "acme-corp"
  {
    assert "https://acme-corp.awsapps.com/start" == Https + "acme-corp" + AwsAppsDomain + "/start";
    assert IsLabel("acme-corp");
    LabelRoundTrip(Https, "acme-corp", "/start");
  }

  lemma {:induction false} TablePlainHttpURL()
    ensures ExtractIDCIdentifier("http://d-9876543210.awsapps.com/start") == "d-9876543210"
  {
    assert "http://d-9876543210.awsapps.com/start" == Http + "d-9876543210" + AwsAppsDomain + "/start";
    assert IsLabel("d-9876543210");
    LabelRoundTrip(Http, "d-9876543210", "/start");
  }

  lemma {:induction false} TableSubdomainOnlyURL()
    ensures ExtractIDCIdentifier("https://test.awsapps.com/start") == "test"
  {
    assert "https://test.awsapps.com/start" == Https + "test" + AwsAppsDomain + "/start";
    assert IsLabel("test");
    LabelRoundTrip(Https, "test", "/start");
  }

  lemma {:induction false} TableBuilderIdURL()
    ensures ExtractIDCIdentifier("https://view.awsapps.com/start") == "view"
  {
    assert "https://view.awsapps.com/start" == Https + "view" + AwsAppsDomain + "/start";
    assert IsLabel("view");
    LabelRoundTrip(Https, "view", "/start");
  }
}
