/**
 * ClaimExtractor: reads the identity of the signed-in user out of a compact
 * signed token "<header>.<payload>.<signature>".
 *
 * The token is split on '.', and exactly three parts are required. The middle
 * part is decoded (base64url without padding, then a JSON object) into a
 * claim set; that decoding is a library call and is a parameter here. The
 * identity is the first usable claim of an ordered rule table: `email`,
 * then `preferred_username`, then `sub` when it looks like an email (holds
 * an '@'). Every failure yields the empty string.
 */
module ClaimExtractor {

  import opened Wrappers

  /** A decoded claim value: a JSON string, or any other JSON value. */
  datatype ClaimValue = Str(text: string) | NonString

  type Claims = map<string, ClaimValue>

  /** Number of occurrences of c in s. */
  function Count(s: string, c: char): (n: nat)
    ensures n <= |s|
    ensures n == 0 <==> c !in s
  {
    if s == [] then 0 else (if s[0] == c then 1 else 0) + Count(s[1..], c)
  }

  /**
   * Splits s at every occurrence of sep, keeping empty parts; the empty
   * string splits into one empty part, as Go's strings.Split does.
   */
  function Split(s: string, sep: char): (parts: seq<string>)
    ensures parts != []
    decreases |s|
  {
    if s == [] then [[]]
    else
      var rest := Split(s[1..], sep);
      if s[0] == sep then [[]] + rest else [[s[0]] + rest[0]] + rest[1..]
  }

  /** Puts sep between consecutive parts. */
  function Join(parts: seq<string>, sep: char): (s: string)
    requires parts != []
    decreases |parts|
  {
    if |parts| == 1 then parts[0] else parts[0] + [sep] + Join(parts[1..], sep)
  }

  /** There is one more part than there are separators. */
  lemma {:induction false} SplitCount(s: string, sep: char)
    ensures |Split(s, sep)| == Count(s, sep) + 1
    decreases |s|
  {
    if s != [] {
      SplitCount(s[1..], sep);
    }
  }

  /** No part holds the separator. */
  lemma {:induction false} SplitPartsHaveNoSeparator(s: string, sep: char)
    ensures forall p :: p in Split(s, sep) ==> sep !in p
    decreases |s|
  {
    if s != [] {
      SplitPartsHaveNoSeparator(s[1..], sep);
      var rest := Split(s[1..], sep);
      if s[0] != sep {
        assert sep !in rest[0];
        forall p | p in Split(s, sep) ensures sep !in p {
          if p != [s[0]] + rest[0] {
            assert p in rest[1..];
          }
        }
      }
    }
  }

  /** Joining the parts gives back the string that was split. */
  lemma {:induction false} JoinSplit(s: string, sep: char)
    ensures Join(Split(s, sep), sep) == s
    decreases |s|
  {
    if s != [] {
      var rest := Split(s[1..], sep);
      JoinSplit(s[1..], sep);
      if s[0] == sep {
        assert Split(s, sep)[1..] == rest;
      } else {
        var ps := Split(s, sep);
        if |rest| == 1 {
          assert ps == [[s[0]] + rest[0]];
        } else {
          assert ps[1..] == rest[1..];
          assert Join(rest, sep) == rest[0] + [sep] + Join(rest[1..], sep);
        }
      }
    }
  }

  /** Count adds up over concatenation. */
  lemma {:induction false} CountAppend(a: string, b: string, c: char)
    ensures Count(a + b, c) == Count(a, c) + Count(b, c)
    decreases |a|
  {
    if a != [] {
      assert (a + b)[0] == a[0] && (a + b)[1..] == a[1..] + b;
      CountAppend(a[1..], b, c);
    } else {
      assert a + b == b;
    }
  }

  /**
   * Joining k parts that hold no separator puts exactly k - 1 separators in
   * the result, one between each pair of consecutive parts.
   */
  lemma {:induction false} JoinCount(parts: seq<string>, sep: char)
    requires parts != []
    requires forall i :: 0 <= i < |parts| ==> sep !in parts[i]
    ensures Count(Join(parts, sep), sep) == |parts| - 1
    decreases |parts|
  {
    if |parts| > 1 {
      var tail := parts[1..];
      assert forall i :: 0 <= i < |tail| ==> tail[i] == parts[i + 1];
      JoinCount(tail, sep);
      CountAppend(parts[0] + [sep], Join(tail, sep), sep);
      CountAppend(parts[0], [sep], sep);
      assert Count([sep], sep) == 1;
    }
  }

  /** Splitting joined parts gives back the parts, when no part holds the separator. */
  lemma {:induction false} SplitJoin(parts: seq<string>, sep: char)
    requires parts != []
    requires forall i :: 0 <= i < |parts| ==> sep !in parts[i]
    ensures Split(Join(parts, sep), sep) == parts
    decreases |parts|
  {
    if |parts| == 1 {
      SplitNoSeparator(parts[0], sep);
    } else {
      SplitJoin(parts[1..], sep);
      SplitAfterPart(parts[0], sep, Join(parts[1..], sep));
      assert parts[0] + [sep] + Join(parts[1..], sep) == parts[0] + ([sep] + Join(parts[1..], sep));
      assert [parts[0]] + parts[1..] == parts;
    }
  }

  /** A string without the separator splits into itself alone. */
  lemma {:induction false} SplitNoSeparator(p: string, sep: char)
    requires sep !in p
    ensures Split(p, sep) == [p]
    decreases |p|
  {
    if p != [] {
      assert sep !in p[1..] by {
        forall c | c in p[1..] ensures c != sep {
          assert c in p;
        }
      }
      SplitNoSeparator(p[1..], sep);
      assert [p[0]] + p[1..] == p;
    }
  }

  /** A separator-free part followed by a separator starts the list of parts. */
  lemma {:induction false} SplitAfterPart(p: string, sep: char, t: string)
    requires sep !in p
    ensures Split(p + ([sep] + t), sep) == [p] + Split(t, sep)
    decreases |p|
  {
    var s := p + ([sep] + t);
    if p == [] {
      assert s == [sep] + t;
      assert s[1..] == t;
    } else {
      assert sep !in p[1..] by {
        forall c | c in p[1..] ensures c != sep {
          assert c in p;
        }
      }
      SplitAfterPart(p[1..], sep, t);
      assert s[0] == p[0] && s[1..] == p[1..] + ([sep] + t);
      assert [p[0]] + p[1..] == p;
    }
  }

  /** One entry of the claim-priority table. */
  datatype Rule = Rule(key: string, mustLookLikeEmail: bool)

  /**
   * The claim-priority table, in order: `email`, `preferred_username`, then
   * `sub`, which counts only when it holds an '@'.
   */
  const Rules: seq<Rule> := [Rule("email", false), Rule("preferred_username", false), Rule("sub", true)]

  /** The value a rule yields on a claim set: a non-empty string claim, if the rule accepts it. */
  function Usable(claims: Claims, rule: Rule): (v: Option<string>)
    ensures v.Some? ==> rule.key in claims && claims[rule.key] == Str(v.value) && v.value != []
    ensures v.Some? && rule.mustLookLikeEmail ==> '@' in v.value
  {
    if rule.key in claims && claims[rule.key].Str? && claims[rule.key].text != []
       && (!rule.mustLookLikeEmail || '@' in claims[rule.key].text)
    then Some(claims[rule.key].text)
    else None
  }

  /** The value of the first rule that yields one, or "" if none does. */
  function FirstUsable(claims: Claims, rules: seq<Rule>): (r: string)
    ensures r == [] <==> forall i :: 0 <= i < |rules| ==> Usable(claims, rules[i]).None?
    ensures r != [] ==> exists i :: 0 <= i < |rules| && Usable(claims, rules[i]) == Some(r)
    decreases |rules|
  {
    if rules == [] then []
    else match Usable(claims, rules[0])
      case Some(v) => v
      case None =>
        var r := FirstUsable(claims, rules[1..]);
        assert forall i :: 1 <= i < |rules| ==> rules[i] == rules[1..][i - 1];
        r
  }

  /** The identity a claim set yields under the priority table. */
  function SelectIdentity(claims: Claims): (r: string)
    ensures r != [] ==>
      || ("email" in claims && claims["email"] == Str(r))
      || ("preferred_username" in claims && claims["preferred_username"] == Str(r))
      || ("sub" in claims && claims["sub"] == Str(r) && '@' in r)
  {
    FirstUsable(claims, Rules)
  }

  function ExtractEmailFromJWT(token: string, decode: string -> Option<Claims>): (r: string)
    ensures r != [] ==> |Split(token, '.')| == 3 && decode(Split(token, '.')[1]).Some?
  {
    var parts := Split(token, '.');
    if |parts| != 3 then []
    else match decode(parts[1])
      case None => []
      case Some(claims) => SelectIdentity(claims)
  }

  /** The claim set has no non-empty string under key. */
  predicate Blank(claims: Claims, key: string) {
    key !in claims || !claims[key].Str? || claims[key].text == []
  }

  /** A non-empty string `email` claim wins over every other claim. */
  lemma {:induction false} EmailWins(claims: Claims, e: string)
    requires "email" in claims && claims["email"] == Str(e) && e != []
    ensures SelectIdentity(claims) == e
  {
    assert Usable(claims, Rules[0]) == Some(e);
  }

  /** Without a usable `email`, a non-empty `preferred_username` is taken. */
  lemma {:induction false} PreferredUsernameFallback(claims: Claims, u: string)
    requires Blank(claims, "email")
    requires "preferred_username" in claims && claims["preferred_username"] == Str(u) && u != []
    ensures SelectIdentity(claims) == u
  {
    assert Usable(claims, Rules[0]).None?;
    assert Rules[1..][0] == Rules[1];
    assert Usable(claims, Rules[1]) == Some(u);
  }

  /** Without a usable `email` or `preferred_username`, a `sub` holding '@' is taken. */
  lemma {:induction false} EmailLikeSubFallback(claims: Claims, s: string)
    requires Blank(claims, "email") && Blank(claims, "preferred_username")
    requires "sub" in claims && claims["sub"] == Str(s) && '@' in s
    ensures SelectIdentity(claims) == s
  {
    assert Rules[1..][0] == Rules[1];
    assert Rules[1..][1..][0] == Rules[2];
    assert Usable(claims, Rules[2]) == Some(s);
  }

  /** A `sub` without '@' is never an identity, whatever else the claims hold. */
  lemma {:induction false} NonEmailSubIgnored(claims: Claims, s: string)
    requires Blank(claims, "email") && Blank(claims, "preferred_username")
    requires "sub" in claims && claims["sub"] == Str(s) && '@' !in s
    ensures SelectIdentity(claims) == []
  {
    assert Usable(claims, Rules[2]).None?;
  }

  /** Only the three table keys matter: claims that agree on them select the same identity. */
  lemma {:induction false} OnlyTableKeysMatter(c1: Claims, c2: Claims)
    requires forall k :: k in {"email", "preferred_username", "sub"} ==>
               (k in c1 <==> k in c2) && (k in c1 ==> c1[k] == c2[k])
    ensures SelectIdentity(c1) == SelectIdentity(c2)
  {
    assert Rules[0].key == "email" && Rules[1].key == "preferred_username" && Rules[2].key == "sub";
    assert forall i :: 0 <= i < |Rules| ==> Usable(c1, Rules[i]) == Usable(c2, Rules[i]);
    FirstUsableAgrees(c1, c2, Rules);
  }

  lemma {:induction false} FirstUsableAgrees(c1: Claims, c2: Claims, rules: seq<Rule>)
    requires forall i :: 0 <= i < |rules| ==> Usable(c1, rules[i]) == Usable(c2, rules[i])
    ensures FirstUsable(c1, rules) == FirstUsable(c2, rules)
    decreases |rules|
  {
    if rules != [] {
      FirstUsableAgrees(c1, c2, rules[1..]);
    }
  }

  /** A character of the base64url alphabet (RFC 4648, section 5). */
  predicate IsBase64UrlChar(c: char) {
    ('A' <= c <= 'Z') || ('a' <= c <= 'z') || ('0' <= c <= '9') || c == '-' || c == '_'
  }

  /** A token segment as an encoder writes it: base64url characters only. */
  ghost predicate IsSegment(s: string) {
    forall i :: 0 <= i < |s| ==> IsBase64UrlChar(s[i])
  }

  lemma {:induction false} SegmentHasNoDot(s: string)
    requires IsSegment(s)
    ensures '.' !in s
  {
    assert forall i :: 0 <= i < |s| ==> s[i] != '.';
  }

  /** header "." payload "." signature splits back into its three segments. */
  lemma {:induction false} ThreeSegments(h: string, p: string, g: string)
    requires '.' !in h && '.' !in p && '.' !in g
    ensures Split(h + "." + p + "." + g, '.') == [h, p, g]
  {
    SplitJoin([h, p, g], '.');
    assert [h, p, g][1..] == [p, g] && [p, g][1..] == [g];
    assert Join([p, g], '.') == p + "." + g;
    assert Join([h, p, g], '.') == h + "." + (p + "." + g);
    assert h + "." + (p + "." + g) == h + "." + p + "." + g;
  }

  /**
   * A well-formed token yields exactly the identity its decoded payload
   * selects, and nothing when the payload does not decode.
   */
  lemma {:induction false} WellFormedToken(h: string, p: string, g: string, decode: string -> Option<Claims>)
    requires IsSegment(h) && IsSegment(p) && IsSegment(g)
    ensures ExtractEmailFromJWT(h + "." + p + "." + g, decode)
         == (if decode(p).Some? then SelectIdentity(decode(p).value) else [])
  {
    SegmentHasNoDot(h);
    SegmentHasNoDot(p);
    SegmentHasNoDot(g);
    ThreeSegments(h, p, g);
  }

  /** A token with other than two dots yields nothing, whatever the decoder. */
  lemma {:induction false} WrongPartCountYieldsNothing(token: string, decode: string -> Option<Claims>)
    requires Count(token, '.') != 2
    ensures ExtractEmailFromJWT(token, decode) == []
  {
    SplitCount(token, '.');
  }

  /** The empty token yields nothing. */
  lemma {:induction false} EmptyTokenYieldsNothing(decode: string -> Option<Claims>)
    ensures ExtractEmailFromJWT([], decode) == []
  {
    WrongPartCountYieldsNothing([], decode);
  }

  /** A token whose middle part does not decode yields nothing. */
  lemma {:induction false} UndecodablePayloadYieldsNothing(token: string, decode: string -> Option<Claims>)
    requires |Split(token, '.')| == 3 && decode(Split(token, '.')[1]).None?
    ensures ExtractEmailFromJWT(token, decode) == []
  {
  }

  /** The identity is "" exactly when no rule of the table yields a value. */
  lemma {:induction false} NoIdentityIffNoRuleMatches(claims: Claims)
    ensures SelectIdentity(claims) == []
        <==> (&& Usable(claims, Rule("email", false)).None?
              && Usable(claims, Rule("preferred_username", false)).None?
              && Usable(claims, Rule("sub", true)).None?)
  {
    assert Rules[0] == Rule("email", false);
    assert Rules[1] == Rule("preferred_username", false);
    assert Rules[2] == Rule("sub", true);
  }

  /** Four dot-free parts joined by dots split back into four parts. */
  lemma {:induction false} FourSegments(a: string, b: string, c: string, d: string)
    requires '.' !in a && '.' !in b && '.' !in c && '.' !in d
    ensures Split(a + "." + b + "." + c + "." + d, '.') == [a, b, c, d]
  {
    SplitJoin([a, b, c, d], '.');
    assert [a, b, c, d][1..] == [b, c, d] && [b, c, d][1..] == [c, d] && [c, d][1..] == [d];
    assert Join([c, d], '.') == c + "." + d;
    assert Join([b, c, d], '.') == b + "." + (c + "." + d);
    assert Join([a, b, c, d], '.') == a + "." + (b + "." + (c + "." + d));
    assert a + "." + (b + "." + (c + "." + d)) == a + "." + b + "." + c + "." + d;
  }

  /** Table row: a token of four dot-separated parts yields nothing. */
  lemma {:induction false} TableFourParts(decode: string -> Option<Claims>)
    ensures ExtractEmailFromJWT("not.a.valid.jwt", decode) == []
  {
    assert "not.a.valid.jwt" == "not" + "." + "a" + "." + "valid" + "." + "jwt";
    FourSegments("not", "a", "valid", "jwt");
  }

  /** Table row: three parts whose middle part does not decode yield nothing. */
  lemma {:induction false} TableUndecodable(decode: string -> Option<Claims>)
    requires decode("yyy").None?
    ensures ExtractEmailFromJWT("xxx.yyy.zzz", decode) == []
  {
    assert "xxx.yyy.zzz" == "xxx" + "." + "yyy" + "." + "zzz";
    ThreeSegments("xxx", "yyy", "zzz");
  }

  /** Table row: `email` is taken over `sub`. */
  lemma {:induction false} TableEmail(h: string, p: string, g: string, decode: string -> Option<Claims>)
    requires IsSegment(h) && IsSegment(p) && IsSegment(g)
    requires decode(p) == Some(map["email" := Str("test@example.com"), "sub" := Str("user123")])
    ensures ExtractEmailFromJWT(h + "." + p + "." + g, decode) == "test@example.com"
  {
    WellFormedToken(h, p, g, decode);
    EmailWins(decode(p).value, "test@example.com");
  }

  /** Table row: without `email`, `preferred_username` is taken over `sub`. */
  lemma {:induction false} TablePreferredUsername(h: string, p: string, g: string, decode: string -> Option<Claims>)
    requires IsSegment(h) && IsSegment(p) && IsSegment(g)
    requires decode(p) == Some(map["preferred_username" := Str("user@domain.com"), "sub" := Str("user123")])
    ensures ExtractEmailFromJWT(h + "." + p + "." + g, decode) == "user@domain.com"
  {
    WellFormedToken(h, p, g, decode);
    PreferredUsernameFallback(decode(p).value, "user@domain.com");
  }

  /** Table row: an email-like `sub` alone is taken. */
  lemma {:induction false} TableEmailLikeSub(h: string, p: string, g: string, decode: string -> Option<Claims>)
    requires IsSegment(h) && IsSegment(p) && IsSegment(g)
    requires decode(p) == Some(map["sub" := Str("another@test.com")])
    ensures ExtractEmailFromJWT(h + "." + p + "." + g, decode) == "another@test.com"
  {
    WellFormedToken(h, p, g, decode);
    assert "another@test.com"[7] == '@';
    EmailLikeSubFallback(decode(p).value, "another@test.com");
  }

  /** Table row: a plain `sub` and a `name` claim yield nothing. */
  lemma {:induction false} TableNoEmailClaim(h: string, p: string, g: string, decode: string -> Option<Claims>)
    requires IsSegment(h) && IsSegment(p) && IsSegment(g)
    requires decode(p) == Some(map["sub" := Str("user123"), "name" := Str("Test User")])
    ensures ExtractEmailFromJWT(h + "." + p + "." + g, decode) == []
  {
    WellFormedToken(h, p, g, decode);
    NonEmailSubIgnored(decode(p).value, "user123");
  }
}
