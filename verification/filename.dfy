/**
 * TokenFileName: the name of the file a Kiro token is cached under,
 * "kiro-<method>[-<identity>].json".
 *
 * The identity comes, in order of priority, from the account email
 * (sanitized, then '.' and '@' turned into '-' for legibility), from the
 * IAM Identity Center start URL when the method is "idc", or from nowhere,
 * in which case the name carries no suffix. An empty method short-circuits
 * to "kiro-unknown.json".
 */
module TokenFileName {

  import opened Wrappers
  import opened FilenameSanitizer
  import opened IdentifierExtractor

  /** The fields of a Kiro token record that its file name is built from. */
  datatype TokenData = TokenData(authMethod: string, email: string, startURL: string)

  const Prefix: string := "kiro-"
  const Extension: string := ".json"
  const UnknownFileName: string := "kiro-unknown.json"
  const IdcMethod: string := "idc"

  /** The legibility substitution on one character: '.' and '@' become '-'. */
  function Dash(c: char): char {
    if c == '.' || c == '@' then '-' else c
  }

  /** Dash applied to every character, in place. */
  function DashMap(s: string): (r: string)
    ensures |r| == |s|
    ensures '.' !in r && '@' !in r
  {
    seq(|s|, i requires 0 <= i < |s| => Dash(s[i]))
  }

  /** DashMap works character by character, so it distributes over concatenation. */
  lemma {:induction false} DashMapAppend(x: string, y: string)
    ensures DashMap(x + y) == DashMap(x) + DashMap(y)
  {
    assert forall i :: 0 <= i < |y| ==> (x + y)[|x| + i] == y[i];
  }

  /** DashMap leaves a string alone exactly when it holds no '.' and no '@'. */
  lemma {:induction false} DashMapFixedPoints(w: string)
    ensures DashMap(w) == w <==> '.' !in w && '@' !in w
  {
    if '.' !in w && '@' !in w {
      assert forall i :: 0 <= i < |w| ==> DashMap(w)[i] == w[i];
    }
  }

  /** A word, then '.' or '@', then the rest: the separator becomes '-'. */
  lemma {:induction false} DashedWord(a: string, c: char, b: string)
    requires '.' !in a && '@' !in a && (c == '.' || c == '@')
    ensures DashMap(a + [c] + b) == a + "-" + DashMap(b)
  {
    DashMapAppend(a + [c], b);
    DashMapAppend(a, [c]);
    DashMapFixedPoints(a);
    assert DashMap([c]) == "-";
  }

  /** The identity suffix of a token's file name, or [] for none. */
  function Identity(t: TokenData): (id: string)
    ensures '.' !in id && '@' !in id
  {
    if t.email != [] then DashMap(SanitizeEmailForFilename(t.email))
    else if t.authMethod == IdcMethod && t.startURL != [] then DashMap(ExtractIDCIdentifier(t.startURL))
    else []
  }

  /** The file name of method m with identity id. */
  function NameFor(m: string, id: string): (r: string)
    ensures Prefix + m <= r
    ensures |r| >= |Prefix| + |m| + |Extension| && r[|r| - |Extension|..] == Extension
  {
    var r := Prefix + m + (if id == [] then [] else "-" + id) + Extension;
    assert r == (Prefix + m + (if id == [] then [] else "-" + id)) + Extension;
    r
  }

  function GenerateTokenFileName(t: TokenData): (r: string)
    ensures Prefix <= r
    ensures |r| >= |Prefix| + |Extension| && r[|r| - |Extension|..] == Extension
  {
    if t.authMethod == [] then UnknownFileName else NameFor(t.authMethod, Identity(t))
  }

  /**
   * Reads the identity back out of a file name, given the method. None when
   * the name does not have the shape "kiro-<m>[-<id>].json".
   */
  function IdentityFromName(m: string, name: string): (id: Option<string>)
    ensures id.Some? ==> NameFor(m, id.value) == name
  {
    if |name| < |Prefix| + |m| + |Extension| then None
    else
      var mid := name[|Prefix| + |m|..|name| - |Extension|];
      if name != Prefix + m + mid + Extension then None
      else if mid == [] then Some([])
      else if mid[0] == '-' && |mid| > 1 then
        assert mid == "-" + mid[1..];
        Some(mid[1..])
      else None
  }

  /** The identity can be read back from the file name: the name loses nothing. */
  lemma {:induction false} IdentityRoundTrip(m: string, id: string)
    ensures IdentityFromName(m, NameFor(m, id)) == Some(id)
  {
    var name := NameFor(m, id);
    var mid := if id == [] then [] else "-" + id;
    assert name == Prefix + m + mid + Extension;
    assert name[|Prefix| + |m|..|name| - |Extension|] == mid;
  }

  /**
   * Two tokens of the same method with different identities never share a
   * file name.
   */
  lemma {:induction false} DistinctIdentitiesDistinctNames(t1: TokenData, t2: TokenData)
    requires t1.authMethod == t2.authMethod && t1.authMethod != []
    requires Identity(t1) != Identity(t2)
    ensures GenerateTokenFileName(t1) != GenerateTokenFileName(t2)
  {
    IdentityRoundTrip(t1.authMethod, Identity(t1));
    IdentityRoundTrip(t2.authMethod, Identity(t2));
  }

  /** The email decides the name: the start URL is then irrelevant. */
  lemma {:induction false} EmailTakesPriority(t: TokenData, url: string)
    requires t.email != []
    ensures GenerateTokenFileName(t) == GenerateTokenFileName(t.(startURL := url))
  {
  }

  /** A clean email keeps every character except '.' and '@', which become '-'. */
  lemma {:induction false} CleanEmailName(t: TokenData)
    requires t.authMethod != [] && t.email != [] && IsClean(t.email)
    ensures GenerateTokenFileName(t) == Prefix + t.authMethod + "-" + DashMap(t.email) + Extension
  {
    CleanKept(t.email);
  }

  /**
   * Without an email, an "idc" token whose start URL yields an identifier is
   * named after it.
   */
  lemma {:induction false} IdcNamedAfterIdentifier(t: TokenData)
    requires t.authMethod == IdcMethod && t.email == []
    requires ExtractIDCIdentifier(t.startURL) != []
    ensures GenerateTokenFileName(t) == Prefix + IdcMethod + "-" + ExtractIDCIdentifier(t.startURL) + Extension
  {
    var l := ExtractIDCIdentifier(t.startURL);
    assert t.startURL != [];
    assert Identity(t) == DashMap(l);
    LabelUndashed(l);
  }

  /** A start-URL label holds no '.' and no '@', so the legibility substitution keeps it. */
  lemma {:induction false} LabelUndashed(l: string)
    requires IsLabel(l)
    ensures DashMap(l) == l
  {
    assert forall i :: 0 <= i < |l| ==> IsLabelChar(l[i]);
    DashMapFixedPoints(l);
  }

  /**
   * Without an email, an "idc" token whose start URL has the recognised
   * shape is named after the URL's label.
   */
  lemma {:induction false} IdcNamedAfterLabel(t: TokenData, scheme: string, name: string, rest: string)
    requires t.authMethod == IdcMethod && t.email == []
    requires scheme == Https || scheme == Http
    requires IsLabel(name)
    requires t.startURL == scheme + name + AwsAppsDomain + rest
    ensures GenerateTokenFileName(t) == Prefix + IdcMethod + "-" + name + Extension
  {
    LabelRoundTrip(scheme, name, rest);
    IdcNamedAfterIdentifier(t);
  }

  /**
   * Without an email, an "idc" token whose start URL yields no label, and a
   * token of any other non-empty method, get no suffix at all.
   */
  lemma {:induction false} NoEmailNoLabelNoSuffix(t: TokenData)
    requires t.authMethod != [] && t.email == []
    requires t.authMethod != IdcMethod || ExtractIDCIdentifier(t.startURL) == []
    ensures GenerateTokenFileName(t) == Prefix + t.authMethod + Extension
  {
    assert Identity(t) == [];
  }

  /**
   * A file name that cannot leave its directory: no separator, NUL, space,
   * ':' or '%', and its only '.' is the one that starts the extension.
   */
  ghost predicate Confined(r: string) {
    forall i :: 0 <= i < |r| ==>
      && !IsUnsafe(r[i]) && r[i] != '%'
      && (r[i] == '.' ==> i == |r| - |Extension|)
  }

  /** A method name that contributes no separator, NUL, '%' or '.' of its own. */
  ghost predicate PlainMethod(m: string) {
    forall i :: 0 <= i < |m| ==> !IsUnsafe(m[i]) && m[i] != '%' && m[i] != '.'
  }

  /**
   * Path confinement: for a plain method, the file name holds neither '/'
   * nor '\' nor NUL nor any other character the sanitizer neutralises, and
   * its only '.' is the one of the extension, whichever source the identity
   * comes from; so it names a file in the token directory.
   */
  lemma {:induction false} FileNameStaysInDirectory(t: TokenData)
    requires PlainMethod(t.authMethod)
    ensures Confined(GenerateTokenFileName(t))
  {
    if t.authMethod == [] {
      NameForConfined("unknown", []);
      assert NameFor("unknown", []) == UnknownFileName;
    } else {
      IdentityIsSafe(t);
      NameForConfined(t.authMethod, Identity(t));
    }
  }

  /**
   * The identity never holds a separator, NUL, space, ':' or '%', whichever
   * source it comes from: what the sanitizer guarantees of an email, and what
   * a start-URL label excludes, survive the legibility substitution.
   */
  lemma {:induction false} IdentityIsSafe(t: TokenData)
    ensures forall i :: 0 <= i < |Identity(t)| ==> !IsUnsafe(Identity(t)[i]) && Identity(t)[i] != '%'
  {
    var id := Identity(t);
    if t.email != [] {
      SanitizedIsSafe(t.email);
      var s := SanitizeEmailForFilename(t.email);
      assert forall i :: 0 <= i < |id| ==> id[i] == Dash(s[i]) && !IsUnsafe(s[i]) && s[i] != '%';
    } else if t.authMethod == IdcMethod && t.startURL != [] {
      var l := ExtractIDCIdentifier(t.startURL);
      assert forall i :: 0 <= i < |id| ==> id[i] == Dash(l[i]) && IsLabelChar(l[i]);
    }
  }

  /** NameFor puts nothing unsafe, no '%' and no '.' of its own before the extension. */
  lemma {:induction false} NameForConfined(m: string, id: string)
    requires PlainMethod(m)
    requires forall i :: 0 <= i < |id| ==> !IsUnsafe(id[i]) && id[i] != '%' && id[i] != '.'
    ensures Confined(NameFor(m, id))
  {
    var r := NameFor(m, id);
    var mid: string := if id == [] then [] else "-" + id;
    var body := Prefix + m + mid;
    assert r == body + Extension;
    assert forall i :: 0 <= i < |body| ==> !IsUnsafe(body[i]) && body[i] != '%' && body[i] != '.' by {
      forall i | 0 <= i < |body| ensures !IsUnsafe(body[i]) && body[i] != '%' && body[i] != '.' {
        if i < |Prefix| {
          assert body[i] == Prefix[i];
        } else if i < |Prefix| + |m| {
          assert body[i] == m[i - |Prefix|];
        } else if i == |Prefix| + |m| {
          assert body[i] == '-';
        } else {
          assert body[i] == id[i - |Prefix| - |m| - 1];
        }
      }
    }
    forall i | 0 <= i < |r|
      ensures !IsUnsafe(r[i]) && r[i] != '%' && (r[i] == '.' ==> i == |r| - |Extension|)
    {
      if i < |body| {
        assert r[i] == body[i];
      } else {
        assert r[i] == Extension[i - |body|];
      }
    }
  }

  /* Shapes of the tabled emails, for any words. */

  /**
   * A non-empty word of an email that neither the sanitizer nor the
   * legibility substitution touches.
   */
  predicate Word(w: string) {
    w != [] && forall i :: 0 <= i < |w| ==> !IsUnsafe(w[i]) && w[i] != '%' && w[i] != '.' && w[i] != '@'
  }

  /** A word, then '.' or '@', then a clean rest that does not start with '.', is clean. */
  lemma {:induction false} CleanJoin(a: string, c: char, b: string)
    requires Word(a) && (c == '.' || c == '@')
    requires IsClean(b) && b != [] && b[0] != '.'
    ensures IsClean(a + [c] + b) && (a + [c] + b)[0] != '.'
  {
    var s := a + [c] + b;
    forall i | 0 <= i < |s| ensures !IsUnsafe(s[i]) && s[i] != '%' && (s[i] == '.' ==> i == |a| || i > |a|) {
      if i < |a| {
        assert s[i] == a[i];
      } else if i > |a| {
        assert s[i] == b[i - |a| - 1];
      }
    }
    forall i | 0 <= i < |s| - 1 ensures !(s[i] == '.' && s[i + 1] == '.') {
      if i < |a| {
        assert s[i] == a[i];
      } else if i == |a| {
        assert s[i + 1] == b[0];
      } else {
        assert s[i] == b[i - |a| - 1] && s[i + 1] == b[i - |a|];
      }
    }
  }

  /** Three words joined by '.' or '@': clean, and joined by '-' once dashed. */
  lemma {:induction false} ThreeWords(a: string, c1: char, b: string, c2: char, d: string)
    requires Word(a) && Word(b) && Word(d)
    requires (c1 == '.' || c1 == '@') && (c2 == '.' || c2 == '@')
    ensures IsClean(a + [c1] + (b + [c2] + d)) && (a + [c1] + (b + [c2] + d))[0] != '.'
    ensures DashMap(a + [c1] + (b + [c2] + d)) == a + "-" + (b + "-" + d)
  {
    assert IsClean(d);
    CleanJoin(b, c2, d);
    CleanJoin(a, c1, b + [c2] + d);
    DashedWord(a, c1, b + [c2] + d);
    DashedWord(b, c2, d);
    DashMapFixedPoints(d);
  }

  /** Five words joined by '.' or '@': clean, and joined by '-' once dashed. */
  lemma {:induction false} FiveWords(a: string, c1: char, b: string, c2: char, d: string,
                                     c3: char, e: string, c4: char, f: string)
    requires Word(a) && Word(b) && Word(d) && Word(e) && Word(f)
    requires (c1 == '.' || c1 == '@') && (c2 == '.' || c2 == '@')
    requires (c3 == '.' || c3 == '@') && (c4 == '.' || c4 == '@')
    ensures IsClean(a + [c1] + (b + [c2] + (d + [c3] + (e + [c4] + f))))
    ensures DashMap(a + [c1] + (b + [c2] + (d + [c3] + (e + [c4] + f))))
         == a + "-" + (b + "-" + (d + "-" + (e + "-" + f)))
  {
    var tail := d + [c3] + (e + [c4] + f);
    ThreeWords(d, c3, e, c4, f);
    CleanJoin(b, c2, tail);
    CleanJoin(a, c1, b + [c2] + tail);
    DashedWord(a, c1, b + [c2] + tail);
    DashedWord(b, c2, tail);
  }

  /* The file-name table, row by row. The literal pieces of each row are
     spelt out in small lemmas of their own; the row then follows from the
     general lemmas above. The piece lemmas state nothing about the model:
     they only keep each proof obligation about literal strings small. */

  /** The fixed start of the file name for each tabled method. */
  lemma {:induction false} MethodPrefixes()
    ensures Prefix + IdcMethod + "-" == "kiro-idc-"
    ensures Prefix + "builder-id" + "-" == "kiro-builder-id-"
    ensures Prefix + "google" + "-" == "kiro-google-"
  {
  }

  /** The words of the email "user@example.com". */
  lemma {:induction false} ExampleEmailWords()
    ensures "user@example.com" == "user" + ['@'] + ("example" + ['.'] + "com")
    ensures Word("user") && Word("example") && Word("com")
    ensures "user-example-com" == "user" + "-" + ("example" + "-" + "com")
  {
  }

  /** The words of the email "user@gmail.com". */
  lemma {:induction false} GmailEmailWords()
    ensures "user@gmail.com" == "user" + ['@'] + ("gmail" + ['.'] + "com")
    ensures Word("user") && Word("gmail") && Word("com")
    ensures "user-gmail-com" == "user" + "-" + ("gmail" + "-" + "com")
  {
  }

  /** The words of the email "user.name+tag@sub.example.com". */
  lemma {:induction false} TaggedEmailWords()
    ensures "user.name+tag@sub.example.com" == "user" + ['.'] + ("name+tag" + ['@'] + ("sub" + ['.'] + ("example" + ['.'] + "com")))
  {
  }

  /** Each word of the email "user.name+tag@sub.example.com" is a word. */
  lemma {:induction false} TaggedEmailWordsAreWords()
    ensures Word("user") && Word("name+tag") && Word("sub") && Word("example") && Word("com")
  {
  }

  /** The dashed form of the email "user.name+tag@sub.example.com", word by word. */
  lemma {:induction false} TaggedEmailDashed()
    ensures "user-name+tag-sub-example-com" == "user" + "-" + ("name+tag" + "-" + ("sub" + "-" + ("example" + "-" + "com")))
  {
  }

  lemma {:induction false} TableIdcWithEmailName()
    ensures "kiro-idc-user-example-com.json" == "kiro-idc-" + "user-example-com" + ".json"
  {
  }

  lemma {:induction false} TableIdcWithEmail()
    ensures GenerateTokenFileName(TokenData("idc", "user@example.com", "https://d-1234567890.awsapps.com/start"))
         == "kiro-idc-user-example-com.json"
  {
    ExampleEmailWords();
    TableIdcWithEmailName();
    MethodPrefixes();
    ThreeWords("user", '@', "example", '.', "com");
    CleanEmailName(TokenData("idc", "user@example.com", "https://d-1234567890.awsapps.com/start"));
  }

  lemma {:induction false} TableIdcStartURLName()
    ensures "kiro-idc-d-1234567890.json" == "kiro-idc-" + "d-1234567890" + ".json"
  {
  }

  lemma {:induction false} TableIdcStartURL()
    ensures GenerateTokenFileName(TokenData("idc", "", "https://d-1234567890.awsapps.com/start")) == "kiro-idc-d-1234567890.json"
  {
    TableIdcStartURLName();
    MethodPrefixes();
    TableStandardURL();
    IdcNamedAfterIdentifier(TokenData("idc", "", "https://d-1234567890.awsapps.com/start"));
  }

  lemma {:induction false} TableIdcCompanyStartURLName()
    ensures "kiro-idc-my-company.json" == "kiro-idc-" + "my-company" + ".json"
  {
  }

  lemma {:induction false} TableIdcCompanyStartURL()
    ensures GenerateTokenFileName(TokenData("idc", "", "https://my-company.awsapps.com/start")) == "kiro-idc-my-company.json"
  {
    TableIdcCompanyStartURLName();
    MethodPrefixes();
    TableCompanyURL();
    IdcNamedAfterIdentifier(TokenData("idc", "", "https://my-company.awsapps.com/start"));
  }

  lemma {:induction false} TableIdcNothing()
    ensures GenerateTokenFileName(TokenData("idc", "", "")) == "kiro-idc.json"
  {
    NoEmailNoLabelNoSuffix(TokenData("idc", "", ""));
  }

  lemma {:induction false} TableBuilderIdWithEmailName()
    ensures "kiro-builder-id-user-gmail-com.json" == "kiro-builder-id-" + "user-gmail-com" + ".json"
  {
  }

  lemma {:induction false} TableBuilderIdWithEmail()
    ensures GenerateTokenFileName(TokenData("builder-id", "user@gmail.com", "https://view.awsapps.com/start"))
         == "kiro-builder-id-user-gmail-com.json"
  {
    GmailEmailWords();
    TableBuilderIdWithEmailName();
    MethodPrefixes();
    ThreeWords("user", '@', "gmail", '.', "com");
    CleanEmailName(TokenData("builder-id", "user@gmail.com", "https://view.awsapps.com/start"));
  }

  lemma {:induction false} TableBuilderIdWithoutEmail()
    ensures GenerateTokenFileName(TokenData("builder-id", "", "https://view.awsapps.com/start"))
         == "kiro-builder-id.json"
  {
    NoEmailNoLabelNoSuffix(TokenData("builder-id", "", "https://view.awsapps.com/start"));
  }

  lemma {:induction false} TableSocialWithEmailName()
    ensures "kiro-google-user-gmail-com.json" == "kiro-google-" + "user-gmail-com" + ".json"
  {
  }

  lemma {:induction false} TableSocialWithEmail()
    ensures GenerateTokenFileName(TokenData("google", "user@gmail.com", ""))
         == "kiro-google-user-gmail-com.json"
  {
    GmailEmailWords();
    TableSocialWithEmailName();
    MethodPrefixes();
    ThreeWords("user", '@', "gmail", '.', "com");
    CleanEmailName(TokenData("google", "user@gmail.com", ""));
  }

  lemma {:induction false} TableEmptyMethod()
    ensures GenerateTokenFileName(TokenData("", "", "")) == "kiro-unknown.json"
  {
  }

  lemma {:induction false} TableSpecialCharactersName()
    ensures "kiro-idc-user-name+tag-sub-example-com.json" == "kiro-idc-" + "user-name+tag-sub-example-com" + ".json"
  {
  }

  lemma {:induction false} TableSpecialCharacters()
    ensures GenerateTokenFileName(TokenData("idc", "user.name+tag@sub.example.com", "https://d-1234567890.awsapps.com/start"))
         == "kiro-idc-user-name+tag-sub-example-com.json"
  {
    TaggedEmailWords();
    TaggedEmailWordsAreWords();
    TaggedEmailDashed();
    TableSpecialCharactersName();
    MethodPrefixes();
    FiveWords("user", '.', "name+tag", '@', "sub", '.', "example", '.', "com");
    CleanEmailName(TokenData("idc", "user.name+tag@sub.example.com", "https://d-1234567890.awsapps.com/start"));
  }
}
