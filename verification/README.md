# Kiro token-identity helpers, modelled in Dafny

This project models four helpers of the Go package `kiro`. Together they
decide which file a Kiro access token is cached under:

- `ExtractEmailFromJWT` reads the signed-in user's identity out of a compact
  token `<header>.<payload>.<signature>`.
- `SanitizeEmailForFilename` turns an untrusted, email-like string into a
  segment that is safe to put in a file name.
- `ExtractIDCIdentifier` reads the tenant label out of an IAM Identity Center
  start URL `http(s)://<label>.awsapps.com/...`.
- `GenerateTokenFileName` builds `kiro-<method>[-<identity>].json` from a
  token record.

The behaviour of the four is fixed by the tables of
`internal/auth/kiro/aws_test.go`. The model reproduces every row of those
tables as a lemma. Most rows also follow from a general property, which is
proved for all inputs; a few follow from the definitions directly.

Modules, one file each:

| file | module | models |
|---|---|---|
| `wrappers.dfy` | `Wrappers` | the `Option` type used by the partial steps |
| `sanitize.dfy` | `FilenameSanitizer` | `SanitizeEmailForFilename` as a left-to-right scan |
| `jwt.dfy` | `ClaimExtractor` | the three-part split and the claim-priority table |
| `idc.dfy` | `IdentifierExtractor` | the start-URL pattern |
| `filename.dfy` | `TokenFileName` | the token record and the file-name composition |

All four helpers are pure, total string functions. Each one is modelled as a
Dafny `function`, and lemmas state its properties.

## How the sanitizer works

The sanitizer makes one scan. At each position it tries these rules in order:

1. A recognised percent-triplet (`%2F %2f %5C %5c %2E %2e %00`) becomes one
   `_`. It is not decoded first.
2. Any other `%` becomes `_`, and the characters after it are kept.
3. A `..` pair becomes `_.`.
4. A space, `:`, `/`, `\` or NUL becomes `_`.
5. Anything else is kept.

Encoded characters are never decoded: `%2E%2E%2F` gives `___`, not `_._`
(aws_test.go:119-122), and `%25` gives `_25` (aws_test.go:129-132).

## How the claims are chosen

The decoded claim set is read through an ordered table: `email`, then
`preferred_username`, then `sub`. `sub` counts only when it holds an `@`.
Only non-empty string values count.

Only `email`, `preferred_username` and `sub` are consulted. A plain `sub`
with a `name` claim yields `""` (aws_test.go:46-48).

## Model

| member | source | states |
|---|---|---|
| `FilenameSanitizer.Step` | internal/auth/kiro/aws_test.go:78-138 | one step of the scan consumes at least one character, emits at most as many as it consumes, and emits the head unchanged, `_` or `_.`; it emits a leading `.` only by keeping a head `.` |
| `FilenameSanitizer.SanitizeEmailForFilename` | internal/auth/kiro/aws_test.go:62-143 | the output is never longer than the input, and it is empty exactly when the input is |
| `FilenameSanitizer.SanitizedIsSafe` | internal/auth/kiro/aws_test.go:78-137 | for every input, the output holds no space, `:`, `/`, `\`, NUL or `%` |
| `FilenameSanitizer.SanitizeInPlace` | internal/auth/kiro/aws_test.go:78-107 | for input without `%`: same length and order, unsafe characters become `_` one for one, other non-dot characters are kept, and a dot changes only as the first dot of a `..` pair |
| `FilenameSanitizer.FixedPointIffClean` | internal/auth/kiro/aws_test.go:68-77 | the output equals the input exactly when the input has no unsafe character, no `%` and no `..` |
| `FilenameSanitizer.SanitizedHasNoDotPair` | internal/auth/kiro/aws_test.go:93-102 | for input without a run of three dots, no `..` survives |
| `FilenameSanitizer.SanitizedIsClean` | internal/auth/kiro/aws_test.go:78-137 | for input without a run of three dots, the output is clean |
| `FilenameSanitizer.SanitizeIdempotent` | internal/auth/kiro/aws_test.go:78-137 | for input without a run of three dots, sanitizing twice equals sanitizing once |
| `FilenameSanitizer.SanitizeSplitsAtBarrier` | internal/auth/kiro/aws_test.go:78-137 | a `%` or an unsafe character is a barrier: the text before it and the text from it onwards are sanitized independently |
| `FilenameSanitizer.SplitAtUnsafe` | internal/auth/kiro/aws_test.go:78-107 | an unsafe character anywhere becomes exactly one `_`, and both sides are sanitized on their own |
| `FilenameSanitizer.SplitAtEncoded` | internal/auth/kiro/aws_test.go:108-128 | a recognised triplet anywhere becomes exactly one `_` |
| `FilenameSanitizer.EncodedSeparatorAsLiteral` | internal/auth/kiro/aws_test.go:109-127 | `%2F`/`%5C`/`%00`, in either case, give the same output as the literal `/`, `\` or NUL they encode |
| `FilenameSanitizer.LonePercentHead` | internal/auth/kiro/aws_test.go:129-133 | a `%` that does not start a recognised triplet becomes `_`, and the characters after it are scanned as if it were absent |
| `FilenameSanitizer.SplitAtLonePercent` | internal/auth/kiro/aws_test.go:129-133 | anywhere in the input, such a `%` becomes exactly one `_`, and both sides are sanitized on their own |
| `FilenameSanitizer.KeptHead` | internal/auth/kiro/aws_test.go:68-77 | a character no rule touches is kept as it is, and the scan moves on by one; this covers a `.` that does not start a `..` pair |
| `FilenameSanitizer.NoDoubleDecoding` | internal/auth/kiro/aws_test.go:129-133 | `%25` becomes `_25` and is not decoded again; it follows from the lone-`%` rule |
| `FilenameSanitizer.DotPairHead` | internal/auth/kiro/aws_test.go:93-102 | a `..` pair at the head becomes `_.`, and the scan resumes after the pair |
| `FilenameSanitizer.HexCaseIrrelevant` | internal/auth/kiro/aws_test.go:134-138 | lower- and upper-case hex digits of a triplet give the same output |
| `FilenameSanitizer.ClimbNeutralised` | internal/auth/kiro/aws_test.go:93-102 | a path that climbs k directories by `../` or `..\` becomes k copies of `_._`, followed by the sanitized rest |
| `FilenameSanitizer.CleanPrefix` | internal/auth/kiro/aws_test.go:73-92 | a clean prefix passes through unchanged, up to a barrier |
| `FilenameSanitizer.TableEmptyAndPlain` | internal/auth/kiro/aws_test.go:68-77 | `""` gives `""`, and `user@example.com` gives itself |
| `FilenameSanitizer.TableSpace` | internal/auth/kiro/aws_test.go:78-82 | `user name@example.com` gives `user_name@example.com` |
| `FilenameSanitizer.TableColon` | internal/auth/kiro/aws_test.go:83-87 | `user:name@example.com` gives `user_name@example.com` |
| `FilenameSanitizer.TableSlashAndColon` | internal/auth/kiro/aws_test.go:88-92 | `user/name:test@example.com` gives `user_name_test@example.com` |
| `FilenameSanitizer.TableTraversal` | internal/auth/kiro/aws_test.go:93-97 | `../../../etc/passwd` gives `_.__.__._etc_passwd` |
| `FilenameSanitizer.TableBackslashTraversal` | internal/auth/kiro/aws_test.go:98-102 | `..\..\..\..\windows\system32` gives `_.__.__.__._windows_system32` |
| `FilenameSanitizer.TableNul` | internal/auth/kiro/aws_test.go:103-107 | `user` NUL `@evil.com` gives `user_@evil.com` |
| `FilenameSanitizer.TableEncodedSlash` | internal/auth/kiro/aws_test.go:109-113 | `user%2Fpath@example.com` gives `user_path@example.com` |
| `FilenameSanitizer.TableEncodedBackslash` | internal/auth/kiro/aws_test.go:114-118 | `user%5Cpath@example.com` gives `user_path@example.com` |
| `FilenameSanitizer.TableEncodedTraversal` | internal/auth/kiro/aws_test.go:119-123 | `%2E%2E%2Fetc%2Fpasswd` gives `___etc_passwd` |
| `FilenameSanitizer.TableEncodedNul` | internal/auth/kiro/aws_test.go:124-128 | `user%00@evil.com` gives `user_@evil.com` |
| `FilenameSanitizer.TableDoubleEncoded` | internal/auth/kiro/aws_test.go:129-133 | `%252F%252E%252E` gives `_252F_252E_252E` |
| `FilenameSanitizer.TableMixedCase` | internal/auth/kiro/aws_test.go:134-138 | `%2f%2F%5c%5C` gives `____` |
| `ClaimExtractor.Split` | internal/auth/kiro/aws_test.go:151-161 | splitting on `.` always yields at least one part |
| `ClaimExtractor.SplitCount` | internal/auth/kiro/aws_test.go:15-29 | there is exactly one more part than there are dots |
| `ClaimExtractor.SplitPartsHaveNoSeparator` | internal/auth/kiro/aws_test.go:15-29 | no part holds a dot |
| `ClaimExtractor.JoinSplit` | internal/auth/kiro/aws_test.go:151-161 | joining the parts with `.` gives back the token |
| `ClaimExtractor.JoinCount` | internal/auth/kiro/aws_test.go:151-161 | joining k parts that hold no dot with `.` puts exactly k - 1 dots in the token, the shape `createTestJWT` builds |
| `ClaimExtractor.SplitJoin` | internal/auth/kiro/aws_test.go:151-161 | dot-free parts joined with `.` split back into the same parts |
| `ClaimExtractor.Usable` | internal/auth/kiro/aws_test.go:31-49 | a rule yields a value only from a non-empty string claim under its key, and holding `@` where the rule demands it |
| `ClaimExtractor.FirstUsable` | internal/auth/kiro/aws_test.go:31-49 | the result is `""` exactly when no rule yields a value; otherwise it is the value of some rule |
| `ClaimExtractor.SelectIdentity` | internal/auth/kiro/aws_test.go:31-49 | a non-empty identity is the string value of `email`, of `preferred_username`, or of `sub` holding `@`; the order of the table `Rules` fixes which wins |
| `ClaimExtractor.ExtractEmailFromJWT` | internal/auth/kiro/aws_test.go:15-54 | a non-empty result needs exactly three parts and a middle part that decodes |
| `ClaimExtractor.EmailWins` | internal/auth/kiro/aws_test.go:31-34 | a non-empty string `email` is the identity, whatever else the claims hold |
| `ClaimExtractor.PreferredUsernameFallback` | internal/auth/kiro/aws_test.go:36-39 | without a usable `email`, a non-empty `preferred_username` is the identity |
| `ClaimExtractor.EmailLikeSubFallback` | internal/auth/kiro/aws_test.go:41-44 | without `email` and `preferred_username`, a `sub` holding `@` is the identity |
| `ClaimExtractor.NonEmailSubIgnored` | internal/auth/kiro/aws_test.go:46-49 | without `email` and `preferred_username`, a `sub` without `@` yields `""` |
| `ClaimExtractor.OnlyTableKeysMatter` | internal/auth/kiro/aws_test.go:46-49 | claims that agree on `email`, `preferred_username` and `sub` select the same identity, so `name` plays no part |
| `ClaimExtractor.NoIdentityIffNoRuleMatches` | internal/auth/kiro/aws_test.go:31-49 | the identity is `""` exactly when none of the three rules yields a value |
| `ClaimExtractor.ThreeSegments` | internal/auth/kiro/aws_test.go:151-161 | `header.payload.signature` with dot-free segments splits into exactly those three segments |
| `ClaimExtractor.WellFormedToken` | internal/auth/kiro/aws_test.go:151-161 | a token built from three base64url segments yields the identity its decoded payload selects, or `""` when the payload does not decode |
| `ClaimExtractor.WrongPartCountYieldsNothing` | internal/auth/kiro/aws_test.go:21-24 | a token with other than two dots yields `""`, whatever the decoder |
| `ClaimExtractor.EmptyTokenYieldsNothing` | internal/auth/kiro/aws_test.go:16-19 | the empty token yields `""` |
| `ClaimExtractor.UndecodablePayloadYieldsNothing` | internal/auth/kiro/aws_test.go:26-29 | three parts whose middle part does not decode yield `""` |
| `ClaimExtractor.TableFourParts` | internal/auth/kiro/aws_test.go:21-24 | `not.a.valid.jwt` yields `""` |
| `ClaimExtractor.TableUndecodable` | internal/auth/kiro/aws_test.go:26-29 | `xxx.yyy.zzz` yields `""` when `yyy` does not decode |
| `ClaimExtractor.TableEmail` | internal/auth/kiro/aws_test.go:31-34 | a token whose claims are `email` and `sub` yields `test@example.com` |
| `ClaimExtractor.TablePreferredUsername` | internal/auth/kiro/aws_test.go:36-39 | a token whose claims are `preferred_username` and `sub` yields `user@domain.com` |
| `ClaimExtractor.TableEmailLikeSub` | internal/auth/kiro/aws_test.go:41-44 | a token whose only claim is `sub` = `another@test.com` yields it |
| `ClaimExtractor.TableNoEmailClaim` | internal/auth/kiro/aws_test.go:46-49 | a token whose claims are `sub` = `user123` and `name` yields `""` |
| `IdentifierExtractor.AfterScheme` | internal/auth/kiro/aws_test.go:169-193 | a result is what follows `https://` or `http://` |
| `IdentifierExtractor.LabelPrefix` | internal/auth/kiro/aws_test.go:174-203 | the longest prefix of label characters, which excludes `.`, `@`, `%` and everything the sanitizer neutralises |
| `IdentifierExtractor.ExtractIDCIdentifier` | internal/auth/kiro/aws_test.go:169-208 | the result is `""` or a non-empty label: no `.`, `@`, `%`, `/`, `\`, NUL, space or `:` |
| `IdentifierExtractor.LabelRoundTrip` | internal/auth/kiro/aws_test.go:174-203 | for `http(s)://<label>.awsapps.com<rest>`, the result is exactly `<label>` |
| `IdentifierExtractor.ResultHasRecognisedShape` | internal/auth/kiro/aws_test.go:174-203 | a non-empty result comes only from a URL `http(s)://<result>.awsapps.com<rest>` |
| `IdentifierExtractor.EmptyURLYieldsNothing` | internal/auth/kiro/aws_test.go:169-173 | the empty URL yields `""` |
| `IdentifierExtractor.TableStandardURL` | internal/auth/kiro/aws_test.go:174-178 | `https://d-1234567890.awsapps.com/start` gives `d-1234567890` |
| `IdentifierExtractor.TableCompanyURL` | internal/auth/kiro/aws_test.go:179-183 | `https://my-company.awsapps.com/start` gives `my-company` |
| `IdentifierExtractor.TableSimpleNameURL` | internal/auth/kiro/aws_test.go:184-188 | `https://acme-corp.awsapps.com/start` gives `acme-corp` |
| `IdentifierExtractor.TablePlainHttpURL` | internal/auth/kiro/aws_test.go:189-193 | `http://d-9876543210.awsapps.com/start` gives `d-9876543210` |
| `IdentifierExtractor.TableSubdomainOnlyURL` | internal/auth/kiro/aws_test.go:194-198 | `https://test.awsapps.com/start` gives `test` |
| `IdentifierExtractor.TableBuilderIdURL` | internal/auth/kiro/aws_test.go:199-203 | `https://view.awsapps.com/start` gives `view` |
| `TokenFileName.DashMap` | internal/auth/kiro/aws_test.go:292-300 | same length, with no `.` and no `@` left |
| `TokenFileName.DashMapFixedPoints` | internal/auth/kiro/aws_test.go:292-300 | a string is left alone exactly when it holds no `.` and no `@` |
| `TokenFileName.Identity` | internal/auth/kiro/aws_test.go:222-300 | the identity suffix never holds `.` or `@` |
| `TokenFileName.NameFor` | internal/auth/kiro/aws_test.go:222-300 | the name `kiro-<method>[-<identity>].json` starts with `kiro-<method>` and ends with `.json`; `IdentityFromName` is its inverse |
| `TokenFileName.GenerateTokenFileName` | internal/auth/kiro/aws_test.go:222-305 | every name starts with `kiro-` and ends with `.json` |
| `TokenFileName.IdentityFromName` | internal/auth/kiro/aws_test.go:222-300 | when it reads an identity back, composing that identity gives the name it was read from |
| `TokenFileName.IdentityRoundTrip` | internal/auth/kiro/aws_test.go:222-300 | the identity can be read back from the name of any method |
| `TokenFileName.DistinctIdentitiesDistinctNames` | internal/auth/kiro/aws_test.go:222-300 | tokens of the same non-empty method with different identities never share a file |
| `TokenFileName.EmailTakesPriority` | internal/auth/kiro/aws_test.go:223-230 | with an email, the start URL does not affect the name |
| `TokenFileName.CleanEmailName` | internal/auth/kiro/aws_test.go:223-230 | with a non-empty method, a clean email gives `kiro-<method>-<email with . and @ as ->.json` |
| `TokenFileName.IdcNamedAfterIdentifier` | internal/auth/kiro/aws_test.go:232-248 | without an email, an `idc` token whose start URL yields an identifier is named `kiro-idc-<identifier>.json`, the identifier unchanged |
| `TokenFileName.LabelUndashed` | internal/auth/kiro/aws_test.go:232-248 | a start-URL label is left unchanged by the `.`/`@` to `-` step |
| `TokenFileName.IdcNamedAfterLabel` | internal/auth/kiro/aws_test.go:232-248 | without an email, an `idc` token with URL `http(s)://<label>.awsapps.com<rest>` is named `kiro-idc-<label>.json` |
| `TokenFileName.NoEmailNoLabelNoSuffix` | internal/auth/kiro/aws_test.go:250-275 | without an email, a non-empty method that is not `idc`, or `idc` with a URL that yields no label, gives `kiro-<method>.json` |
| `TokenFileName.FileNameStaysInDirectory` | internal/auth/kiro/aws_test.go:222-300 | for a method without `.`, `%` or any character the sanitizer neutralises, the name holds no `/`, `\`, NUL, space, `:` or `%`, and its only `.` starts the extension |
| `TokenFileName.IdentityIsSafe` | internal/auth/kiro/aws_test.go:222-300 | the identity holds no `/`, `\`, NUL, space, `:` or `%`, whether it comes from the email or from the start-URL label |
| `TokenFileName.TableIdcWithEmail` | internal/auth/kiro/aws_test.go:223-230 | `idc` with `user@example.com` gives `kiro-idc-user-example-com.json` |
| `TokenFileName.TableIdcStartURL` | internal/auth/kiro/aws_test.go:232-239 | `idc` with no email and the `d-1234567890` URL gives `kiro-idc-d-1234567890.json` |
| `TokenFileName.TableIdcCompanyStartURL` | internal/auth/kiro/aws_test.go:241-248 | `idc` with no email and the `my-company` URL gives `kiro-idc-my-company.json` |
| `TokenFileName.TableIdcNothing` | internal/auth/kiro/aws_test.go:250-257 | `idc` with no email and no URL gives `kiro-idc.json` |
| `TokenFileName.TableBuilderIdWithEmail` | internal/auth/kiro/aws_test.go:259-266 | `builder-id` with `user@gmail.com` gives `kiro-builder-id-user-gmail-com.json` |
| `TokenFileName.TableBuilderIdWithoutEmail` | internal/auth/kiro/aws_test.go:268-275 | `builder-id` with no email gives `kiro-builder-id.json`, even with a start URL |
| `TokenFileName.TableSocialWithEmail` | internal/auth/kiro/aws_test.go:277-283 | `google` with `user@gmail.com` gives `kiro-google-user-gmail-com.json` |
| `TokenFileName.TableEmptyMethod` | internal/auth/kiro/aws_test.go:285-291 | an empty method and an empty email give `kiro-unknown.json` |
| `TokenFileName.TableSpecialCharacters` | internal/auth/kiro/aws_test.go:292-300 | `user.name+tag@sub.example.com` gives `kiro-idc-user-name+tag-sub-example-com.json`, with `+` kept |

## Left out

- The Go file that implements the four helpers is not part of this model. Their behaviour is taken from the tables in `internal/auth/kiro/aws_test.go`, and where a table is silent the choice is a modelling assumption, listed below.
- Base64url and JSON decoding of the token payload are library calls. They are the function parameter `decode` of `ExtractEmailFromJWT`. The table rows built with `createTestJWT` assume that `decode` returns the claim map the row encodes.
- The HTTP token exchange, writing the token cache and choosing its directory are I/O and are not modelled.
- The Go test plumbing (`t.Run`, the table loops) is not modelled.
- `SanitizeEmailForFilename` replaces no character outside space, `:`, `/`, `\`, NUL, `%`, the hex digits of a recognised triplet and the first dot of a `..` pair. So `*?<>|"` are kept. The tables do not fix these characters, so that part is a modelling assumption.
- `SanitizeIdempotent` and `SanitizedHasNoDotPair` are stated only for input without a run of three dots. For `...` the scan gives `_..`, which still holds a `..`. The tables do not fix what happens to such runs.
- `ExtractIDCIdentifier` accepts only `http://` or `https://`, then a non-empty label, then `.awsapps.com`. The label holds no `.`, `@`, `%`, space, `:`, `/`, `\` or NUL. So a label can never bring a separator into a file name, and the `.`/`@` to `-` step leaves it unchanged. For any other URL it gives `""`. The tables fix only URLs of that shape, so the label's character set and the result for other URLs are modelling assumptions.
- `GenerateTokenFileName` uses the method exactly as given. Any lower-casing of the method is not modelled, because the tables use only lower-case methods. The method is not sanitized either, so a method holding `/`, `\`, NUL or `.` reaches the file name unchanged; this is why `FileNameStaysInDirectory` asks for a plain method (no unsafe character, `%` or `.`).
- `GenerateTokenFileName` gives `kiro-unknown.json` for an empty method even when an email is present. The tables fix only the case where the email is empty too.
- `ExtractEmailFromJWT` does not consult `username` or `name` claims. The tables show that `name` is ignored.
- `SelectIdentity` accepts a `preferred_username` without `@`, and skips empty and non-string claim values, falling through to the next rule. The tables fix neither case (the only `preferred_username` row holds an `@`), so both are modelling assumptions.
- `Identity` sanitizes the email with `SanitizeEmailForFilename` before turning `.` and `@` into `-`. Every tabled email is already clean, so the tables do not show this step, and it is a modelling assumption. `IdentityIsSafe` and the email half of `FileNameStaysInDirectory` rest on it: without it, an email holding `/` would put a `/` in the file name.
