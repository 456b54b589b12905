/**
 * FilenameSanitizer: turns an untrusted email-like string into a segment that
 * is safe to embed in a file name.
 *
 * The sanitizer is one left-to-right scan. At each position it tries, in order:
 *   1. a recognised percent-encoded triplet (%2F %2f %5C %5c %2E %2e %00),
 *      which collapses to a single '_' without being decoded;
 *   2. any other '%', which becomes '_' while the characters after it stay;
 *   3. a ".." pair, which becomes "_.";
 *   4. an unsafe character (space, ':', '/', '\', NUL), which becomes '_';
 *   5. anything else, which is kept.
 */
module FilenameSanitizer {

  /** The characters the sanitizer replaces 1:1 by '_'. */
  predicate IsUnsafe(c: char) {
    c == ' ' || c == ':' || c == '/' || c == '\\' || c == '\0'
  }

  /**
   * The percent-encoded triplets that collapse to one '_': %2F %2f (slash),
   * %5C %5c (backslash), %2E %2e (dot) and %00 (NUL).
   */
  predicate IsEncodedTriplet(p: char, h: char, l: char) {
    && p == '%'
    && (|| (h == '2' && (l == 'F' || l == 'f' || l == 'E' || l == 'e'))
        || (h == '5' && (l == 'C' || l == 'c'))
        || (h == '0' && l == '0'))
  }

  /** True if a recognised triplet starts at the head of s. */
  predicate StartsWithTriplet(s: string) {
    |s| >= 3 && IsEncodedTriplet(s[0], s[1], s[2])
  }

  /** True if a ".." pair starts at the head of s. */
  predicate StartsWithDotPair(s: string) {
    |s| >= 2 && s[0] == '.' && s[1] == '.'
  }

  /** No character of s is unsafe or a percent sign. */
  ghost predicate NoUnsafeOrPercent(s: string) {
    forall i :: 0 <= i < |s| ==> !IsUnsafe(s[i]) && s[i] != '%'
  }

  /** No two adjacent dots in s. */
  ghost predicate NoDotPair(s: string) {
    forall i :: 0 <= i < |s| - 1 ==> !(s[i] == '.' && s[i + 1] == '.')
  }

  /** No three adjacent dots in s. */
  ghost predicate NoDotRun(s: string) {
    forall i :: 0 <= i < |s| - 2 ==> !(s[i] == '.' && s[i + 1] == '.' && s[i + 2] == '.')
  }

  /** A string that the sanitizer has nothing to do to. */
  ghost predicate IsClean(s: string) {
    NoUnsafeOrPercent(s) && NoDotPair(s)
  }

  /**
   * One step of the scan: what the head of s becomes, and how many
   * characters of s that step consumes.
   */
  function Step(s: string): (out: (string, nat))
    requires s != []
    ensures 1 <= |out.0| <= out.1 <= |s|
    ensures out.0[0] == '.' ==> out.0 == [s[0]]
    ensures out.0 == [s[0]] ==> out.1 == 1
    ensures out.0 == [s[0]] || out.0 == "_" || out.0 == "_."
  {
    if StartsWithTriplet(s) then ("_", 3)
    else if s[0] == '%' then ("_", 1)
    else if StartsWithDotPair(s) then ("_.", 2)
    else if IsUnsafe(s[0]) then ("_", 1)
    else ([s[0]], 1)
  }

  function SanitizeEmailForFilename(s: string): (r: string)
    ensures |r| <= |s|
    ensures r == [] <==> s == []
    decreases |s|
  {
    if s == [] then []
    else
      var (head, width) := Step(s);
      head + SanitizeEmailForFilename(s[width..])
  }

  /**
   * The output never holds an unsafe character or a '%', whatever the input:
   * no separator, NUL or encoded sequence survives.
   */
  lemma {:induction false} SanitizedIsSafe(s: string)
    ensures NoUnsafeOrPercent(SanitizeEmailForFilename(s))
    decreases |s|
  {
    if s != [] {
      var (head, width) := Step(s);
      var rt := SanitizeEmailForFilename(s[width..]);
      SanitizedIsSafe(s[width..]);
      var r := head + rt;
      forall i | 0 <= i < |r| ensures !IsUnsafe(r[i]) && r[i] != '%' {
        if i >= |head| {
          assert r[i] == rt[i - |head|];
        }
      }
    }
  }

  /**
   * Where the input holds no '%', every character is substituted in place:
   * same length, same order, unsafe characters become '_', characters other
   * than unsafe ones and '.' are kept, and a '.' is replaced only as the first
   * dot of a ".." pair whose second dot is kept.
   */
  ghost predicate SubstitutedInPlace(s: string, r: string) {
    |r| == |s| && forall i :: 0 <= i < |s| ==> SubstitutedAt(s, r, i)
  }

  /** What happens to the character at position i. */
  ghost predicate SubstitutedAt(s: string, r: string, i: int)
    requires |r| == |s| && 0 <= i < |s|
  {
    && (IsUnsafe(s[i]) ==> r[i] == '_')
    && (!IsUnsafe(s[i]) && s[i] != '.' ==> r[i] == s[i])
    && (s[i] == '.' ==>
          r[i] == '.' || (r[i] == '_' && i + 1 < |s| && s[i + 1] == '.' && r[i + 1] == '.'))
  }

  lemma {:induction false} SanitizeInPlace(s: string)
    requires '%' !in s
    ensures SubstitutedInPlace(s, SanitizeEmailForFilename(s))
    decreases |s|
  {
    var r := SanitizeEmailForFilename(s);
    if s != [] {
      assert s[0] in s;
      var k := if StartsWithDotPair(s) then 2 else 1;
      var t := s[k..];
      assert forall c :: c in t ==> c in s;
      SanitizeInPlace(t);
      var rt := SanitizeEmailForFilename(t);
      assert r == r[..k] + rt;
      forall i | 0 <= i < |s| ensures SubstitutedAt(s, r, i) {
        if i >= k {
          assert SubstitutedAt(t, rt, i - k);
          assert s[i] == t[i - k] && r[i] == rt[i - k];
          if i + 1 < |s| {
            assert s[i + 1] == t[i - k + 1] && r[i + 1] == rt[i - k + 1];
          }
        }
      }
    }
  }

  /** The sanitizer leaves a string unchanged exactly when it is clean. */
  lemma {:induction false} FixedPointIffClean(s: string)
    ensures SanitizeEmailForFilename(s) == s <==> IsClean(s)
    decreases |s|
  {
    if s != [] {
      var r := SanitizeEmailForFilename(s);
      if StartsWithTriplet(s) || s[0] == '%' || StartsWithDotPair(s) || IsUnsafe(s[0]) {
        // The output starts with '_' while the input starts with something else.
        assert r[0] == '_' && s[0] != '_';
        assert !NoUnsafeOrPercent(s) || !NoDotPair(s);
      } else {
        var t := s[1..];
        FixedPointIffClean(t);
        assert s == [s[0]] + t;
        CleanCons(s[0], t);
        assert r == [s[0]] + SanitizeEmailForFilename(t);
      }
    }
  }

  /** A kept character in front of t leaves the cleanliness of t unchanged. */
  lemma {:induction false} CleanCons(c: char, t: string)
    requires !IsUnsafe(c) && c != '%'
    requires c == '.' ==> t == [] || t[0] != '.'
    ensures IsClean([c] + t) <==> IsClean(t)
  {
    var s := [c] + t;
    if IsClean(t) {
      forall i | 0 <= i < |s| ensures !IsUnsafe(s[i]) && s[i] != '%' {
        if i > 0 { assert s[i] == t[i - 1]; }
      }
      forall i | 0 <= i < |s| - 1 ensures !(s[i] == '.' && s[i + 1] == '.') {
        if i > 0 { assert s[i] == t[i - 1] && s[i + 1] == t[i]; }
      }
    }
    if IsClean(s) {
      forall i | 0 <= i < |t| ensures !IsUnsafe(t[i]) && t[i] != '%' {
        assert t[i] == s[i + 1];
      }
      forall i | 0 <= i < |t| - 1 ensures !(t[i] == '.' && t[i + 1] == '.') {
        assert t[i] == s[i + 1] && t[i + 1] == s[i + 2];
      }
    }
  }

  /** The output starts with a dot only when the input does. */
  lemma {:induction false} HeadNotDot(s: string)
    requires s != [] && s[0] != '.'
    ensures SanitizeEmailForFilename(s)[0] != '.'
  {
  }

  /** Without a run of three dots in the input, no ".." survives sanitizing. */
  lemma {:induction false} SanitizedHasNoDotPair(s: string)
    requires NoDotRun(s)
    ensures NoDotPair(SanitizeEmailForFilename(s))
    decreases |s|
  {
    if s != [] {
      var (head, k) := Step(s);
      var t := s[k..];
      assert NoDotRun(t) by {
        forall i | 0 <= i < |t| - 2 ensures !(t[i] == '.' && t[i + 1] == '.' && t[i + 2] == '.') {
          assert t[i] == s[i + k] && t[i + 1] == s[i + k + 1] && t[i + 2] == s[i + k + 2];
        }
      }
      SanitizedHasNoDotPair(t);
      var rt := SanitizeEmailForFilename(t);
      var r := head + rt;
      assert r == SanitizeEmailForFilename(s);
      // The head ends in '.' only for a lone dot or a ".." pair; then t does
      // not start with a dot, so neither does rt.
      if rt != [] && head[|head| - 1] == '.' {
        assert t[0] == s[k];
        HeadNotDot(t);
      }
      forall i | 0 <= i < |r| - 1 ensures !(r[i] == '.' && r[i + 1] == '.') {
        if i >= |head| {
          assert r[i] == rt[i - |head|] && r[i + 1] == rt[i - |head| + 1];
        } else if i + 1 == |head| {
          assert r[i + 1] == rt[0];
        }
      }
    }
  }

  /** Without a run of three dots in the input, the output is clean. */
  lemma {:induction false} SanitizedIsClean(s: string)
    requires NoDotRun(s)
    ensures IsClean(SanitizeEmailForFilename(s))
  {
    SanitizedIsSafe(s);
    SanitizedHasNoDotPair(s);
  }

  /**
   * Sanitizing twice is sanitizing once, for every input without a run of
   * three dots.
   */
  lemma {:induction false} SanitizeIdempotent(s: string)
    requires NoDotRun(s)
    ensures SanitizeEmailForFilename(SanitizeEmailForFilename(s)) == SanitizeEmailForFilename(s)
  {
    SanitizedIsClean(s);
    FixedPointIffClean(SanitizeEmailForFilename(s));
  }

  /**
   * A '%' or an unsafe character is a barrier: the scan never reads across
   * it, so what lies before and what lies after are sanitized independently.
   */
  lemma {:induction false} SanitizeSplitsAtBarrier(a: string, b: string)
    requires b != [] && (b[0] == '%' || IsUnsafe(b[0]))
    ensures SanitizeEmailForFilename(a + b)
         == SanitizeEmailForFilename(a) + SanitizeEmailForFilename(b)
    decreases |a|
  {
    var s := a + b;
    if a == [] {
      assert s == b;
    } else {
      StepIgnoresBarrier(a, b);
      var k := Step(a).1;
      DropAppend(a, b, k);
      SanitizeSplitsAtBarrier(a[k..], b);
      AppendAssoc(Step(a).0, SanitizeEmailForFilename(a[k..]), SanitizeEmailForFilename(b));
    }
  }

  /** Dropping a prefix of a that is no longer than a leaves b untouched. */
  lemma {:induction false} DropAppend(a: string, b: string, k: nat)
    requires k <= |a|
    ensures (a + b)[k..] == a[k..] + b
  {
  }

  /** The first step of the scan over a + b is the one over a. */
  lemma {:induction false} StepIgnoresBarrier(a: string, b: string)
    requires a != [] && b != [] && (b[0] == '%' || IsUnsafe(b[0]))
    ensures Step(a + b) == Step(a)
  {
    var s := a + b;
    assert s[0] == a[0];
    assert |a| >= 2 ==> s[1] == a[1];
    assert |a| >= 3 ==> s[2] == a[2];
    assert |a| == 1 ==> s[1] == b[0];
    assert |a| == 2 ==> s[2] == b[0];
  }

  /** e is the percent-encoding of the separator or NUL character c. */
  predicate EncodesSeparator(e: string, c: char) {
    && |e| == 3 && e[0] == '%'
    && (|| (e[1] == '2' && (e[2] == 'F' || e[2] == 'f') && c == '/')
        || (e[1] == '5' && (e[2] == 'C' || e[2] == 'c') && c == '\\')
        || (e[1] == '0' && e[2] == '0' && c == '\0'))
  }

  /**
   * A percent-encoded separator or NUL is neutralised exactly as the literal
   * character it encodes, wherever it stands in the input.
   */
  lemma {:induction false} EncodedSeparatorAsLiteral(a: string, e: string, c: char, b: string)
    requires EncodesSeparator(e, c)
    ensures SanitizeEmailForFilename(a + e + b) == SanitizeEmailForFilename(a + [c] + b)
  {
    assert IsEncodedTriplet(e[0], e[1], e[2]) && IsUnsafe(c);
    SplitAtEncoded(a, e, b);
    SplitAtUnsafe(a, c, b);
  }

  /** An unsafe character anywhere in the input becomes exactly one '_'. */
  lemma {:induction false} SplitAtUnsafe(a: string, c: char, b: string)
    requires IsUnsafe(c)
    ensures SanitizeEmailForFilename(a + [c] + b)
         == SanitizeEmailForFilename(a) + "_" + SanitizeEmailForFilename(b)
  {
    assert a + [c] + b == a + ([c] + b);
    SanitizeSplitsAtBarrier(a, [c] + b);
    UnsafeHead(c, b);
  }

  /**
   * A '%' that does not start a recognised triplet becomes '_', and the
   * characters after it are scanned as if it had not been there.
   */
  lemma {:induction false} LonePercentHead(t: string)
    requires !StartsWithTriplet("%" + t)
    ensures SanitizeEmailForFilename("%" + t) == "_" + SanitizeEmailForFilename(t)
  {
    assert ("%" + t)[0] == '%' && ("%" + t)[1..] == t;
  }

  /**
   * Anywhere in the input, a '%' that does not start a recognised triplet
   * becomes exactly one '_', and the two sides are sanitized on their own.
   */
  lemma {:induction false} SplitAtLonePercent(a: string, b: string)
    requires !StartsWithTriplet("%" + b)
    ensures SanitizeEmailForFilename(a + "%" + b)
         == SanitizeEmailForFilename(a) + "_" + SanitizeEmailForFilename(b)
  {
    assert a + "%" + b == a + ("%" + b);
    SanitizeSplitsAtBarrier(a, "%" + b);
    LonePercentHead(b);
  }

  /**
   * A character that no rule touches is kept, and the scan moves on by one;
   * this includes a '.' that does not start a ".." pair.
   */
  lemma {:induction false} KeptHead(c: char, t: string)
    requires !IsUnsafe(c) && c != '%'
    requires c != '.' || t == [] || t[0] != '.'
    ensures SanitizeEmailForFilename([c] + t) == [c] + SanitizeEmailForFilename(t)
  {
    assert ([c] + t)[0] == c && ([c] + t)[1..] == t;
  }

  /**
   * An encoded percent sign is not decoded a second time: "%25" is a lone
   * '%' followed by "25", so it becomes "_25" and what follows is sanitized
   * on its own.
   */
  lemma {:induction false} NoDoubleDecoding(t: string)
    ensures SanitizeEmailForFilename("%25" + t) == "_25" + SanitizeEmailForFilename(t)
  {
    var u := ['5'] + t;
    var v := ['2'] + u;
    assert "%25" + t == "%" + v;
    assert "_25" + SanitizeEmailForFilename(t) == "_" + (['2'] + (['5'] + SanitizeEmailForFilename(t)));
    LonePercentHead(v);
    KeptHead('2', u);
    KeptHead('5', t);
  }

  /** Hex case does not matter for a recognised triplet. */
  lemma {:induction false} HexCaseIrrelevant(a: string, b: string)
    ensures SanitizeEmailForFilename(a + "%2f" + b) == SanitizeEmailForFilename(a + "%2F" + b)
    ensures SanitizeEmailForFilename(a + "%5c" + b) == SanitizeEmailForFilename(a + "%5C" + b)
    ensures SanitizeEmailForFilename(a + "%2e" + b) == SanitizeEmailForFilename(a + "%2E" + b)
  {
    SplitAtEncoded(a, "%2f", b);
    SplitAtEncoded(a, "%2F", b);
    SplitAtEncoded(a, "%5c", b);
    SplitAtEncoded(a, "%5C", b);
    SplitAtEncoded(a, "%2e", b);
    SplitAtEncoded(a, "%2E", b);
  }

  /** A recognised triplet anywhere in the input becomes exactly one '_'. */
  lemma {:induction false} SplitAtEncoded(a: string, e: string, b: string)
    requires |e| == 3 && IsEncodedTriplet(e[0], e[1], e[2])
    ensures SanitizeEmailForFilename(a + e + b)
         == SanitizeEmailForFilename(a) + "_" + SanitizeEmailForFilename(b)
  {
    assert a + e + b == a + (e + b);
    SanitizeSplitsAtBarrier(a, e + b);
    assert (e + b)[0] == e[0] && (e + b)[1] == e[1] && (e + b)[2] == e[2];
    assert (e + b)[3..] == b;
  }

  /** A clean prefix passes through, up to a barrier or the end. */
  lemma {:induction false} CleanPrefix(a: string, t: string)
    requires IsClean(a)
    requires t == [] || t[0] == '%' || IsUnsafe(t[0])
    ensures SanitizeEmailForFilename(a + t) == a + SanitizeEmailForFilename(t)
  {
    FixedPointIffClean(a);
    if t == [] {
      assert a + t == a;
    } else {
      SanitizeSplitsAtBarrier(a, t);
    }
  }

  /** An unsafe character becomes one '_'. */
  lemma {:induction false} UnsafeHead(c: char, t: string)
    requires IsUnsafe(c)
    ensures SanitizeEmailForFilename([c] + t) == "_" + SanitizeEmailForFilename(t)
  {
    assert ([c] + t)[0] == c && ([c] + t)[1..] == t;
  }

  /** A ".." pair becomes "_.". */
  lemma {:induction false} DotPairHead(t: string)
    ensures SanitizeEmailForFilename(".." + t) == "_." + SanitizeEmailForFilename(t)
  {
    var s := ".." + t;
    assert s[0] == '.' && s[1] == '.' && s[2..] == t;
  }

  /** A recognised triplet becomes one '_'. */
  lemma {:induction false} TripletHead(e: string, t: string)
    requires |e| == 3 && IsEncodedTriplet(e[0], e[1], e[2])
    ensures SanitizeEmailForFilename(e + t) == "_" + SanitizeEmailForFilename(t)
  {
    var s := e + t;
    assert s[0] == e[0] && s[1] == e[1] && s[2] == e[2] && s[3..] == t;
  }


  /** A clean string is its own sanitized form. */
  lemma {:induction false} CleanKept(a: string)
    requires IsClean(a)
    ensures SanitizeEmailForFilename(a) == a
  {
    FixedPointIffClean(a);
  }

  /** Concatenation is associative. */
  lemma {:induction false} AppendAssoc(x: string, y: string, z: string)
    ensures (x + y) + z == x + (y + z)
  {
  }

  /* Relative paths that climb out of the token directory. */

  /**
   * t preceded by k segments "..<sep>", as a relative path that climbs k
   * directories before naming t spells it.
   */
  function Climb(sep: char, k: nat, t: string): (r: string)
    ensures |r| == 3 * k + |t|
  {
    if k == 0 then t else ['.', '.', sep] + Climb(sep, k - 1, t)
  }

  /** What k climbing segments become: "_._" each. */
  function Neutralised(k: nat): (r: string)
    ensures |r| == 3 * k
  {
    if k == 0 then [] else "_._" + Neutralised(k - 1)
  }

  /** One climbing segment becomes "_._". */
  lemma {:induction false} ClimbHead(sep: char, t: string)
    requires IsUnsafe(sep)
    ensures SanitizeEmailForFilename(['.', '.', sep] + t) == "_._" + SanitizeEmailForFilename(t)
  {
    assert ['.', '.', sep] + t == ".." + ([sep] + t);
    DotPairHead([sep] + t);
    UnsafeHead(sep, t);
  }

  /**
   * However many directories a path climbs, every climbing segment is
   * neutralised: no ".." followed by a separator survives.
   */
  lemma {:induction false} ClimbNeutralised(sep: char, k: nat, t: string)
    requires IsUnsafe(sep)
    ensures SanitizeEmailForFilename(Climb(sep, k, t)) == Neutralised(k) + SanitizeEmailForFilename(t)
  {
    if k > 0 {
      ClimbNeutralised(sep, k - 1, t);
      ClimbHead(sep, Climb(sep, k - 1, t));
      AppendAssoc("_._", Neutralised(k - 1), SanitizeEmailForFilename(t));
    }
  }

  /* Shapes of the tabled inputs, stated for any clean words. */

  /** Two clean words around one unsafe character. */
  lemma {:induction false} WordAroundSeparator(a: string, c: char, b: string)
    requires IsClean(a) && IsClean(b) && IsUnsafe(c)
    ensures SanitizeEmailForFilename(a + [c] + b) == a + "_" + b
  {
    SplitAtUnsafe(a, c, b);
    CleanKept(a); CleanKept(b);
  }

  /** Three clean words separated by two unsafe characters. */
  lemma {:induction false} TwoSeparators(a: string, c: char, b: string, d: char, e: string)
    requires IsClean(a) && IsClean(b) && IsClean(e) && IsUnsafe(c) && IsUnsafe(d)
    ensures SanitizeEmailForFilename(a + [c] + (b + [d] + e)) == a + "_" + (b + "_" + e)
  {
    SplitAtUnsafe(a, c, b + [d] + e);
    CleanKept(a);
    WordAroundSeparator(b, d, e);
  }

  /** Two clean words around one recognised triplet. */
  lemma {:induction false} WordAroundTriplet(a: string, e: string, b: string)
    requires IsClean(a) && IsClean(b) && |e| == 3 && IsEncodedTriplet(e[0], e[1], e[2])
    ensures SanitizeEmailForFilename(a + e + b) == a + "_" + b
  {
    SplitAtEncoded(a, e, b);
    CleanKept(a); CleanKept(b);
  }

  /** k climbing segments, then two clean names around the separator. */
  lemma {:induction false} ClimbThenPath(sep: char, k: nat, a: string, b: string)
    requires IsUnsafe(sep) && IsClean(a) && IsClean(b)
    ensures SanitizeEmailForFilename(Climb(sep, k, a + [sep] + b)) == Neutralised(k) + (a + "_" + b)
  {
    ClimbNeutralised(sep, k, a + [sep] + b);
    WordAroundSeparator(a, sep, b);
  }

  /** ClimbThenPath for three segments, spelt out. */
  lemma {:induction false} ThreeClimbsThenPath(sep: char, a: string, b: string)
    requires IsUnsafe(sep) && IsClean(a) && IsClean(b)
    ensures var d := ['.', '.', sep];
      SanitizeEmailForFilename(d + (d + (d + (a + [sep] + b)))) == "_._" + ("_._" + ("_._" + (a + "_" + b)))
  {
    var t := a + [sep] + b;
    ClimbThenPath(sep, 3, a, b);
    assert Climb(sep, 3, t) == ['.', '.', sep] + Climb(sep, 2, t);
    assert Climb(sep, 2, t) == ['.', '.', sep] + Climb(sep, 1, t);
    assert Neutralised(3) == "_._" + ("_._" + ("_._" + []));
  }

  /** ClimbThenPath for four segments, spelt out. */
  lemma {:induction false} FourClimbsThenPath(sep: char, a: string, b: string)
    requires IsUnsafe(sep) && IsClean(a) && IsClean(b)
    ensures var d := ['.', '.', sep];
      SanitizeEmailForFilename(d + (d + (d + (d + (a + [sep] + b)))))
        == "_._" + ("_._" + ("_._" + ("_._" + (a + "_" + b))))
  {
    var t := a + [sep] + b;
    ClimbThenPath(sep, 4, a, b);
    assert Climb(sep, 4, t) == ['.', '.', sep] + Climb(sep, 3, t);
    assert Climb(sep, 3, t) == ['.', '.', sep] + Climb(sep, 2, t);
    assert Climb(sep, 2, t) == ['.', '.', sep] + Climb(sep, 1, t);
    assert Neutralised(4) == "_._" + ("_._" + ("_._" + ("_._" + [])));
  }

  /** Three triplets, then two clean words around a fourth. */
  lemma {:induction false} TripletsThenPath(e1: string, e2: string, e3: string, a: string, e4: string, b: string)
    requires |e1| == 3 && IsEncodedTriplet(e1[0], e1[1], e1[2])
    requires |e2| == 3 && IsEncodedTriplet(e2[0], e2[1], e2[2])
    requires |e3| == 3 && IsEncodedTriplet(e3[0], e3[1], e3[2])
    requires |e4| == 3 && IsEncodedTriplet(e4[0], e4[1], e4[2])
    requires IsClean(a) && IsClean(b)
    ensures SanitizeEmailForFilename(e1 + (e2 + (e3 + (a + e4 + b)))) == "___" + (a + "_" + b)
  {
    var t := a + e4 + b;
    WordAroundTriplet(a, e4, b);
    TripletHead(e3, t);
    TripletHead(e2, e3 + t);
    TripletHead(e1, e2 + (e3 + t));
  }

  /** Three clean words, each behind an unrecognised "%25". */
  lemma {:induction false} DoubleEncodedWords(w1: string, w2: string, w3: string)
    requires IsClean(w1) && IsClean(w2) && IsClean(w3)
    ensures SanitizeEmailForFilename("%25" + (w1 + ("%25" + (w2 + ("%25" + w3)))))
         == "_25" + (w1 + ("_25" + (w2 + ("_25" + w3))))
  {
    NoDoubleDecoding(w3);
    CleanKept(w3);
    var t2: string := "%25" + w3;
    CleanPrefix(w2, t2);
    NoDoubleDecoding(w2 + t2);
    var t1: string := "%25" + (w2 + t2);
    CleanPrefix(w1, t1);
    NoDoubleDecoding(w1 + t1);
  }

  /** Four recognised triplets and nothing else. */
  lemma {:induction false} FourTriplets(e1: string, e2: string, e3: string, e4: string)
    requires |e1| == 3 && IsEncodedTriplet(e1[0], e1[1], e1[2])
    requires |e2| == 3 && IsEncodedTriplet(e2[0], e2[1], e2[2])
    requires |e3| == 3 && IsEncodedTriplet(e3[0], e3[1], e3[2])
    requires |e4| == 3 && IsEncodedTriplet(e4[0], e4[1], e4[2])
    ensures SanitizeEmailForFilename(e1 + (e2 + (e3 + e4))) == "____"
  {
    TripletHead(e4, []);
    assert e4 + [] == e4;
    TripletHead(e3, e4);
    TripletHead(e2, e3 + e4);
    TripletHead(e1, e2 + (e3 + e4));
  }

  /* The sanitizer table, row by row. */

  lemma {:induction false} TableEmptyAndPlain()
    ensures SanitizeEmailForFilename("") == ""
    ensures SanitizeEmailForFilename("user@example.com") == "user@example.com"
  {
    CleanKept("user@example.com");
  }

  lemma {:induction false} TableSpace()
    ensures SanitizeEmailForFilename("user name@example.com") == "user_name@example.com"
  {
    assert "user name@example.com" == "user" + [' '] + "name@example.com";
    assert "user_name@example.com" == "user" + "_" + "name@example.com";
    WordAroundSeparator("user", ' ', "name@example.com");
  }

  lemma {:induction false} TableColon()
    ensures SanitizeEmailForFilename("user:name@example.com") == "user_name@example.com"
  {
    assert "user:name@example.com" == "user" + [':'] + "name@example.com";
    assert "user_name@example.com" == "user" + "_" + "name@example.com";
    WordAroundSeparator("user", ':', "name@example.com");
  }

  lemma {:induction false} TableSlashAndColon()
    ensures SanitizeEmailForFilename("user/name:test@example.com") == "user_name_test@example.com"
  {
    assert "user/name:test@example.com" == "user" + ['/'] + ("name" + [':'] + "test@example.com");
    assert "user_name_test@example.com" == "user" + "_" + ("name" + "_" + "test@example.com");
    TwoSeparators("user", '/', "name", ':', "test@example.com");
  }

  lemma {:induction false} TableTraversal()
    ensures SanitizeEmailForFilename("../../../etc/passwd") == "_.__.__._etc_passwd"
  {
    var d := ['.', '.', '/'];
    assert "../../../etc/passwd" == d + (d + (d + ("etc" + ['/'] + "passwd")));
    assert "_.__.__._etc_passwd" == "_._" + ("_._" + ("_._" + ("etc" + "_" + "passwd")));
    ThreeClimbsThenPath('/', "etc", "passwd");
  }

  lemma {:induction false} TableBackslashTraversal()
    ensures SanitizeEmailForFilename("..\\..\\..\\..\\windows\\system32") == "_.__.__.__._windows_system32"
  {
    var d := ['.', '.', '\\'];
    assert "..\\..\\..\\..\\windows\\system32" == d + (d + (d + (d + ("windows" + ['\\'] + "system32"))));
    assert "_.__.__.__._windows_system32" == "_._" + ("_._" + ("_._" + ("_._" + ("windows" + "_" + "system32"))));
    FourClimbsThenPath('\\', "windows", "system32");
  }

  lemma {:induction false} TableNul()
    ensures SanitizeEmailForFilename("user\0@evil.com") == "user_@evil.com"
  {
    assert "user\0@evil.com" == "user" + ['\0'] + "@evil.com";
    assert "user_@evil.com" == "user" + "_" + "@evil.com";
    WordAroundSeparator("user", '\0', "@evil.com");
  }

  lemma {:induction false} TableEncodedSlash()
    ensures SanitizeEmailForFilename("user%2Fpath@example.com") == "user_path@example.com"
  {
    assert "user%2Fpath@example.com" == "user" + "%2F" + "path@example.com";
    assert "user_path@example.com" == "user" + "_" + "path@example.com";
    WordAroundTriplet("user", "%2F", "path@example.com");
  }

  lemma {:induction false} TableEncodedBackslash()
    ensures SanitizeEmailForFilename("user%5Cpath@example.com") == "user_path@example.com"
  {
    assert "user%5Cpath@example.com" == "user" + "%5C" + "path@example.com";
    assert "user_path@example.com" == "user" + "_" + "path@example.com";
    WordAroundTriplet("user", "%5C", "path@example.com");
  }

  lemma {:induction false} TableEncodedTraversal()
    ensures SanitizeEmailForFilename("%2E%2E%2Fetc%2Fpasswd") == "___etc_passwd"
  {
    assert "%2E%2E%2Fetc%2Fpasswd" == "%2E" + ("%2E" + ("%2F" + ("etc" + "%2F" + "passwd")));
    assert "___etc_passwd" == "___" + ("etc" + "_" + "passwd");
    TripletsThenPath("%2E", "%2E", "%2F", "etc", "%2F", "passwd");
  }

  lemma {:induction false} TableEncodedNul()
    ensures SanitizeEmailForFilename("user%00@evil.com") == "user_@evil.com"
  {
    assert "user%00@evil.com" == "user" + "%00" + "@evil.com";
    assert "user_@evil.com" == "user" + "_" + "@evil.com";
    WordAroundTriplet("user", "%00", "@evil.com");
  }

  lemma {:induction false} TableDoubleEncoded()
    ensures SanitizeEmailForFilename("%252F%252E%252E") == "_252F_252E_252E"
  {
    assert "%252F%252E%252E" == "%25" + ("2F" + ("%25" + ("2E" + ("%25" + "2E"))));
    assert "_252F_252E_252E" == "_25" + ("2F" + ("_25" + ("2E" + ("_25" + "2E"))));
    DoubleEncodedWords("2F", "2E", "2E");
  }

  lemma {:induction false} TableMixedCase()
    ensures SanitizeEmailForFilename("%2f%2F%5c%5C") == "____"
  {
    assert "%2f%2F%5c%5C" == "%2f" + ("%2F" + ("%5c" + "%5C"));
    FourTriplets("%2f", "%2F", "%5c", "%5C");
  }
}
