/** What the version type promises across calls: `CompareTo` is a total order
    up to ties, precedence ignores the build, a release outranks its
    prereleases, `ToString` and `Parse` are inverse, and the strict and
    lenient modes agree wherever strict mode succeeds. */
module SemVerLaws {
  import opened Wrappers
  import opened DotNetInt
  import opened DotNetText
  import opened SemVer

  // ---------------------------------------------------------------------------
  // Identifier comparison

  /** Two int-parsable numerals compare by value, leading zeros ignored. */
  lemma NumeralsCompareByValue(x: string, y: string)
    requires IsNumeral(x) && IsNumeral(y)
    requires DigitsValue(x) <= Int32Max && DigitsValue(y) <= Int32Max
    ensures CompareSegment(x, y) == IntCompare(DigitsValue(x), DigitsValue(y))
  {
    TryParseNumeral(x);
    TryParseNumeral(y);
  }

  /** Any two int-parsable identifiers compare by value, signs included
      (`-1` below `0`). */
  lemma IntSegmentsCompareByValue(x: string, y: string)
    requires TryParseInt32(x).Some? && TryParseInt32(y).Some?
    ensures CompareSegment(x, y) == IntCompare(TryParseInt32(x).value as int, TryParseInt32(y).value as int)
    ensures CompareSegment(x, y) == 0 <==> TryParseInt32(x) == TryParseInt32(y)
  {
  }

  /** An int-parsable numeral ranks below any identifier that is not
      int-parsable: one holding a letter (`TryParseRejectsLetter`), an empty one,
      a lone sign, or a numeral too large for `int`. */
  lemma NumeralBelowWord(x: string, y: string)
    requires IsNumeral(x) && DigitsValue(x) <= Int32Max
    requires TryParseInt32(y) == None
    ensures CompareSegment(x, y) == -1 && CompareSegment(y, x) == 1
  {
    TryParseNumeral(x);
  }

  /** Identifiers that are not int-parsable compare ordinally. */
  lemma WordsCompareOrdinally(x: string, y: string)
    requires TryParseInt32(x) == None && TryParseInt32(y) == None
    ensures CompareSegment(x, y) == CompareOrdinal(x, y)
  {
  }

  /** The empty identifier (as in `alpha..1`) and a lone sign are not
      int-parsable, so they compare as words. */
  lemma EmptyAndSignAreWords()
    ensures TryParseInt32("") == None && TryParseInt32("-") == None && TryParseInt32("+") == None
  {
    TrimUnpadded("-");
    TrimUnpadded("+");
  }

  /** A numeral too large for `int` is not numeric: it ranks above every
      numeral that fits, and two such numerals compare ordinally, not by value. */
  lemma OverflowNumeralIsWord(x: string, y: string)
    requires IsNumeral(x) && DigitsValue(x) > Int32Max
    ensures IsNumeral(y) && DigitsValue(y) <= Int32Max ==> CompareSegment(x, y) == 1 && CompareSegment(y, x) == -1
    ensures IsNumeral(y) && DigitsValue(y) > Int32Max ==> CompareSegment(x, y) == CompareOrdinal(x, y)
  {
    TryParseNumeral(x);
    if IsNumeral(y) {
      TryParseNumeral(y);
    }
  }

  /** So numerals beyond `int` are ordered against numeric order:
      `99999999999` ranks above `100000000000`. */
  lemma OverflowNumeralsOrderOrdinally()
    ensures CompareSegment("99999999999", "100000000000") == 1
  {
    var x, y := "99999999999", "100000000000";
    LeadingDigitBound(x);
    LeadingDigitBound(y);
    OverflowNumeralIsWord(x, y);
    assert x[0] != y[0];
  }

  function Pow10(n: nat): nat {
    if n == 0 then 1 else 10 * Pow10(n - 1)
  }

  /** A numeral without a leading zero is at least 10 to the power of its
      length less one; from 11 digits on it exceeds `int.MaxValue`. */
  lemma {:induction false} LeadingDigitBound(s: string)
    requires IsNumeral(s) && s[0] != '0'
    ensures DigitsValue(s) >= Pow10(|s| - 1)
    ensures |s| >= 11 ==> DigitsValue(s) > Int32Max
  {
    if |s| > 1 {
      var t := s[..|s| - 1];
      assert t[0] == s[0];
      LeadingDigitBound(t);
    }
    if |s| >= 11 {
      Pow10Grows(|s| - 1);
    }
  }

  lemma {:induction false} Pow10Grows(n: nat)
    requires n >= 10
    ensures Pow10(n) >= 10000000000
  {
    if n > 10 {
      Pow10Grows(n - 1);
    } else {
      calc {
        Pow10(10);
        10 * Pow10(9);
        100 * Pow10(8);
        1000 * Pow10(7);
        10000 * Pow10(6);
        100000 * Pow10(5);
        1000000 * Pow10(4);
        10000000 * Pow10(3);
        100000000 * Pow10(2);
        1000000000 * Pow10(1);
        10000000000;
      }
    }
  }

  lemma CompareSegmentAntisymmetric(x: string, y: string)
    ensures CompareSegment(x, y) == -CompareSegment(y, x)
  {
    var xn, yn := TryParseInt32(x), TryParseInt32(y);
    if xn.None? && yn.None? {
      CompareOrdinalAntisymmetric(x, y);
    }
  }

  lemma CompareSegmentTransitive(x: string, y: string, z: string)
    requires CompareSegment(x, y) <= 0 && CompareSegment(y, z) <= 0
    ensures CompareSegment(x, z) <= 0
    ensures CompareSegment(x, y) < 0 || CompareSegment(y, z) < 0 ==> CompareSegment(x, z) < 0
  {
    var xn, yn, zn := TryParseInt32(x), TryParseInt32(y), TryParseInt32(z);
    if xn.None? && yn.None? && zn.None? {
      CompareOrdinalTransitive(x, y, z);
      CompareOrdinalAntisymmetric(x, y);
    }
  }

  lemma {:induction false} CompareSegmentsAntisymmetric(xs: seq<string>, ys: seq<string>)
    ensures CompareSegments(xs, ys) == -CompareSegments(ys, xs)
  {
    if xs != [] && ys != [] {
      CompareSegmentAntisymmetric(xs[0], ys[0]);
      CompareSegmentsAntisymmetric(xs[1..], ys[1..]);
    }
  }

  lemma {:induction false} CompareSegmentsTransitive(xs: seq<string>, ys: seq<string>, zs: seq<string>)
    requires CompareSegments(xs, ys) <= 0 && CompareSegments(ys, zs) <= 0
    ensures CompareSegments(xs, zs) <= 0
    ensures CompareSegments(xs, ys) < 0 || CompareSegments(ys, zs) < 0 ==> CompareSegments(xs, zs) < 0
  {
    if xs != [] && ys != [] && zs != [] {
      CompareSegmentTransitive(xs[0], ys[0], zs[0]);
      if CompareSegment(xs[0], ys[0]) == 0 && CompareSegment(ys[0], zs[0]) == 0 {
        CompareSegmentsTransitive(xs[1..], ys[1..], zs[1..]);
      }
    }
  }

  // ---------------------------------------------------------------------------
  // Component comparison

  lemma ComponentOrderAntisymmetric(a: string, b: string, lower: bool)
    ensures ComponentOrder(a, b, lower) == -ComponentOrder(b, a, lower)
  {
    CompareSegmentsAntisymmetric(Split(a, '.'), Split(b, '.'));
  }

  lemma ComponentOrderTransitive(a: string, b: string, c: string, lower: bool)
    requires ComponentOrder(a, b, lower) <= 0 && ComponentOrder(b, c, lower) <= 0
    ensures ComponentOrder(a, c, lower) <= 0
    ensures ComponentOrder(a, b, lower) < 0 || ComponentOrder(b, c, lower) < 0 ==> ComponentOrder(a, c, lower) < 0
  {
    if a != [] && b != [] && c != [] {
      CompareSegmentsTransitive(Split(a, '.'), Split(b, '.'), Split(c, '.'));
    }
  }

  // ---------------------------------------------------------------------------
  // Precedence

  /** Precedence is decided by the numbers first: a lower triple
      (major, minor, patch), compared lexicographically, means lower precedence. */
  lemma PrecedenceNumbersFirst(a: SemVersion, b: SemVersion)
    requires a.major < b.major
          || (a.major == b.major && a.minor < b.minor)
          || (a.major == b.major && a.minor == b.minor && a.patch < b.patch)
    ensures a.CompareByPrecedence(Some(b)) == -1 && a.CompareTo(Some(b)) == -1
  {
  }

  /** With equal numbers, a release outranks every prerelease of it. */
  lemma ReleaseOutranksPrerelease(a: SemVersion, b: SemVersion)
    requires a.major == b.major && a.minor == b.minor && a.patch == b.patch
    requires a.prerelease == "" && b.prerelease != ""
    ensures a.CompareByPrecedence(Some(b)) == 1 && a.CompareTo(Some(b)) == 1
  {
  }

  /** The build is not part of precedence. */
  lemma PrecedenceIgnoresBuild(a: SemVersion, b: SemVersion, buildA: string, buildB: string)
    ensures a.Change(build' := Some(buildA)).CompareByPrecedence(Some(b.Change(build' := Some(buildB))))
         == a.CompareByPrecedence(Some(b))
  {
  }

  lemma PrecedenceReflexive(a: SemVersion)
    ensures a.CompareByPrecedence(Some(a)) == 0
  {
    ComponentOrderReflexive(a.prerelease, true);
  }

  lemma PrecedenceAntisymmetric(a: SemVersion, b: SemVersion)
    ensures a.CompareByPrecedence(Some(b)) == -b.CompareByPrecedence(Some(a))
  {
    ComponentOrderAntisymmetric(a.prerelease, b.prerelease, true);
  }

  lemma PrecedenceTransitive(a: SemVersion, b: SemVersion, c: SemVersion)
    requires a.CompareByPrecedence(Some(b)) <= 0 && b.CompareByPrecedence(Some(c)) <= 0
    ensures a.CompareByPrecedence(Some(c)) <= 0
    ensures a.CompareByPrecedence(Some(b)) < 0 || b.CompareByPrecedence(Some(c)) < 0 ==> a.CompareByPrecedence(Some(c)) < 0
  {
    if a.major == b.major == c.major && a.minor == b.minor == c.minor && a.patch == b.patch == c.patch {
      ComponentOrderTransitive(a.prerelease, b.prerelease, c.prerelease, true);
    }
  }

  // ---------------------------------------------------------------------------
  // The full order

  /** With equal precedence, a version without build metadata ranks below one with it. */
  lemma EmptyBuildRanksLower(a: SemVersion, b: SemVersion)
    requires a.PrecedenceMatches(Some(b))
    requires a.build == "" && b.build != ""
    ensures a.CompareTo(Some(b)) == -1
  {
  }

  lemma CompareToReflexive(a: SemVersion)
    ensures a.CompareTo(Some(a)) == 0
  {
    PrecedenceReflexive(a);
    ComponentOrderReflexive(a.build, false);
  }

  lemma CompareToAntisymmetric(a: SemVersion, b: SemVersion)
    ensures a.CompareTo(Some(b)) == -b.CompareTo(Some(a))
  {
    PrecedenceAntisymmetric(a, b);
    ComponentOrderAntisymmetric(a.build, b.build, false);
  }

  lemma CompareToTransitive(a: SemVersion, b: SemVersion, c: SemVersion)
    requires a.CompareTo(Some(b)) <= 0 && b.CompareTo(Some(c)) <= 0
    ensures a.CompareTo(Some(c)) <= 0
    ensures a.CompareTo(Some(b)) < 0 || b.CompareTo(Some(c)) < 0 ==> a.CompareTo(Some(c)) < 0
  {
    PrecedenceTransitive(a, b, c);
    if a.CompareByPrecedence(Some(b)) == 0 && b.CompareByPrecedence(Some(c)) == 0 {
      PrecedenceAntisymmetric(a, b);
      PrecedenceAntisymmetric(b, c);
      PrecedenceTransitive(c, b, a);
      PrecedenceAntisymmetric(a, c);
      ComponentOrderTransitive(a.build, b.build, c.build, false);
    }
  }

  /** The static `Compare` is antisymmetric, null included. */
  lemma CompareAntisymmetric(a: Option<SemVersion>, b: Option<SemVersion>)
    ensures Compare(a, b) == -Compare(b, a)
  {
    if a.Some? && b.Some? {
      CompareToAntisymmetric(a.value, b.value);
    }
  }

  /** Equal versions compare as 0. */
  lemma EqualsComparesZero(a: Option<SemVersion>, b: Option<SemVersion>)
    requires Equals(a, b)
    ensures Compare(a, b) == 0
  {
    if a.Some? {
      CompareToReflexive(a.value);
    }
  }

  /** The converse fails: `1.0.0-01` and `1.0.0-1` compare as 0 (both
      identifiers are int-parsable with value 1), yet they are not equal. */
  lemma CompareZeroIsNotEquality()
    ensures var a := Create(1, 0, 0, Some("01"));
            var b := Create(1, 0, 0, Some("1"));
            a.CompareTo(Some(b)) == 0 && a.PrecedenceMatches(Some(b)) && !a.Equals(Some(b))
  {
    var a := Create(1, 0, 0, Some("01"));
    var b := Create(1, 0, 0, Some("1"));
    SplitWithout("01", '.');
    SplitWithout("1", '.');
    NumeralsCompareByValue("01", "1");
    assert DigitsValue("01") == 1 by {
      assert "01"[..1] == "0";
    }
    assert a.prerelease != b.prerelease;
  }

  /** Extending a prerelease with more identifiers raises its precedence
      (1.0.0-alpha < 1.0.0-alpha.1, 1.0.0-beta < 1.0.0-beta.2). */
  lemma LongerPrereleaseRanksHigher(v: SemVersion, q: string)
    requires v.prerelease != ""
    ensures ComponentOrder(v.prerelease, v.prerelease + "." + q, true) == -1
    ensures v.CompareByPrecedence(Some(v.Change(prerelease' := Some(v.prerelease + "." + q)))) == -1
  {
    SplitConcat(v.prerelease, q, '.');
    CompareSegmentsPrefix(Split(v.prerelease, '.'), Split(q, '.'));
  }

  /** The first position at which two identifier lists differ decides them,
      as the indexed loop of `CompareComponent` returns there. */
  lemma {:induction false} CompareSegmentsFirstDifference(xs: seq<string>, ys: seq<string>, i: nat)
    requires i < |xs| && i < |ys|
    requires forall j :: 0 <= j < i ==> CompareSegment(xs[j], ys[j]) == 0
    requires CompareSegment(xs[i], ys[i]) != 0
    ensures CompareSegments(xs, ys) == CompareSegment(xs[i], ys[i])
  {
    if i > 0 {
      assert CompareSegment(xs[0], ys[0]) == 0;
      forall j | 0 <= j < i - 1
        ensures CompareSegment(xs[1..][j], ys[1..][j]) == 0
      {
        assert xs[1..][j] == xs[j + 1] && ys[1..][j] == ys[j + 1];
      }
      CompareSegmentsFirstDifference(xs[1..], ys[1..], i - 1);
    }
  }

  /** When every position both lists have ties, the list with fewer
      identifiers is lower (`01` against `1.x`). */
  lemma {:induction false} CompareSegmentsAllTie(xs: seq<string>, ys: seq<string>)
    requires forall j :: 0 <= j < |xs| && j < |ys| ==> CompareSegment(xs[j], ys[j]) == 0
    ensures CompareSegments(xs, ys) == IntCompare(|xs|, |ys|)
  {
    if xs != [] && ys != [] {
      assert CompareSegment(xs[0], ys[0]) == 0;
      forall j | 0 <= j < |xs| - 1 && j < |ys| - 1
        ensures CompareSegment(xs[1..][j], ys[1..][j]) == 0
      {
        assert xs[1..][j] == xs[j + 1] && ys[1..][j] == ys[j + 1];
      }
      CompareSegmentsAllTie(xs[1..], ys[1..]);
    }
  }

  /** With equal numbers, two prereleases decide precedence as identifier
      lists. */
  lemma PrereleaseDecidesPrecedence(a: SemVersion, b: SemVersion)
    requires a.major == b.major && a.minor == b.minor && a.patch == b.patch
    requires a.prerelease != "" && b.prerelease != ""
    ensures a.CompareByPrecedence(Some(b)) == CompareSegments(Split(a.prerelease, '.'), Split(b.prerelease, '.'))
  {
  }

  /** With equal precedence, two builds decide the full order as identifier
      lists. */
  lemma BuildDecidesTie(a: SemVersion, b: SemVersion)
    requires a.PrecedenceMatches(Some(b))
    requires a.build != "" && b.build != ""
    ensures a.CompareTo(Some(b)) == CompareSegments(Split(a.build, '.'), Split(b.build, '.'))
  {
  }

  /** 1.0.0-alpha.1 < 1.0.0-alpha.beta: the first identifiers tie, and at the
      second a numeric identifier ranks below a word. */
  lemma AlphaNumeralBelowAlphaWord()
    ensures Create(1, 0, 0, Some("alpha.1")).CompareTo(Some(Create(1, 0, 0, Some("alpha.beta")))) == -1
  {
    var a, b := Create(1, 0, 0, Some("alpha.1")), Create(1, 0, 0, Some("alpha.beta"));
    assert "alpha.1" == "alpha" + ['.'] + "1";
    assert "alpha.beta" == "alpha" + ['.'] + "beta";
    SplitPair("alpha", "1");
    SplitPair("alpha", "beta");
    AlphaSegments();
    PrereleaseDecidesPrecedence(a, b);
  }

  lemma SplitPair(u: string, v: string)
    requires '.' !in u && '.' !in v
    ensures Split(u + ['.'] + v, '.') == [u, v]
  {
    SplitConcat(u, v, '.');
    SplitWithout(u, '.');
    SplitWithout(v, '.');
  }

  lemma AlphaSegments()
    ensures CompareSegments(["alpha", "1"], ["alpha", "beta"]) == -1
  {
    var xs, ys := ["alpha", "1"], ["alpha", "beta"];
    CompareSegmentsReflexive(["alpha"]);
    assert "1" == NatToDigits(1);
    DigitsRoundTrip(1);
    TryParseRejectsLetter("beta", 'b');
    NumeralBelowWord("1", "beta");
    CompareSegmentsFirstDifference(xs, ys, 1);
  }

  /** A list of identifiers ranks below every proper extension of it. */
  lemma {:induction false} CompareSegmentsPrefix(xs: seq<string>, ys: seq<string>)
    requires ys != []
    ensures CompareSegments(xs, xs + ys) == -1
  {
    if xs != [] {
      assert (xs + ys)[0] == xs[0] && (xs + ys)[1..] == xs[1..] + ys;
      CompareSegmentsPrefix(xs[1..], ys);
      CompareSegmentsReflexive([xs[0]]);
    } else {
      assert xs + ys == ys;
    }
  }

  // ---------------------------------------------------------------------------
  // Operators

  /** `operator >` and `operator <` are mirror images, and at most one holds. */
  lemma GreaterIsMirroredLess(a: Option<SemVersion>, b: Option<SemVersion>)
    ensures GreaterThan(a, b) <==> LessThan(b, a)
    ensures !(GreaterThan(a, b) && LessThan(a, b))
  {
    CompareAntisymmetric(a, b);
  }

  /** `operator >=` as written never claims more than `Compare` does. */
  lemma GreaterOrEqualSound(a: Option<SemVersion>, b: Option<SemVersion>)
    ensures GreaterOrEqual(a, b) ==> Compare(a, b) >= 0
    ensures LessOrEqual(a, b) ==> Compare(a, b) <= 0
  {
    if a == b {
      EqualsComparesZero(a, b);
    }
  }

  /** As written, `>=` and `<=` are not total: for `1.0.0-01` and `1.0.0-1`
      neither `a >= b` nor `b >= a` holds, nor `a <= b`, although neither
      version is below the other. */
  lemma GreaterOrEqualNotTotal()
    ensures var a := Some(Create(1, 0, 0, Some("01")));
            var b := Some(Create(1, 0, 0, Some("1")));
            && !GreaterOrEqual(a, b) && !GreaterOrEqual(b, a) && !LessOrEqual(a, b)
            && !LessThan(a, b) && !LessThan(b, a)
  {
    var a := Create(1, 0, 0, Some("01"));
    var b := Create(1, 0, 0, Some("1"));
    CompareZeroIsNotEquality();
    CompareToAntisymmetric(a, b);
  }

  /** The intended `>=` and `<=` are total, mirror each other, and agree with the
      written operators wherever equal order means equal versions. */
  lemma AtLeastTotal(a: Option<SemVersion>, b: Option<SemVersion>)
    ensures AtLeast(a, b) || AtLeast(b, a)
    ensures AtLeast(a, b) <==> AtMost(b, a)
    ensures AtLeast(a, b) && AtMost(a, b) <==> Compare(a, b) == 0
    ensures GreaterOrEqual(a, b) ==> AtLeast(a, b)
    ensures Compare(a, b) != 0 ==> (GreaterOrEqual(a, b) <==> AtLeast(a, b))
  {
    CompareAntisymmetric(a, b);
    GreaterOrEqualSound(a, b);
  }

  // ---------------------------------------------------------------------------
  // Parsing and rendering

  /** The text that `ToString` renders for a version with non-negative numbers and
      identifier-character texts is the composition of these captures. */
  lemma ToStringComposes(v: SemVersion)
    requires 0 <= v.major && 0 <= v.minor && 0 <= v.patch
    ensures v.ToString() == Compose(VersionMatch(NatToDigits(v.major as nat), Some(NatToDigits(v.minor as nat)),
                                                 Some(NatToDigits(v.patch as nat)), v.prerelease, v.build))
  {
    assert FormatInt32(v.major) == NatToDigits(v.major as nat);
    assert FormatInt32(v.minor) == NatToDigits(v.minor as nat);
    assert FormatInt32(v.patch) == NatToDigits(v.patch as nat);
    RenderedComposes(FormatInt32(v.major), FormatInt32(v.minor), FormatInt32(v.patch), v.prerelease, v.build);
  }

  /** The rendering steps of `ToString`, on any three numerals and two texts. */
  lemma RenderedComposes(major: string, minor: string, patch: string, pre: string, build: string)
    ensures (var core := major + "." + minor + "." + patch;
             var withPre := if pre != "" then core + "-" + pre else core;
             if build != "" then withPre + "+" + build else withPre)
         == Compose(VersionMatch(major, Some(minor), Some(patch), pre, build))
  {
    var core := major + "." + minor + "." + patch;
    var withPre := if pre != "" then core + "-" + pre else core;
    var tail := TaggedPart('-', pre) + TaggedPart('+', build);
    AppendTagged(core, '-', pre);
    AppendTagged(withPre, '+', build);
    Assoc(core, TaggedPart('-', pre), TaggedPart('+', build));
    Assoc(major + "." + minor + ".", patch, tail);
    Assoc(major + "." + minor, ".", patch + tail);
    Assoc(major + ".", minor, "." + patch + tail);
    Assoc(major + ".", minor, "." + (patch + tail));
    Assoc(major, ".", minor + ("." + (patch + tail)));
    Assoc(".", patch, tail);
    Assoc(".", minor, "." + (patch + tail));
    Assoc(".", minor, ("." + patch) + tail);
  }

  /** Regrouping an append, one step at a time: much cheaper for the solver
      than one equation between long chains of appends. */
  lemma Assoc(a: string, b: string, c: string)
    ensures a + (b + c) == a + b + c
  {
  }

  /** Appending a tag and a text as `ToString` does, only for a non-empty text. */
  lemma AppendTagged(s: string, tag: char, text: string)
    ensures (if text != "" then s + [tag] + text else s) == s + TaggedPart(tag, text)
  {
    if text == "" {
      assert s + [] == s;
    }
  }

  /** `Parse` reads back what `ToString` writes, in either mode. */
  lemma ParseToString(v: SemVersion, strict: bool)
    requires 0 <= v.major && 0 <= v.minor && 0 <= v.patch
    requires IsIdentText(v.prerelease) && IsIdentText(v.build)
    ensures Parse(v.ToString(), strict) == Success(v)
  {
    var g := VersionMatch(NatToDigits(v.major as nat), Some(NatToDigits(v.minor as nat)),
                          Some(NatToDigits(v.patch as nat)), v.prerelease, v.build);
    ToStringComposes(v);
    MatchVersionComplete(g);
    ParseNumeralOfDigits(v.major);
    ParseNumeralOfDigits(v.minor);
    ParseNumeralOfDigits(v.patch);
  }

  /** A parsed version renders to text that parses back to it: `ToString` is a
      canonical form of every accepted text. */
  lemma ParseCanonical(s: string, strict: bool, strict': bool)
    requires Parse(s, strict).Success?
    ensures Parse(Parse(s, strict).value.ToString(), strict') == Parse(s, strict)
  {
    ParseToString(Parse(s, strict).value, strict');
  }

  /** A text is rejected as invalid exactly when no captures the pattern can
      produce spell it out. */
  lemma ParseInvalidExactly(s: string, strict: bool)
    ensures Parse(s, strict) == Failure(InvalidVersion) <==> !exists g :: WellFormed(g) && Compose(g) == s
  {
    MatchVersionSound(s);
    if g :| WellFormed(g) && Compose(g) == s {
      MatchVersionComplete(g);
    }
  }

  /** For a matching text, `Parse` reads the captures. */
  lemma ParseOfMatch(s: string, strict: bool)
    requires MatchVersion(s).Some?
    ensures WellFormed(MatchVersion(s).value)
    ensures Parse(s, strict) == ParseCaptures(MatchVersion(s).value, strict)
  {
    MatchVersionSound(s);
  }

  /** Strict mode only adds errors: where it succeeds, lenient mode agrees. */
  lemma StrictAgreesWithLenient(s: string)
    requires Parse(s, true).Success?
    ensures Parse(s, false) == Parse(s, true)
  {
    ParseOfMatch(s, true);
    ParseOfMatch(s, false);
    CapturesStrictAgreesWithLenient(MatchVersion(s).value);
  }

  lemma CapturesStrictAgreesWithLenient(g: VersionMatch)
    requires WellFormed(g) && ParseCaptures(g, true).Success?
    ensures ParseCaptures(g, false) == ParseCaptures(g, true)
  {
    assert g.minor.Some? && g.patch.Some?;
  }

  /** A text without a minor part fails in strict mode with the minor error and
      reads as `major.0.0` in lenient mode. */
  lemma MissingMinor(s: string)
    requires MatchVersion(s).Some? && MatchVersion(s).value.minor.None?
    requires DigitsValue(MatchVersion(s).value.major) <= Int32Max
    ensures Parse(s, true) == Failure(NoMinorInStrictMode)
    ensures Parse(s, false).Success? && Parse(s, false).value.minor == 0 && Parse(s, false).value.patch == 0
    ensures Parse(s, false).value.major as int == DigitsValue(MatchVersion(s).value.major)
  {
    ParseOfMatch(s, true);
    ParseOfMatch(s, false);
    var g := MatchVersion(s).value;
    assert ParseNumeral(g.major).Some? && g.patch.None?;
  }

  /** A text with a minor but no patch part fails in strict mode with the patch
      error and reads as `major.minor.0` in lenient mode. */
  lemma MissingPatch(s: string)
    requires MatchVersion(s).Some? && MatchVersion(s).value.minor.Some? && MatchVersion(s).value.patch.None?
    requires DigitsValue(MatchVersion(s).value.major) <= Int32Max
    requires DigitsValue(MatchVersion(s).value.minor.value) <= Int32Max
    ensures Parse(s, true) == Failure(NoPatchInStrictMode)
    ensures Parse(s, false).Success? && Parse(s, false).value.patch == 0
    ensures Parse(s, false).value.major as int == DigitsValue(MatchVersion(s).value.major)
    ensures Parse(s, false).value.minor as int == DigitsValue(MatchVersion(s).value.minor.value)
  {
    ParseOfMatch(s, true);
    ParseOfMatch(s, false);
    var g := MatchVersion(s).value;
    assert ParseNumeral(g.major).Some? && ParseNumeral(g.minor.value).Some?;
  }

  /** A parsed version holds the values of the matched numerals, leading zeros
      ignored (`01.2.3` reads as 1.2.3), and 0 for an absent group. */
  lemma ParseReadsNumerals(s: string, strict: bool)
    requires Parse(s, strict).Success?
    ensures var g := MatchVersion(s).value;
            var v := Parse(s, strict).value;
            && g.major == Run(s, Digits)
            && v.major as int == DigitsValue(g.major)
            && v.minor as int == NumberValue(g.minor)
            && v.patch as int == NumberValue(g.patch)
  {
    ParseOfMatch(s, strict);
  }

  /** A numeral above `int.MaxValue` in a matching text is an overflow, not a
      format error, whatever the mode. */
  lemma OverflowReported(s: string, strict: bool)
    requires MatchVersion(s).Some?
    requires DigitsValue(MatchVersion(s).value.major) > Int32Max
    ensures Parse(s, strict) == Failure(Overflow)
  {
    ParseOfMatch(s, strict);
  }
}
