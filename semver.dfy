/** The semantic-version value type (Semantic Versioning 2.0.0, with the
    departures of the implementation it models): parsing by the version
    pattern in strict and lenient modes, rendering, precedence and full order,
    structural equality, copy-with-changes and the comparison operators.
    A C# `SemVersion?` is an `Option<SemVersion>`; a thrown exception is a
    `Failure`. */
module SemVer {
  import opened Wrappers
  import opened DotNetInt
  import opened DotNetText

  // ---------------------------------------------------------------------------
  // The value type

  /** An immutable version: three `int`s and two non-null texts. */
  datatype SemVersion = SemVersion(major: int32, minor: int32, patch: int32, prerelease: string, build: string)
  {
    /** `Major.Minor.Patch`, then `-Prerelease` and `+Build` when they are non-empty. */
    function ToString(): (s: string)
      ensures build != "" ==> |s| > |build| && s[|s| - |build| - 1..] == "+" + build
      ensures build == "" && prerelease != "" ==> |s| > |prerelease| && s[|s| - |prerelease| - 1..] == "-" + prerelease
      ensures build == "" && prerelease == "" ==> s != [] && IsDigit(s[|s| - 1])
    {
      var version := FormatInt32(major) + "." + FormatInt32(minor) + "." + FormatInt32(patch);
      var version := if prerelease != "" then version + "-" + prerelease else version;
      if build != "" then version + "+" + build else version
    }

    /** `Change`: a copy in which each supplied argument replaces its field. */
    function Change(major': Option<int32> := None, minor': Option<int32> := None, patch': Option<int32> := None,
                    prerelease': Option<string> := None, build': Option<string> := None): (v: SemVersion)
      ensures v.major == (if major'.Some? then major'.value else major)
      ensures v.minor == (if minor'.Some? then minor'.value else minor)
      ensures v.patch == (if patch'.Some? then patch'.value else patch)
      ensures v.prerelease == (if prerelease'.Some? then prerelease'.value else prerelease)
      ensures v.build == (if build'.Some? then build'.value else build)
    {
      Create(major'.GetOr(major), minor'.GetOr(minor), patch'.GetOr(patch),
             Some(prerelease'.GetOr(prerelease)), Some(build'.GetOr(build)))
    }

    /** Precedence: major, minor and patch numerically, then the prerelease texts,
        where an empty prerelease ranks above any other; the build is ignored.
        A null argument ranks below. */
    function CompareByPrecedence(other: Option<SemVersion>): (r: int)
      ensures -1 <= r <= 1
      ensures other.None? ==> r == 1
    {
      if other.None? then 1
      else
        var o := other.value;
        var r := IntCompare(major as int, o.major as int);
        if r != 0 then r
        else
          var r := IntCompare(minor as int, o.minor as int);
          if r != 0 then r
          else
            var r := IntCompare(patch as int, o.patch as int);
            if r != 0 then r
            else ComponentOrder(prerelease, o.prerelease, true)
    }

    /** Same precedence: `CompareByPrecedence` gives 0, that is, equal numbers
        and prereleases that tie identifier by identifier. Versions that differ
        only in their build match. */
    function PrecedenceMatches(other: Option<SemVersion>): (b: bool)
      ensures b ==> other.Some? && other.value.major == major && other.value.minor == minor && other.value.patch == patch
      ensures b <==> other.Some? && other.value.major == major && other.value.minor == minor && other.value.patch == patch
                     && ComponentOrder(prerelease, other.value.prerelease, true) == 0
      ensures other.Some? && other.value == this.(build := other.value.build) ==> b
    {
      ComponentOrderReflexive(prerelease, true);
      CompareByPrecedence(other) == 0
    }

    /** The full order: precedence, then the build texts as a final tiebreak,
        where an empty build ranks below any other. A null argument ranks below. */
    function CompareTo(other: Option<SemVersion>): (r: int)
      ensures -1 <= r <= 1
      ensures other.None? ==> r == 1
      ensures CompareByPrecedence(other) != 0 ==> r == CompareByPrecedence(other)
    {
      if other.None? then 1
      else
        var r := CompareByPrecedence(other);
        if r != 0 then r else ComponentOrder(build, other.value.build, false)
    }

    /** `Equals(object)`: a non-null version with the same five fields, the texts
        compared ordinally. */
    function Equals(other: Option<SemVersion>): (b: bool)
      ensures b <==> other == Some(this)
    {
      other.Some?
      && major == other.value.major
      && minor == other.value.minor
      && patch == other.value.patch
      && CompareOrdinal(prerelease, other.value.prerelease) == 0
      && CompareOrdinal(build, other.value.build) == 0
    }
  }

  /** The constructor: a null prerelease or build text is stored as empty. */
  function Create(major: int32, minor: int32 := 0, patch: int32 := 0,
                  prerelease: Option<string> := Some(""), build: Option<string> := Some("")): (v: SemVersion)
    ensures v.major == major && v.minor == minor && v.patch == patch
    ensures v.prerelease == prerelease.GetOr("") && v.build == build.GetOr("")
  {
    SemVersion(major, minor, patch, prerelease.GetOr(""), build.GetOr(""))
  }

  // ---------------------------------------------------------------------------
  // The version pattern
  //   ^(?<major>\d+)(\.(?<minor>\d+))?(\.(?<patch>\d+))?(\-(?<pre>[0-9A-Za-z\-\.]+))?(\+(?<build>[0-9A-Za-z\-\.]+))?$

  /** The characters allowed in the prerelease and build groups. */
  predicate IsIdentChar(c: char) {
    IsDigit(c) || IsAsciiLetter(c) || c == '-' || c == '.'
  }

  /** Text made only of identifier characters (possibly empty). */
  predicate IsIdentText(s: string) {
    forall i :: 0 <= i < |s| ==> IsIdentChar(s[i])
  }

  datatype CharClass = Digits | Ident

  predicate InClass(c: char, k: CharClass) {
    match k
    case Digits => IsDigit(c)
    case Ident => IsIdentChar(c)
  }

  /** The longest prefix of `s` made of characters of class `k` (a greedy `[k]*`). */
  function Run(s: string, k: CharClass): (w: string)
    ensures |w| <= |s| && w == s[..|w|]
    ensures forall i :: 0 <= i < |w| ==> InClass(w[i], k)
    ensures |w| == |s| || !InClass(s[|w|], k)
  {
    if s != [] && InClass(s[0], k) then
      var w := [s[0]] + Run(s[1..], k);
      assert s == [s[0]] + s[1..];
      w
    else []
  }

  /** What the named groups capture; an unmatched `pre` or `build` captures "". */
  datatype VersionMatch = VersionMatch(major: string, minor: Option<string>, patch: Option<string>, pre: string, build: string)

  /** Captures that the pattern can produce. */
  predicate WellFormed(g: VersionMatch) {
    && IsNumeral(g.major)
    && (g.minor.Some? ==> IsNumeral(g.minor.value))
    && (g.patch.Some? ==> IsNumeral(g.patch.value) && g.minor.Some?)
    && IsIdentText(g.pre)
    && IsIdentText(g.build)
  }

  function NumberPart(n: Option<string>): string {
    if n.Some? then "." + n.value else ""
  }

  function TaggedPart(tag: char, text: string): string {
    if text == "" then "" else [tag] + text
  }

  /** The text that the captures `g` spell out. */
  function Compose(g: VersionMatch): string {
    g.major + (NumberPart(g.minor) + (NumberPart(g.patch) + (TaggedPart('-', g.pre) + TaggedPart('+', g.build))))
  }

  /** An optional `\.\d+` group: the captured digits and the rest of the text. */
  function OptionalNumber(s: string): (r: (Option<string>, string))
    ensures s == NumberPart(r.0) + r.1
    ensures r.0.Some? ==> IsNumeral(r.0.value)
    ensures r.0.Some? ==> r.1 == [] || !IsDigit(r.1[0])
    ensures r.0.None? ==> r.1 == s && (|s| < 2 || s[0] != '.' || !IsDigit(s[1]))
  {
    if |s| >= 2 && s[0] == '.' && IsDigit(s[1]) then
      var d := Run(s[1..], Digits);
      assert s == "." + d + s[1 + |d|..];
      (Some(d), s[1 + |d|..])
    else (None, s)
  }

  /** An optional `tag[ident]+` group: the captured text ("" when the group is
      skipped) and the rest, or None when `tag` is present with nothing after it,
      which no other part of the pattern can match. */
  function OptionalTagged(s: string, tag: char): (r: Option<(string, string)>)
    requires !IsIdentChar(tag) || tag == '-'
    ensures r.Some? ==> IsIdentText(r.value.0) && s == TaggedPart(tag, r.value.0) + r.value.1
    ensures r.Some? && r.value.0 != "" ==> r.value.1 == [] || !IsIdentChar(r.value.1[0])
    ensures r.Some? && r.value.0 == "" ==> r.value.1 == s && (s == [] || s[0] != tag)
  {
    if s != [] && s[0] == tag then
      var id := Run(s[1..], Ident);
      if id == [] then None
      else
        assert s == [tag] + id + s[1 + |id|..];
        Some((id, s[1 + |id|..]))
    else Some(("", s))
  }

  /** A text is its first `n` characters followed by the rest; stated once so
      that the match proofs do not rediscover it among the grammar's definitions. */
  lemma SplitAt(s: string, n: nat)
    requires n <= |s|
    ensures s == s[..n] + s[n..]
  {
  }

  /** The regular-expression match: the captures when the whole text matches
      (`^…$`), None otherwise. Every capture it returns is one the pattern can
      produce, and it spells out exactly the matched text. */
  function MatchVersion(s: string): (m: Option<VersionMatch>)
    ensures m.Some? ==> m.value.major != [] && m.value.major == Run(s, Digits)
    ensures s == [] || !IsDigit(s[0]) ==> m.None?
  {
    var major := Run(s, Digits);
    if major == [] then None
    else
      var minor := OptionalNumber(s[|major|..]);
      var patch := OptionalNumber(minor.1);
      var pre := OptionalTagged(patch.1, '-');
      if pre.None? then None
      else
        var build := OptionalTagged(pre.value.1, '+');
        if build.None? || build.value.1 != [] then None
        else
          Some(VersionMatch(major, minor.0, patch.0, pre.value.0, build.value.0))
  }

  /** Every capture the match returns is one the pattern can produce, and it
      spells out exactly the matched text. */
  lemma MatchVersionSound(s: string)
    ensures MatchVersion(s).Some? ==> WellFormed(MatchVersion(s).value) && Compose(MatchVersion(s).value) == s
  {
    if MatchVersion(s).Some? {
      MatchVersionComposes(s);
    }
  }

  lemma MatchVersionComposes(s: string)
    requires MatchVersion(s).Some?
    ensures Compose(MatchVersion(s).value) == s
  {
    var major := Run(s, Digits);
    var minor := OptionalNumber(s[|major|..]);
    var patch := OptionalNumber(minor.1);
    var pre := OptionalTagged(patch.1, '-');
    var build := OptionalTagged(pre.value.1, '+');
    SplitAt(s, |major|);
    ComposeOfParts(s, major, s[|major|..], minor.0, minor.1, patch.0, patch.1,
                   pre.value.0, pre.value.1, build.value.0);
  }

  /** Spelling out captures group by group, each group followed by the rest of
      the text, gives back the whole text. */
  lemma ComposeOfParts(s: string, major: string, afterMajor: string,
                       minor: Option<string>, afterMinor: string,
                       patch: Option<string>, afterPatch: string,
                       pre: string, afterPre: string, build: string)
    requires s == major + afterMajor
    requires afterMajor == NumberPart(minor) + afterMinor
    requires afterMinor == NumberPart(patch) + afterPatch
    requires afterPatch == TaggedPart('-', pre) + afterPre
    requires afterPre == TaggedPart('+', build) + []
    ensures Compose(VersionMatch(major, minor, patch, pre, build)) == s
  {
    assert afterPre == TaggedPart('+', build);
  }

  lemma {:induction false} RunOfPrefix(w: string, rest: string, k: CharClass)
    requires forall i :: 0 <= i < |w| ==> InClass(w[i], k)
    requires rest == [] || !InClass(rest[0], k)
    ensures Run(w + rest, k) == w
  {
    if w != [] {
      assert (w + rest)[0] == w[0];
      assert (w + rest)[1..] == w[1..] + rest;
      RunOfPrefix(w[1..], rest, k);
    } else {
      assert w + rest == rest;
    }
  }

  lemma OptionalNumberOf(n: Option<string>, rest: string)
    requires n.Some? ==> IsNumeral(n.value)
    requires rest == [] || !IsDigit(rest[0])
    requires n.None? ==> rest == [] || rest[0] != '.'
    ensures OptionalNumber(NumberPart(n) + rest) == (n, rest)
  {
    var s := NumberPart(n) + rest;
    if n.Some? {
      assert s[0] == '.' && s[1] == n.value[0];
      assert s[1..] == n.value + rest;
      RunOfPrefix(n.value, rest, Digits);
      assert s[1 + |n.value|..] == rest;
    } else {
      assert s == rest;
    }
  }

  lemma OptionalTaggedOf(tag: char, text: string, rest: string)
    requires tag == '-' || tag == '+'
    requires IsIdentText(text)
    requires text != "" ==> rest == [] || !IsIdentChar(rest[0])
    requires text == "" ==> rest == [] || rest[0] != tag
    ensures OptionalTagged(TaggedPart(tag, text) + rest, tag) == Some((text, rest))
  {
    var s := TaggedPart(tag, text) + rest;
    if text != "" {
      assert s[0] == tag;
      assert s[1..] == text + rest;
      RunOfPrefix(text, rest, Ident);
      assert s[1 + |text|..] == rest;
    } else {
      assert s == rest;
    }
  }

  /** Whatever the pattern can produce, spelled out, is matched back to the
      same captures. */
  lemma MatchVersionComplete(g: VersionMatch)
    requires WellFormed(g)
    ensures MatchVersion(Compose(g)) == Some(g)
  {
    var tailB := TaggedPart('+', g.build);
    var tailP := TaggedPart('-', g.pre) + tailB;
    var tailPa := NumberPart(g.patch) + tailP;
    var tailM := NumberPart(g.minor) + tailPa;
    var s := Compose(g);
    OptionalTaggedOf('+', g.build, []);
    assert tailB + [] == tailB;
    OptionalTaggedOf('-', g.pre, tailB);
    OptionalNumberOf(g.patch, tailP);
    OptionalNumberOf(g.minor, tailPa);
    assert tailM == [] || !IsDigit(tailM[0]);
    RunOfPrefix(g.major, tailM, Digits);
    assert s[|g.major|..] == tailM;
    MatchVersionOfParts(s, g, tailM, tailPa, tailP, tailB);
  }

  /** `MatchVersion` read off the result of each group on the rest of the text. */
  lemma MatchVersionOfParts(s: string, g: VersionMatch, tailM: string, tailPa: string, tailP: string, tailB: string)
    requires g.major != [] && Run(s, Digits) == g.major && s[|g.major|..] == tailM
    requires OptionalNumber(tailM) == (g.minor, tailPa)
    requires OptionalNumber(tailPa) == (g.patch, tailP)
    requires OptionalTagged(tailP, '-') == Some((g.pre, tailB))
    requires OptionalTagged(tailB, '+') == Some((g.build, []))
    ensures MatchVersion(s) == Some(g)
  {
  }

  // ---------------------------------------------------------------------------
  // Parse and TryParse

  datatype ParseError =
    | InvalidVersion         // ArgumentException: the text does not match the pattern
    | Overflow               // OverflowException from int.Parse on a numeral above int.MaxValue
    | NoMinorInStrictMode    // InvalidOperationException
    | NoPatchInStrictMode    // InvalidOperationException

  /** The value a numeric group stands for: its numeral's value, 0 when absent. */
  function NumberValue(n: Option<string>): nat
    requires n.Some? ==> IsNumeral(n.value)
  {
    if n.Some? then DigitsValue(n.value) else 0
  }

  /** The group is absent, or its numeral fits in an `int`. */
  predicate Fits(n: Option<string>)
    requires n.Some? ==> IsNumeral(n.value)
  {
    n.Some? ==> DigitsValue(n.value) <= Int32Max
  }

  /** One optional numeric group: its value when captured, 0 when absent in
      lenient mode, the strict-mode error when absent in strict mode. */
  function OptionalNumberValue(n: Option<string>, strict: bool, missing: ParseError): (r: Result<int32, ParseError>)
    requires n.Some? ==> IsNumeral(n.value)
    ensures r.Success? ==> 0 <= r.value && r.value as int == NumberValue(n)
    ensures n.Some? ==> (r.Success? <==> Fits(n)) && (r.Failure? ==> r.error == Overflow)
    ensures n.None? ==> r == (if strict then Failure(missing) else Success(0))
  {
    if n.Some? then
      var v := ParseNumeral(n.value);
      if v.None? then Failure(Overflow) else Success(v.value)
    else if strict then Failure(missing)
    else Success(0)
  }

  /** The version read from the captures of a matching text: each numeral
      through `int.Parse`, the absent numbers by mode, null texts as "". */
  function ParseCaptures(g: VersionMatch, strict: bool): (r: Result<SemVersion, ParseError>)
    requires WellFormed(g)
    ensures r.Success? ==> 0 <= r.value.major && 0 <= r.value.minor && 0 <= r.value.patch
    ensures r.Success? ==> && r.value.major as int == DigitsValue(g.major)
                           && r.value.minor as int == NumberValue(g.minor)
                           && r.value.patch as int == NumberValue(g.patch)
    ensures r.Success? ==> r.value.prerelease == g.pre && r.value.build == g.build
    ensures r.Success? <==> && DigitsValue(g.major) <= Int32Max && Fits(g.minor) && Fits(g.patch)
                            && (strict ==> g.minor.Some? && g.patch.Some?)
    ensures DigitsValue(g.major) > Int32Max ==> r == Failure(Overflow)
    ensures r == Failure(NoMinorInStrictMode) <==> DigitsValue(g.major) <= Int32Max && strict && g.minor.None?
    ensures r == Failure(NoPatchInStrictMode) <==>
              DigitsValue(g.major) <= Int32Max && g.minor.Some? && Fits(g.minor) && strict && g.patch.None?
    ensures r != Failure(InvalidVersion)
  {
    var major := ParseNumeral(g.major);
    if major.None? then Failure(Overflow)
    else
      match OptionalNumberValue(g.minor, strict, NoMinorInStrictMode)
      case Failure(e) => Failure(e)
      case Success(minor) =>
        match OptionalNumberValue(g.patch, strict, NoPatchInStrictMode)
        case Failure(e) => Failure(e)
        case Success(patch) =>
          Success(Create(major.value, minor, patch, Some(g.pre), Some(g.build)))
  }

  /** `SemVersion.Parse(version, strict)`. */
  function Parse(version: string, strict: bool := false): (r: Result<SemVersion, ParseError>)
    ensures r.Success? ==> 0 <= r.value.major && 0 <= r.value.minor && 0 <= r.value.patch
    ensures r.Success? ==> IsIdentText(r.value.prerelease) && IsIdentText(r.value.build)
    ensures r == Failure(InvalidVersion) <==> MatchVersion(version).None?
  {
    match MatchVersion(version)
    case None => Failure(InvalidVersion)
    case Some(g) =>
      MatchVersionSound(version);
      ParseCaptures(g, strict)
  }

  /** `SemVersion.TryParse(version, out semver, strict)`: true with the version
      where `Parse` returns one, false with null where `Parse` throws. */
  function TryParse(version: string, strict: bool := false): (r: (bool, Option<SemVersion>))
    ensures r.0 <==> Parse(version, strict).Success?
    ensures r.0 ==> r.1 == Some(Parse(version, strict).value)
    ensures !r.0 ==> r.1 == None
  {
    match Parse(version, strict)
    case Success(v) => (true, Some(v))
    case Failure(_) => (false, None)
  }

  // ---------------------------------------------------------------------------
  // Component comparison

  /** `int.CompareTo`. */
  function IntCompare(a: int, b: int): (r: int)
    ensures r == -1 || r == 0 || r == 1
    ensures r < 0 <==> a < b
    ensures r > 0 <==> a > b
  {
    if a < b then -1 else if a > b then 1 else 0
  }

  /** One dot-separated identifier against another: numerically when both are
      int-parsable, a numeric one below a non-numeric one, otherwise ordinally. */
  function CompareSegment(x: string, y: string): (r: int)
    ensures -1 <= r <= 1
  {
    var xn := TryParseInt32(x);
    var yn := TryParseInt32(y);
    if xn.Some? && yn.Some? then IntCompare(xn.value as int, yn.value as int)
    else if xn.Some? then -1
    else if yn.Some? then 1
    else CompareOrdinal(x, y)
  }

  /** Identifier lists compared position by position; when every compared
      position ties, the shorter list is lower. */
  function CompareSegments(xs: seq<string>, ys: seq<string>): (r: int)
    ensures -1 <= r <= 1
  {
    if xs == [] || ys == [] then IntCompare(|xs|, |ys|)
    else
      var r := CompareSegment(xs[0], ys[0]);
      if r != 0 then r else CompareSegments(xs[1..], ys[1..])
  }

  /** The specification of `CompareComponent(a, b, lower)`: two empty texts tie;
      an empty text ranks above a non-empty one when `lower` is set (a release
      above its prereleases) and below it otherwise (no build below a build);
      two non-empty texts compare as dot-separated identifier lists. */
  function ComponentOrder(a: string, b: string, lower: bool): (r: int)
    ensures -1 <= r <= 1
    ensures a == [] && b != [] ==> r == (if lower then 1 else -1)
    ensures a != [] && b == [] ==> r == (if lower then -1 else 1)
  {
    if a == [] && b == [] then 0
    else if a == [] then (if lower then 1 else -1)
    else if b == [] then (if lower then -1 else 1)
    else CompareSegments(Split(a, '.'), Split(b, '.'))
  }

  lemma {:induction false} CompareSegmentsReflexive(xs: seq<string>)
    ensures CompareSegments(xs, xs) == 0
  {
    if xs != [] {
      CompareSegmentsReflexive(xs[1..]);
    }
  }

  lemma ComponentOrderReflexive(a: string, lower: bool)
    ensures ComponentOrder(a, a, lower) == 0
  {
    CompareSegmentsReflexive(Split(a, '.'));
  }

  /** `CompareComponent(a, b, lower)`: the loop over the split identifiers. */
  method CompareComponent(a: string, b: string, lower: bool := false) returns (r: int)
    ensures r == ComponentOrder(a, b, lower)
  {
    var aEmpty := a == [];
    var bEmpty := b == [];
    if aEmpty && bEmpty {
      return 0;
    }
    if aEmpty {
      return if lower then 1 else -1;
    }
    if bEmpty {
      return if lower then -1 else 1;
    }
    var aComps := Split(a, '.');
    var bComps := Split(b, '.');
    var minLen := if |aComps| < |bComps| then |aComps| else |bComps|;
    for i := 0 to minLen
      invariant CompareSegments(aComps[i..], bComps[i..]) == CompareSegments(aComps, bComps)
    {
      var ac := aComps[i];
      var bc := bComps[i];
      assert aComps[i..][0] == ac && bComps[i..][0] == bc;
      assert aComps[i..][1..] == aComps[i + 1..] && bComps[i..][1..] == bComps[i + 1..];
      var anum := TryParseInt32(ac);
      var bnum := TryParseInt32(bc);
      if anum.Some? && bnum.Some? {
        r := IntCompare(anum.value as int, bnum.value as int);
        if r != 0 {
          return r;
        }
      } else {
        if anum.Some? {
          return -1;
        }
        if bnum.Some? {
          return 1;
        }
        r := CompareOrdinal(ac, bc);
        if r != 0 {
          return r;
        }
      }
    }
    assert aComps[minLen..] == [] || bComps[minLen..] == [];
    return IntCompare(|aComps|, |bComps|);
  }

  // ---------------------------------------------------------------------------
  // Null-aware statics and the operators

  /** The static `Equals(versionA, versionB)`: both null, or equal versions. */
  function Equals(a: Option<SemVersion>, b: Option<SemVersion>): (r: bool)
    ensures r <==> a == b
  {
    if a.None? then b.None? else a.value.Equals(b)
  }

  /** The static `Compare(versionA, versionB)`: null below every version. */
  function Compare(a: Option<SemVersion>, b: Option<SemVersion>): (r: int)
    ensures -1 <= r <= 1
    ensures a.None? ==> r == (if b.None? then 0 else -1)
    ensures a.Some? && b.None? ==> r == 1
    ensures a.Some? ==> r == a.value.CompareTo(b)
  {
    if a.None? then (if b.None? then 0 else -1) else a.value.CompareTo(b)
  }

  /** `operator ==`. */
  function EqualOp(l: Option<SemVersion>, r: Option<SemVersion>): (b: bool)
    ensures b <==> l == r
  {
    Equals(l, r)
  }

  /** `operator !=`. */
  function NotEqualOp(l: Option<SemVersion>, r: Option<SemVersion>): (b: bool)
    ensures b <==> l != r
  {
    !Equals(l, r)
  }

  /** `operator >`: null is above nothing, and every version is above null. */
  function GreaterThan(l: Option<SemVersion>, r: Option<SemVersion>): (b: bool)
    ensures l.None? ==> !b
    ensures l.Some? && r.None? ==> b
    ensures l.Some? && r.Some? ==> (b <==> l.value.CompareTo(r) == 1)
  {
    Compare(l, r) > 0
  }

  /** `operator <`: null is below every version, and nothing is below null. */
  function LessThan(l: Option<SemVersion>, r: Option<SemVersion>): (b: bool)
    ensures r.None? ==> !b
    ensures l.None? && r.Some? ==> b
    ensures l.Some? && r.Some? ==> (b <==> l.value.CompareTo(r) == -1)
  {
    Compare(l, r) < 0
  }

  /** `operator >=` as written: `left == right || left > right`. */
  function GreaterOrEqual(l: Option<SemVersion>, r: Option<SemVersion>): (b: bool)
    ensures b <==> l == r || Compare(l, r) > 0
  {
    EqualOp(l, r) || GreaterThan(l, r)
  }

  /** `operator <=` as written: `left == right || left < right`. */
  function LessOrEqual(l: Option<SemVersion>, r: Option<SemVersion>): (b: bool)
    ensures b <==> l == r || Compare(l, r) < 0
  {
    EqualOp(l, r) || LessThan(l, r)
  }

  /** `operator >=` as evidently intended: not below, by the same order as `>` and `<`. */
  function AtLeast(l: Option<SemVersion>, r: Option<SemVersion>): (b: bool)
    ensures b <==> !LessThan(l, r)
  {
    Compare(l, r) >= 0
  }

  /** `operator <=` as evidently intended: not above. */
  function AtMost(l: Option<SemVersion>, r: Option<SemVersion>): (b: bool)
    ensures b <==> !GreaterThan(l, r)
  {
    Compare(l, r) <= 0
  }
}
