# Umbraco CMS: semantic versions, the migration expression latch, and health-check e-mail shaping

This project models three self-contained pieces of Umbraco CMS in Dafny and proves their properties.

- **`SemVersion`** (`src/Umbraco.Core/Semver/Semver.cs`) is the immutable semantic-version value type.
  - It parses text by the version pattern, in lenient and strict modes, and renders back to text.
  - It compares by precedence and by full order. Dotted prerelease and build identifiers are compared segment by segment, with `int.TryParse` deciding which segments are numeric.
  - It also covers structural equality, copy-with-changes and the six comparison operators.
  - It follows Semantic Versioning 2.0.0 (sections 2, 9, 10 and 11 of semver.org), with two departures of the implementation that the model keeps:
    - the build text is the last tiebreak of `CompareTo`;
    - `01` and `1` are equal identifiers.
- **`AsyncMigrationBase`** (`src/Umbraco.Infrastructure/Migrations/AsyncMigrationBase.cs`) is the base class of database migrations.
  - Every builder accessor goes through `BeginBuild`. It throws when the context's `BuildingExpression` latch is already set; otherwise it sets the latch.
  - `RunAsync` runs the body, then throws when the latch is still set.
  - A builder's `Do()` clears the latch. The builders are outside the model, so `Do()` is the abstract step `MigrationContext.EndExpression`.
  - The migration body (the abstract `MigrateAsync`) is a script of steps (`Migrations.Step`) that the model interprets.
- **`EmailNotificationMethod`** (`src/Umbraco.Core/HealthChecks/NotificationMethods/EmailNotificationMethod.cs`) is the e-mail channel of scheduled health checks. The model covers four things:
  - the colour highlighting of the `Result: 'Success'`-style markers, a chain of three `string.Replace` calls;
  - the default subject;
  - the `isBodyHtml` rule;
  - the guards in the constructor and in `SendAsync`.

The .NET library behaviour the core relies on is modelled in two support modules:
- `DotNetInt`: `int`, `int.Parse` on digit runs, `int.TryParse`, and `int.ToString`.
- `DotNetText`: `Split`, `CompareOrdinal`, `Contains`, `Replace`, and the null-or-empty and null-or-white-space tests.

A C# null reference is `Wrappers.Option.None`. A thrown exception is a `Failure` (a `Result`) or a `Fail` (an `Outcome`).

Files:
- `wrappers.dfy`
- `dotnet_int.dfy`
- `dotnet_text.dfy`
- `semver.dfy`, `semver_laws.dfy`
- `migrations.dfy`, `migration_laws.dfy`
- `email_notification.dfy`

## Model

| member | source | states |
|---|---|---|
| DotNetInt.DigitsRoundTrip | src/Umbraco.Core/Semver/Semver.cs:289 | the decimal rendering of a natural number reads back as that number |
| DotNetInt.ParseNumeral | src/Umbraco.Core/Semver/Semver.cs:123-125 | `int.Parse` on a digit group succeeds exactly when the numeral's value fits in an `int`, and returns that value (leading zeros ignored); otherwise it reports overflow |
| DotNetInt.ParseNumeralOfDigits | src/Umbraco.Core/Semver/Semver.cs:123-125 | `int.Parse` reads back every non-negative `int` that `int.ToString` wrote |
| DotNetInt.FormatInt32 | src/Umbraco.Core/Semver/Semver.cs:289 | an `int` renders as non-empty text that starts with a digit or `-` and ends with a digit; `-` appears exactly for negative numbers |
| DotNetInt.TryParseNumeral | src/Umbraco.Core/Semver/Semver.cs:422-423 | a digit string is int-parsable exactly when its value fits in 32 bits, and it parses to that value (leading zeros ignored) |
| DotNetInt.TryParseNegativeNumeral | src/Umbraco.Core/Semver/Semver.cs:422-423 | `-` followed by digits parses to the negated value when it fits |
| DotNetInt.TryParseFormat | src/Umbraco.Core/Semver/Semver.cs:422-423 | `int.TryParse` reads back every `int` that `int.ToString` wrote |
| DotNetInt.TryParseRejectsLetter | src/Umbraco.Core/Semver/Semver.cs:422-423 | a segment holding an ASCII letter anywhere is never numeric |
| DotNetText.JoinSplit | src/Umbraco.Core/Semver/Semver.cs:414-415 | `Split('.')` loses nothing: joining the pieces with the separator gives the text back, and no piece holds a separator |
| DotNetText.SplitWithout | src/Umbraco.Core/Semver/Semver.cs:414-415 | text without the separator splits into itself alone |
| DotNetText.SplitConcat | src/Umbraco.Core/Semver/Semver.cs:414-415 | splitting `u.v` gives the pieces of `u` followed by the pieces of `v` |
| DotNetText.CompareOrdinal | src/Umbraco.Core/Semver/Semver.cs:445 | ordinal comparison gives 0 exactly for equal texts |
| DotNetText.CompareOrdinalAntisymmetric | src/Umbraco.Core/Semver/Semver.cs:445 | swapping the arguments negates the result |
| DotNetText.CompareOrdinalTransitive | src/Umbraco.Core/Semver/Semver.cs:445 | the ordinal order is transitive |
| DotNetText.ReplaceAbsent | src/Umbraco.Core/HealthChecks/NotificationMethods/EmailNotificationMethod.cs:116 | `Replace` leaves text without the pattern unchanged |
| DotNetText.ReplaceInserts | src/Umbraco.Core/HealthChecks/NotificationMethods/EmailNotificationMethod.cs:116 | after `Replace`, text that held the pattern holds the replacement |
| DotNetText.ReplaceLeavesNo | src/Umbraco.Core/HealthChecks/NotificationMethods/EmailNotificationMethod.cs:116 | for a pattern, a replacement and a text `q` all anchored at one character `c` (it starts each and occurs nowhere else in it), where the replacement is at least as long as `q` and does not start with `q`: `Replace` leaves no occurrence of `q` when `q` is the pattern, and creates none when the input held none |
| DotNetText.ReplaceKeeps | src/Umbraco.Core/HealthChecks/NotificationMethods/EmailNotificationMethod.cs:116 | an anchored text that cannot overlap the pattern survives `Replace` |
| DotNetText.ReplaceCons | src/Umbraco.Core/HealthChecks/NotificationMethods/EmailNotificationMethod.cs:116 | where no occurrence of the pattern starts at the first character, `Replace` copies that character and goes on with the rest |
| DotNetText.ReplaceAtStart | src/Umbraco.Core/HealthChecks/NotificationMethods/EmailNotificationMethod.cs:116 | an occurrence at the start becomes the replacement, and `Replace` resumes right after it (occurrences do not overlap) |
| DotNetText.ReplaceSkipsPrefix | src/Umbraco.Core/HealthChecks/NotificationMethods/EmailNotificationMethod.cs:116 | a prefix without the pattern's first character is copied unchanged |
| DotNetText.ReplaceSkipsWord | src/Umbraco.Core/HealthChecks/NotificationMethods/EmailNotificationMethod.cs:116 | a word anchored like the pattern, that neither starts with it nor begins it, is copied unchanged |
| DotNetText.ContainsNotBlank | src/Umbraco.Core/HealthChecks/NotificationMethods/EmailNotificationMethod.cs:100 | text containing a pattern that starts with a non-blank character is not null-or-white-space |
| SemVer.SemVersion.ToString | src/Umbraco.Core/Semver/Semver.cs:287-301 | the text ends with `+build` when the build is non-empty, else with `-prerelease` when that is non-empty, else with a digit; `SemVerLaws.ToStringComposes` and `SemVerLaws.ParseToString` give its full shape and its inverse |
| SemVer.Create | src/Umbraco.Core/Semver/Semver.cs:63-71 | the constructor keeps the three numbers and stores a null prerelease or build as "" |
| SemVer.SemVersion.Change | src/Umbraco.Core/Semver/Semver.cs:233-239 | each supplied argument replaces its field; every other field is copied |
| SemVer.SemVersion.CompareByPrecedence | src/Umbraco.Core/Semver/Semver.cs:366-393 | precedence is -1, 0 or 1, and a null argument ranks below |
| SemVer.SemVersion.PrecedenceMatches | src/Umbraco.Core/Semver/Semver.cs:348-353 | matching precedence holds exactly for equal major, minor and patch and prereleases that tie as identifier lists; versions that differ only in build always match (the converse fails, see `SemVerLaws.CompareZeroIsNotEquality`) |
| SemVer.SemVersion.CompareTo | src/Umbraco.Core/Semver/Semver.cs:331-346 | the full order is -1, 0 or 1; a null argument ranks below; a nonzero precedence decides it |
| SemVer.SemVersion.Equals | src/Umbraco.Core/Semver/Semver.cs:463-482 | equality of the five fields (texts compared ordinally) is exactly value equality with a non-null argument |
| SemVer.Run | src/Umbraco.Core/Semver/Semver.cs:44-48 | a greedy character-class run is the longest prefix of the text in that class |
| SemVer.OptionalNumber | src/Umbraco.Core/Semver/Semver.cs:45-46 | the optional `\.\d+` group captures a digit run that is not followed by a digit, or is skipped, and loses no text |
| SemVer.OptionalTagged | src/Umbraco.Core/Semver/Semver.cs:47-48 | the optional `-`/`+` group captures a maximal run of identifier characters, is skipped, or cannot match; it loses no text |
| SemVer.MatchVersion | src/Umbraco.Core/Semver/Semver.cs:116-120 | the match fails on text not starting with a digit, and its major capture is the maximal leading digit run; `MatchVersionSound`/`MatchVersionComplete` pin the rest to the pattern |
| SemVer.MatchVersionSound | src/Umbraco.Core/Semver/Semver.cs:42-53 | every match yields captures the pattern can produce, and they spell out the whole text (`^…$`) |
| SemVer.MatchVersionComplete | src/Umbraco.Core/Semver/Semver.cs:42-53 | every text spelled by well-formed captures is matched, and back to the same captures |
| SemVer.OptionalNumberValue | src/Umbraco.Core/Semver/Semver.cs:128-156 | a present number group gives its numeral's value when that fits in an `int` and the overflow error otherwise; an absent one gives 0 in lenient mode and the strict-mode error otherwise |
| SemVer.ParseCaptures | src/Umbraco.Core/Semver/Semver.cs:122-161 | the version read from the captures holds the numerals' values (0 for an absent group) and the captured texts; it succeeds exactly when every numeral fits and, in strict mode, minor and patch are present; the failures follow the source order: major overflow, then the missing-minor error, then minor overflow, then the missing-patch error, then patch overflow; never a format error |
| SemVer.Parse | src/Umbraco.Core/Semver/Semver.cs:114-162 | the format error occurs exactly when the pattern does not match; a parsed version has non-negative numbers and identifier-character texts |
| SemVer.TryParse | src/Umbraco.Core/Semver/Semver.cs:175-187 | true with `Parse`'s version exactly where `Parse` succeeds, false with null otherwise |
| SemVer.IntCompare | src/Umbraco.Core/Semver/Semver.cs:373-389 | `int.CompareTo` is -1, 0 or 1, by the numeric order |
| SemVer.CompareSegment | src/Umbraco.Core/Semver/Semver.cs:420-450 | one identifier against another yields -1, 0 or 1 |
| SemVer.CompareSegments | src/Umbraco.Core/Semver/Semver.cs:414-453 | a list of identifiers against another yields -1, 0 or 1 |
| SemVer.ComponentOrder | src/Umbraco.Core/Semver/Semver.cs:395-412 | an empty component ranks above a non-empty one when `lower` is set and below it otherwise |
| SemVer.CompareComponent | src/Umbraco.Core/Semver/Semver.cs:395-454 | the loop over the split identifiers computes `ComponentOrder` |
| SemVer.Equals | src/Umbraco.Core/Semver/Semver.cs:195-203 | the static `Equals` holds exactly when both are null or both are equal versions |
| SemVer.Compare | src/Umbraco.Core/Semver/Semver.cs:214-222 | null equals null and ranks below any version; between a version and anything else it is that version's `CompareTo`, so the `CompareTo` order laws carry over |
| SemVer.GreaterThan | src/Umbraco.Core/Semver/Semver.cs:544 | `>`: null is above nothing, every version is above null, and between versions it is `CompareTo` giving 1 |
| SemVer.LessThan | src/Umbraco.Core/Semver/Semver.cs:560 | `<`: nothing is below null, null is below every version, and between versions it is `CompareTo` giving -1 |
| SemVer.EqualOp | src/Umbraco.Core/Semver/Semver.cs:528 | `==` is value equality, null included |
| SemVer.NotEqualOp | src/Umbraco.Core/Semver/Semver.cs:536 | `!=` is its negation |
| SemVer.GreaterOrEqual | src/Umbraco.Core/Semver/Semver.cs:552 | `>=` as written: equal versions, or `Compare` positive |
| SemVer.LessOrEqual | src/Umbraco.Core/Semver/Semver.cs:568 | `<=` as written: equal versions, or `Compare` negative |
| SemVer.AtLeast | src/Umbraco.Core/Semver/Semver.cs:552 | `>=` as intended: exactly when `<` does not hold |
| SemVer.AtMost | src/Umbraco.Core/Semver/Semver.cs:568 | `<=` as intended: exactly when `>` does not hold |
| SemVerLaws.NumeralsCompareByValue | src/Umbraco.Core/Semver/Semver.cs:422-430 | two int-parsable numerals compare by value |
| SemVerLaws.IntSegmentsCompareByValue | src/Umbraco.Core/Semver/Semver.cs:422-431 | any two int-parsable identifiers, signed ones included, compare by their `int` values, tying exactly for equal values |
| SemVerLaws.NumeralBelowWord | src/Umbraco.Core/Semver/Semver.cs:433-443 | a numeric identifier ranks below any identifier that is not int-parsable, in both argument orders |
| SemVerLaws.WordsCompareOrdinally | src/Umbraco.Core/Semver/Semver.cs:445-449 | identifiers that are not int-parsable compare ordinally |
| SemVerLaws.EmptyAndSignAreWords | src/Umbraco.Core/Semver/Semver.cs:422-423 | the empty identifier and a lone `-` or `+` are not int-parsable, so they compare as words |
| SemVerLaws.OverflowNumeralIsWord | src/Umbraco.Core/Semver/Semver.cs:422-449 | a digit string too large for `int` is not numeric: it ranks above every numeral that fits, and two such numerals compare ordinally |
| SemVerLaws.OverflowNumeralsOrderOrdinally | src/Umbraco.Core/Semver/Semver.cs:422-449 | hence `99999999999` ranks above `100000000000`, against numeric order |
| SemVerLaws.LeadingDigitBound | src/Umbraco.Core/Semver/Semver.cs:422-423 | a numeral of 11 or more digits without a leading zero exceeds `int.MaxValue` |
| SemVerLaws.CompareSegmentAntisymmetric | src/Umbraco.Core/Semver/Semver.cs:420-450 | swapping two identifiers negates their comparison |
| SemVerLaws.CompareSegmentTransitive | src/Umbraco.Core/Semver/Semver.cs:420-450 | the identifier order is transitive, strictly when either step is strict |
| SemVer.CompareSegmentsReflexive | src/Umbraco.Core/Semver/Semver.cs:418-453 | a list of identifiers ties with itself |
| SemVerLaws.CompareSegmentsAntisymmetric | src/Umbraco.Core/Semver/Semver.cs:418-453 | swapping two lists negates their comparison |
| SemVerLaws.CompareSegmentsTransitive | src/Umbraco.Core/Semver/Semver.cs:418-453 | the lexicographic list order is transitive |
| SemVer.ComponentOrderReflexive | src/Umbraco.Core/Semver/Semver.cs:395-454 | a component ties with itself |
| SemVerLaws.ComponentOrderAntisymmetric | src/Umbraco.Core/Semver/Semver.cs:395-454 | swapping two components negates their comparison |
| SemVerLaws.ComponentOrderTransitive | src/Umbraco.Core/Semver/Semver.cs:395-454 | the component order is transitive |
| SemVerLaws.PrecedenceNumbersFirst | src/Umbraco.Core/Semver/Semver.cs:373-389 | a lexicographically lower (major, minor, patch) has lower precedence and a lower full order |
| SemVerLaws.ReleaseOutranksPrerelease | src/Umbraco.Core/Semver/Semver.cs:391-407 | with equal numbers, a release outranks each of its prereleases |
| SemVerLaws.PrecedenceIgnoresBuild | src/Umbraco.Core/Semver/Semver.cs:366-393 | changing either build leaves precedence unchanged |
| SemVerLaws.PrecedenceReflexive | src/Umbraco.Core/Semver/Semver.cs:366-393 | a version has its own precedence |
| SemVerLaws.PrecedenceAntisymmetric | src/Umbraco.Core/Semver/Semver.cs:366-393 | swapping two versions negates their precedence comparison |
| SemVerLaws.PrecedenceTransitive | src/Umbraco.Core/Semver/Semver.cs:366-393 | precedence is transitive |
| SemVerLaws.EmptyBuildRanksLower | src/Umbraco.Core/Semver/Semver.cs:344 | with equal precedence, no build ranks below a build |
| SemVerLaws.CompareToReflexive | src/Umbraco.Core/Semver/Semver.cs:331-346 | a version ties with itself |
| SemVerLaws.CompareToAntisymmetric | src/Umbraco.Core/Semver/Semver.cs:331-346 | swapping two versions negates `CompareTo` |
| SemVerLaws.CompareToTransitive | src/Umbraco.Core/Semver/Semver.cs:331-346 | `CompareTo` is transitive, strictly when either step is strict |
| SemVerLaws.CompareAntisymmetric | src/Umbraco.Core/Semver/Semver.cs:214-222 | the static `Compare` is antisymmetric, null included |
| SemVerLaws.EqualsComparesZero | src/Umbraco.Core/Semver/Semver.cs:195-222 | equal versions compare as 0 |
| SemVerLaws.CompareZeroIsNotEquality | src/Umbraco.Core/Semver/Semver.cs:422-430 | `1.0.0-01` and `1.0.0-1` compare as 0 and match in precedence, but are not equal |
| SemVerLaws.LongerPrereleaseRanksHigher | src/Umbraco.Core/Semver/Semver.cs:414-453 | adding identifiers to a non-empty prerelease puts it higher in the component order and raises the version's precedence (`alpha` < `alpha.1`) |
| SemVerLaws.CompareSegmentsFirstDifference | src/Umbraco.Core/Semver/Semver.cs:418-451 | the first position at which two identifier lists differ decides their order |
| SemVerLaws.CompareSegmentsAllTie | src/Umbraco.Core/Semver/Semver.cs:418-453 | when every position both lists have ties, the list with fewer identifiers is lower |
| SemVerLaws.PrereleaseDecidesPrecedence | src/Umbraco.Core/Semver/Semver.cs:366-393 | with equal numbers, two non-empty prereleases decide precedence as identifier lists |
| SemVerLaws.BuildDecidesTie | src/Umbraco.Core/Semver/Semver.cs:331-346 | with equal precedence, two non-empty builds decide the full order as identifier lists |
| SemVerLaws.AlphaNumeralBelowAlphaWord | src/Umbraco.Core/Semver/Semver.cs:414-453 | `1.0.0-alpha.1` ranks below `1.0.0-alpha.beta` |
| SemVerLaws.CompareSegmentsPrefix | src/Umbraco.Core/Semver/Semver.cs:453 | a list of identifiers ranks below every proper extension of it |
| SemVerLaws.GreaterIsMirroredLess | src/Umbraco.Core/Semver/Semver.cs:544-560 | `a > b` exactly when `b < a`, and never together with `a < b` |
| SemVerLaws.GreaterOrEqualSound | src/Umbraco.Core/Semver/Semver.cs:552-568 | `>=` and `<=` as written imply the matching sign of `Compare` |
| SemVerLaws.GreaterOrEqualNotTotal | src/Umbraco.Core/Semver/Semver.cs:552-568 | for `1.0.0-01` and `1.0.0-1`, none of `>=` (either way), `<=` or `<` (either way) holds |
| SemVerLaws.AtLeastTotal | src/Umbraco.Core/Semver/Semver.cs:552-568 | the intended `>=`/`<=` are total, mirror each other, and agree with `Compare` and with the written `>=` wherever `Compare` is nonzero |
| SemVerLaws.ToStringComposes | src/Umbraco.Core/Semver/Semver.cs:287-301 | `ToString` writes the text that the pattern's captures of the three numerals and two texts spell |
| SemVerLaws.ParseToString | src/Umbraco.Core/Semver/Semver.cs:114-162 | in either mode, `Parse` reads back `ToString` of any version with non-negative numbers and identifier-character texts |
| SemVerLaws.ParseCanonical | src/Umbraco.Core/Semver/Semver.cs:114-162 | rendering a parsed version and parsing again gives the same version, whatever the two modes |
| SemVerLaws.ParseInvalidExactly | src/Umbraco.Core/Semver/Semver.cs:116-120 | the format error occurs exactly for texts that no well-formed captures spell |
| SemVerLaws.ParseOfMatch | src/Umbraco.Core/Semver/Semver.cs:122-161 | on a matching text, `Parse` reads the captures |
| SemVerLaws.StrictAgreesWithLenient | src/Umbraco.Core/Semver/Semver.cs:128-156 | where strict mode succeeds, lenient mode gives the same version |
| SemVerLaws.MissingMinor | src/Umbraco.Core/Semver/Semver.cs:128-141 | without a minor group, strict mode fails with the minor error; lenient mode reads `major.0.0`, with major the numeral's value |
| SemVerLaws.MissingPatch | src/Umbraco.Core/Semver/Semver.cs:143-156 | without a patch group, strict mode fails with the patch error; lenient mode reads `major.minor.0` with the numerals' values |
| SemVerLaws.ParseReadsNumerals | src/Umbraco.Core/Semver/Semver.cs:122-156 | a parsed version holds the values of the matched numerals (`01.2.3` reads as 1.2.3), 0 for an absent group, and its major is the text's leading digit run |
| SemVerLaws.OverflowReported | src/Umbraco.Core/Semver/Semver.cs:123-125 | a major numeral above `int.MaxValue` is an overflow, in either mode |
| Migrations.MigrationContext.EndExpression | src/Umbraco.Infrastructure/Migrations/AsyncMigrationBase.cs:106-107 | a builder's `Do()` leaves the latch clear, so the check that follows passes |
| Migrations.BeginOn | src/Umbraco.Infrastructure/Migrations/AsyncMigrationBase.cs:130-139 | taking a builder succeeds exactly when the latch is clear, returns the builder unchanged, and leaves the latch set |
| Migrations.Apply | src/Umbraco.Infrastructure/Migrations/AsyncMigrationBase.cs:130-139 | one body step throws exactly when it takes a builder while the latch is set; otherwise it gives the latch's new value |
| Migrations.Exec | src/Umbraco.Infrastructure/Migrations/AsyncMigrationBase.cs:126 | a body can fail only with the previous-expression error, with the latch set |
| Migrations.Run | src/Umbraco.Infrastructure/Migrations/AsyncMigrationBase.cs:101-111 | the run ends in the body's state, and passes only with the latch clear |
| Migrations.Migration.constructor | src/Umbraco.Infrastructure/Migrations/AsyncMigrationBase.cs:25-26 | a migration keeps its context; both flags start false |
| Migrations.Migration.BeginBuild | src/Umbraco.Infrastructure/Migrations/AsyncMigrationBase.cs:130-139 | `BeginBuild` throws on a set latch; otherwise it sets the latch and returns the builder (as `BeginOn`) |
| Migrations.Migration.GetAlter | src/Umbraco.Infrastructure/Migrations/AsyncMigrationBase.cs:31 | `Alter` goes through `BeginBuild` with a fresh Alter builder |
| Migrations.Migration.GetCreate | src/Umbraco.Infrastructure/Migrations/AsyncMigrationBase.cs:61 | `Create` goes through `BeginBuild` with a fresh Create builder |
| Migrations.Migration.GetDelete | src/Umbraco.Infrastructure/Migrations/AsyncMigrationBase.cs:66 | `Delete` goes through `BeginBuild` with a fresh Delete builder |
| Migrations.Migration.GetExecute | src/Umbraco.Infrastructure/Migrations/AsyncMigrationBase.cs:71 | `Execute` goes through `BeginBuild` with a fresh Execute builder |
| Migrations.Migration.GetInsert | src/Umbraco.Infrastructure/Migrations/AsyncMigrationBase.cs:76 | `Insert` goes through `BeginBuild` with a fresh Insert builder |
| Migrations.Migration.GetRename | src/Umbraco.Infrastructure/Migrations/AsyncMigrationBase.cs:81 | `Rename` goes through `BeginBuild` with a fresh Rename builder |
| Migrations.Migration.GetUpdate | src/Umbraco.Infrastructure/Migrations/AsyncMigrationBase.cs:86 | `Update` goes through `BeginBuild` with a fresh Update builder |
| Migrations.Migration.Take | src/Umbraco.Infrastructure/Migrations/AsyncMigrationBase.cs:31-86 | each of the seven accessors behaves as `BeginBuild` on a builder of its kind |
| Migrations.Migration.MigrateAsync | src/Umbraco.Infrastructure/Migrations/AsyncMigrationBase.cs:126 | the body's steps run in order on the context and the flags, stopping at the first throw, as `Exec` says |
| Migrations.Migration.RunAsync | src/Umbraco.Infrastructure/Migrations/AsyncMigrationBase.cs:101-111 | the body, then the left-not-run error when the latch is still set, as `Run` says |
| MigrationLaws.ExecAppend | src/Umbraco.Infrastructure/Migrations/AsyncMigrationBase.cs:126 | running two parts of a body in turn is running the whole body |
| MigrationLaws.RunPassesIffCloses | src/Umbraco.Infrastructure/Migrations/AsyncMigrationBase.cs:101-111 | `RunAsync` passes exactly for bodies that run each builder before taking the next one and before returning |
| MigrationLaws.BeginWhileBuildingFails | src/Umbraco.Infrastructure/Migrations/AsyncMigrationBase.cs:130-135 | a builder taken while the latch is set and not run since throws the previous-expression error |
| MigrationLaws.SecondBuilderFails | src/Umbraco.Infrastructure/Migrations/AsyncMigrationBase.cs:130-135 | taking two builders with no `Do()` between them throws the previous-expression error |
| MigrationLaws.TrailingBuilderReported | src/Umbraco.Infrastructure/Migrations/AsyncMigrationBase.cs:107-110 | a well-closed body followed by a builder never run passes the body but fails the run with the left-not-run error |
| MigrationLaws.FlagsKeepLastAssignment | src/Umbraco.Infrastructure/Migrations/AsyncMigrationBase.cs:91-96 | after a body that does not throw, `RebuildCache` and `InvalidateBackofficeUserAccess` hold the last value it assigned; the latch handling never changes them |
| EmailNotification.ApplyHtmlHighlightingForStatus | src/Umbraco.Core/HealthChecks/NotificationMethods/EmailNotificationMethod.cs:115-116 | text without the status marker is unchanged; text with it gains the coloured highlight; for a colour without `R`, no marker of that status is left |
| EmailNotification.HighlightForStatusInPlace | src/Umbraco.Core/HealthChecks/NotificationMethods/EmailNotificationMethod.cs:115-116 | a marker of the status is replaced where it stands: text before it without an `R` is kept, and the rest is processed on its own |
| EmailNotification.StepCons | src/Umbraco.Core/HealthChecks/NotificationMethods/EmailNotificationMethod.cs:110-112 | a character that starts no marker of the step's status is copied, and afterwards still starts no marker it did not start before |
| EmailNotification.StepOverMarker | src/Umbraco.Core/HealthChecks/NotificationMethods/EmailNotificationMethod.cs:110-112 | a marker of another status passes through a step unchanged |
| EmailNotification.StepOverHighlight | src/Umbraco.Core/HealthChecks/NotificationMethods/EmailNotificationMethod.cs:110-112 | a highlight made by an earlier step passes through a later step unchanged |
| EmailNotification.StepAtMarker | src/Umbraco.Core/HealthChecks/NotificationMethods/EmailNotificationMethod.cs:115-116 | a step turns a marker of its status at the start into its highlight |
| EmailNotification.StepKeeps | src/Umbraco.Core/HealthChecks/NotificationMethods/EmailNotificationMethod.cs:110-112 | one highlighting step keeps the markers of the other statuses and every earlier highlight |
| EmailNotification.StepAddsNoMarker | src/Umbraco.Core/HealthChecks/NotificationMethods/EmailNotificationMethod.cs:110-112 | a highlighting step creates no marker that was not there |
| EmailNotification.NoMarkerLeft | src/Umbraco.Core/HealthChecks/NotificationMethods/EmailNotificationMethod.cs:110-112 | after Success, Warning and Error in turn, no marker of any of the three is left |
| EmailNotification.HighlightReached | src/Umbraco.Core/HealthChecks/NotificationMethods/EmailNotificationMethod.cs:110-112 | after the three steps, every status whose marker the report held shows its own colour |
| EmailNotification.ApplyHtmlHighlighting | src/Umbraco.Core/HealthChecks/NotificationMethods/EmailNotificationMethod.cs:104-113 | no marker is left; each status that had a marker gains its coloured highlight (5cb85c, f0ad4e, d9534f); a report without markers is unchanged |
| EmailNotification.HighlightingCons | src/Umbraco.Core/HealthChecks/NotificationMethods/EmailNotificationMethod.cs:104-113 | a report that starts with no marker keeps its first character, and the rest is highlighted on its own |
| EmailNotification.HighlightingAtMarker | src/Umbraco.Core/HealthChecks/NotificationMethods/EmailNotificationMethod.cs:104-113 | a report that starts with a marker has it replaced by that status's coloured highlight, and the rest is highlighted on its own; with `HighlightingCons` and the empty report this determines the whole result |
| EmailNotification.HighlightingInPlace | src/Umbraco.Core/HealthChecks/NotificationMethods/EmailNotificationMethod.cs:104-113 | each marker is replaced where it stands: text before it without an `R` is kept unchanged |
| EmailNotification.MailSubject | src/Umbraco.Core/HealthChecks/NotificationMethods/EmailNotificationMethod.cs:95-98 | a null or blank subject becomes "Umbraco Health Check Status"; any other passes through; the result is never blank |
| EmailNotification.IsBodyHtml | src/Umbraco.Core/HealthChecks/NotificationMethods/EmailNotificationMethod.cs:100 | the body is HTML exactly when it is non-null and holds `</` (which implies non-blank and `<`) |
| EmailNotification.EmailNotificationMethod.constructor | src/Umbraco.Core/HealthChecks/NotificationMethods/EmailNotificationMethod.cs:22-47 | a blank recipient setting disables the method and leaves the recipient null and no callback registered; otherwise the recipient and sender are kept and settings changes are followed |
| EmailNotification.EmailNotificationMethod.ContentSettingsChanged | src/Umbraco.Core/HealthChecks/NotificationMethods/EmailNotificationMethod.cs:46 | new content settings replace the sender address only when the callback was registered; nothing else changes |
| EmailNotification.EmailNotificationMethod.CreateMailMessage | src/Umbraco.Core/HealthChecks/NotificationMethods/EmailNotificationMethod.cs:91-102 | the mail goes from the sender address to the recipient with the given body; its subject is the given one when that is not blank, and "Umbraco Health Check Status" when it is null or blank; it is HTML exactly when the body holds `</` |
| EmailNotification.EmailNotificationMethod.SendAsync | src/Umbraco.Core/HealthChecks/NotificationMethods/EmailNotificationMethod.cs:51-89 | a mail is sent exactly when the results should be sent and the recipient is not null or empty; it is the mail built from the highlighted report, with the default subject when the localized one is blank |
| EmailNotification.HighlightedReportIsHtml | tests/Umbraco.Tests.UnitTests/Umbraco.Core/HealthChecks/EmailNotificationMethodTests.cs:104-108 | a body holding the highlighted report of all three markers shows the three coloured status elements and is sent as HTML |

## Left out

- The version pattern's `\d` also matches non-ASCII Unicode digits, and `$` also matches before a final newline. The model matches ASCII digits and the true end of text only.
- `int.TryParse` in `CompareComponent` uses the current culture's sign symbols and accepts trailing NUL characters. The model uses the invariant culture (ASCII `+`/`-`, white space U+0009–U+000D and U+0020) and no NULs.
- DotNetInt.FormatInt32: writes a negative number with `-`. `ToString` at Semver.cs:289 formats with the current culture, whose negative sign may differ; non-negative numbers, which are all `Parse` produces, render the same in every culture.
- DotNetText.CompareOrdinal: returns only the sign (-1, 0, 1) of `string.CompareOrdinal`. .NET documents only the sign, and may return other magnitudes.
- Characters are Unicode scalar values, not UTF-16 code units. Texts outside the Basic Multilingual Plane may therefore order differently than in .NET.
- SemVer.SemVersion.CompareTo: states the result is -1, 0 or 1. The source passes `CompareOrdinal`'s result through unchanged, so it can have a larger magnitude with the same sign. The same holds for SemVer.SemVersion.CompareByPrecedence, SemVer.CompareComponent and SemVer.Compare.
- `GetHashCode`, `GetObjectData` (serialization), the `SemVersion(System.Version)` constructor, `CompareTo(object)` and the cast in `Equals(object)` are left out:
  - they are hashing, serialization and foreign types;
  - a non-`SemVersion` argument throws `InvalidCastException` in the source;
  - the `ReferenceEquals` shortcut in `Equals(object)` has no observable effect.
- SemVer.Parse and SemVer.TryParse: take a non-null version string. In the source a null string makes the regex match throw `ArgumentNullException`, which `TryParse` catches and turns into false with a null version; that path is not modelled.
- The implicit conversion from `string` (line 520) is `Parse` in lenient mode. It is not a separate member.
- Several parts of the migrations are not modelled:
  - the builders' `Do()` beyond clearing the latch;
  - SQL rendering;
  - the `Logger`, `SqlSyntax`, `Database` and `DatabaseType` accessors;
  - `Sql()`;
  - asynchronous execution;
  - exceptions thrown by a migration body other than the two latch errors.

  A migration body is a script of builder takes, `Do()` calls and flag assignments.
- The following services are outside the model:
  - e-mail delivery (`IEmailSender`): `SendAsync` returns the message it would hand over;
  - localization (`ILocalizedTextService`): the localized body template (a function of the highlighted report) and the localized subject are parameters;
  - the Markdown rendering of the results: the converted HTML is a parameter;
  - `DateTime.Now` and the application URL;
  - `NotificationMethodBase.ShouldSend` and `Verbosity`: the decision is a parameter.
- The constructor's lookup `Settings?["RecipientEmail"]` is passed in as its result. A missing key throws `KeyNotFoundException` in the source, and that is not modelled. The `ArgumentNullException`s for null services are not modelled either.
- The `EmailMessage` class is not part of this model. Its first two constructor arguments are taken to be the sender and the recipient, in that order.
- EmailNotification.ApplyHtmlHighlightingForStatus: promises that no marker is left only for a colour without the letter `R`. The three colours used qualify.
- `StatusResultType` values other than Success, Warning and Error are not modelled. The source never highlights their markers.

## Findings

| source | as written | input that shows it | evidently intended | confidence | as-written member | corrected member |
|---|---|---|---|---|---|---|
| src/Umbraco.Core/Semver/Semver.cs:552 | `left >= right` is `left == right \|\| left > right`. `==` is field equality, but `>` follows `Compare`, which treats `01` and `1` as the same identifier. | `a = 1.0.0-01`, `b = 1.0.0-1`: `Compare(a, b) == 0` and `a != b`, so neither `a >= b` nor `b >= a` holds, and neither `a < b` nor `b < a` | `left >= right` exactly when not `left < right`, so that `>=` is total and consistent with `<` | medium; not executed | SemVerLaws.GreaterOrEqualNotTotal | SemVerLaws.AtLeastTotal |
| src/Umbraco.Core/Semver/Semver.cs:568 | `left <= right` is `left == right \|\| left < right`, with the same mix of field equality and `Compare` | the same pair: `a <= b` fails, although `a > b` fails too | `left <= right` exactly when not `left > right` | medium; not executed | SemVerLaws.GreaterOrEqualNotTotal | SemVerLaws.AtLeastTotal |
