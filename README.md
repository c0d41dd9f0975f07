# ApprovalResults qualifiers in Dafny

ApprovalTests names every approved file after the test that produced it. `ApprovalResults`
adds qualifiers to that name, so that one test can keep separate approved files per scenario,
machine, user, operating system, .NET version or runtime. Each qualifier is a short string
such as `ForScenario.invalid_chars`, `ForMachine.build01`, `Windows_7`, `Net_4.8` or
`NetCore_3.1`. This project models how those strings are built and proves what they look
like.

Four modules, one per file:

- `Wrappers` (`wrappers.dfy`): `Option` and `Result`. `None` stands for a C# `null` and `Err`
  for an exception that escapes.
- `Strings` (`strings.dfy`): the .NET string operations the qualifiers rely on:
  - ordinal and ASCII case-insensitive `StartsWith`;
  - `Trim` with the .NET white-space set;
  - `Replace(char, char)` and `Replace(string, string)`;
  - `Split` with and without `RemoveEmptyEntries`;
  - `Array.IndexOf` and `string.Join`.
- `Versions` (`versions.dfy`): the part of `System.Version` that is used. It covers parsing
  `major.minor[.build[.revision]]`, `ToString()` and decimal formatting. Parsing what
  `ToString()` prints gives the version back.
- `ApprovalResults` (`approval_results.dfy`): the qualifier functions themselves.

Every value the C# code reads from the machine is a parameter of the model. These are the
host name, the user name, `Environment.Version`, `RuntimeInformation.FrameworkDescription`,
the core library's `Assembly.CodeBase` and the WMI operating-system caption. The platform's
set of invalid file-name characters is a parameter too. Where a property needs it, the set is
assumed to contain neither `_` nor `.` (`SafeInvalidSet`). Both platform sets meet that
assumption (`PlatformInvalidSets`).

Runtime behaviours the model makes explicit:

- A description such as `.NET FRAMEWORK 4.8` passes the case-insensitive prefix test. The
  `Replace` that follows is case-sensitive, though, so the text stays unparsable. The call
  fails even when `throwOnError` is false (`RuntimeOfUpperCaseFramework`).
- Suppose a `.NET Core` description comes with a code base that has no usable
  `Microsoft.NETCore.App/<version>` segment. `GetNetCoreVersion` then returns `null`, and
  reading `Major` from it fails in both modes (`RuntimeOfCoreWithoutVersion`).
- On a recognised description the two modes give the same result. `throwOnError` changes
  the result only for unrecognised descriptions (`RuntimeThrowOnErrorOnlyForUnknown`).

Three more facts about the code:

- It accepts an empty list of scenario parts, which gives the name `ForScenario.`
  (`ForScenarioParts`).
- It does not scrub machine or user names (`GetMachineName`, `GetUserName`).
- It gives the OS qualifiers no error path: any caption yields a name.

Version labels are printed the way `int.ToString()` prints numbers, with no leading zeros.
The version parser is more lenient than that (`ParseComponentLeadingZero`). So the contracts
state the printed form itself (`CanonicalNumeral`, `CanonicalVersionText`), and not only that
the label parses back. Two concrete labels are proved: `Net_4.8` for .NET Framework 4.8
(`RuntimeExampleFramework`) and `NetCore_3.1` for a .NET Core 3.1 install
(`RuntimeExampleCore`).

## Model

| member | source | states |
|---|---|---|
| ApprovalResults.Scrub | ApprovalTests/Namers/ApprovalResults.cs:139-144 | the result has the input's length; at every index it holds `_` if the input character is invalid, and otherwise that character |
| ApprovalResults.ScrubLeavesNoInvalid | ApprovalTests/Namers/ApprovalResults.cs:141-143 | if `_` is not invalid, no invalid character is left in the scrubbed text (`.` may be invalid here) |
| ApprovalResults.ScrubKeepsValid | ApprovalTests/Namers/ApprovalResults.cs:142 | a text without invalid characters is returned unchanged |
| ApprovalResults.ScrubIdempotent | ApprovalTests/Namers/ApprovalResults.cs:139-144 | scrubbing twice equals scrubbing once |
| ApprovalResults.ScrubAppend | ApprovalTests/Namers/ApprovalResults.cs:142 | scrubbing a concatenation equals concatenating the scrubbed pieces |
| ApprovalResults.PlatformInvalidSets | ApprovalTests/Namers/ApprovalResults.cs:141 | the Windows and Unix invalid sets exclude `_`, `.`, letters and digits, and both contain `/` |
| ApprovalResults.ForScenario | ApprovalTests/Namers/ApprovalResults.cs:127-131 | the name starts with the unscrubbed `ForScenario.`; it then holds the data, with each invalid character replaced by `_` and the rest kept |
| ApprovalResults.ForScenarioParts | ApprovalTests/Namers/ApprovalResults.cs:133-137 | the multi-part name starts with `ForScenario.` and is as long as the prefix plus the dot-joined parts |
| ApprovalResults.ScrubJoin | ApprovalTests/Namers/ApprovalResults.cs:133-137 | if `.` is not invalid, scrubbing the dot-joined parts equals dot-joining the scrubbed parts |
| ApprovalResults.ForScenarioPartsIsJoinOfScrubbed | ApprovalTests/Namers/ApprovalResults.cs:133-137 | the multi-part name is `ForScenario.` followed by the scrubbed parts, separated by `.` characters that scrubbing leaves alone |
| ApprovalResults.ForScenarioOfValid | ApprovalTests/Namers/ApprovalResults.cs:129 | a label without invalid characters is appended verbatim |
| ApprovalResults.ForScenarioOfOneInvalid | ApprovalTests/Namers/ApprovalResults.cs:129 | an invalid character between two valid runs is the only character replaced |
| ApprovalResults.LettersKept | ApprovalTests/Namers/ApprovalResults.cs:142 | letters and digits are never scrubbed when the invalid set has none |
| ApprovalResults.ScenarioExampleName | ApprovalTests.Tests/Namer/AdditionalInformationTests.cs:36-39 | `scenarioname` gives `ForScenario.scenarioname` |
| ApprovalResults.ScenarioExampleScrubbed | ApprovalTests.Tests/Namer/AdditionalInformationTests.cs:47-51 | `invalid/chars` gives `ForScenario.invalid_chars` |
| ApprovalResults.ScenarioExampleParts | ApprovalTests.Tests/Namer/AdditionalInformationTests.cs:56-62 | the parts `foo`, `bar` give `ForScenario.foo.bar` |
| ApprovalResults.GetMachineName | ApprovalTests/Namers/ApprovalResults.cs:83-86 | the result starts with `ForMachine.` and the rest is the host name, unscrubbed |
| ApprovalResults.GetUserName | ApprovalTests/Namers/ApprovalResults.cs:117-120 | the result starts with `ForUser.` and the rest is the user name, unscrubbed |
| ApprovalResults.GetDotNetVersion | ApprovalTests/Namers/ApprovalResults.cs:21-24 | the result starts with `Net_v`; the rest is in the printed form (canonical numerals, two to four fields) and parses back to the environment's version, which by `CanonicalVersionTextIsToString` fixes the text |
| ApprovalResults.QualifierKindsDisjoint | ApprovalTests/Namers/ApprovalResults.cs:83-86 | machine, user, scenario and version qualifiers never coincide; distinct host names and distinct user names give distinct qualifiers |
| ApprovalResults.FirstKnownFrom | ApprovalTests/Namers/ApprovalResults.cs:103 | the `FirstOrDefault` search returns -1 or a matching index, and no index it passed over matches |
| ApprovalResults.TransformEasyOsName | ApprovalTests/Namers/ApprovalResults.cs:100-110 | if edition `i` is the first in list order whose caption starts the input, the result is `Windows <edition i>`; if none matches, the input is returned unchanged |
| ApprovalResults.KnownWindowsPrefixFree | ApprovalTests/Namers/ApprovalResults.cs:102 | no known edition name is a prefix of another |
| ApprovalResults.KnownMatchUnique | ApprovalTests/Namers/ApprovalResults.cs:102-103 | a caption matches at most one known edition, so the search order cannot change the result |
| ApprovalResults.NormalizeOsName | ApprovalTests/Namers/ApprovalResults.cs:91 | trim then space-to-`_` leaves no space and no white space at either end, never lengthens the text, and is empty exactly for all-white-space input |
| ApprovalResults.TrimmedIsFixed | ApprovalTests/Namers/ApprovalResults.cs:91 | a text with no white space at either end is unchanged by `Trim` |
| ApprovalResults.NormalizeOsNameIdempotent | ApprovalTests/Namers/ApprovalResults.cs:91 | normalising a normalised name changes nothing |
| ApprovalResults.GetOsName | ApprovalTests/Namers/ApprovalResults.cs:88-92 | the short OS name has no space and no white space at either end |
| ApprovalResults.GetFullOsName | ApprovalTests/Namers/ApprovalResults.cs:94-98 | the full OS name has no space, no white space at either end, and is no longer than the caption |
| ApprovalResults.OsNamesAgreeWhenUnknown | ApprovalTests/Namers/ApprovalResults.cs:88-98 | for a caption of no known edition, the short and full OS names are equal |
| ApprovalResults.OsNameOfKnownEdition | ApprovalTests/Namers/ApprovalResults.cs:88-92 | for a caption of a known edition, the short OS name depends only on the edition |
| ApprovalResults.OsNameExampleSeven | ApprovalTests/Namers/ApprovalResults.cs:100-110 | `Microsoft Windows 7 Professional` becomes `Windows 7` |
| ApprovalResults.OsNameExampleTen | ApprovalTests/Namers/ApprovalResults.cs:100-110 | `Microsoft Windows 10 Pro` matches no edition and is kept whole |
| ApprovalResults.OsNameExampleServer | ApprovalTests/Namers/ApprovalResults.cs:88-92 | `Microsoft Windows Server 2012 R2 Standard` gives the OS name `Windows_Server_2012` |
| ApprovalResults.GetNetCoreVersion | ApprovalTests/Namers/ApprovalResults.cs:62-76 | the result is non-null exactly when the first `Microsoft.NETCore.App` among the non-empty segments sits at some `i` with `0 < i < len-2` and segment `i+1` parses; it is then that parse; with no such segment it is null |
| ApprovalResults.GetDotNetRuntime | ApprovalTests/Namers/ApprovalResults.cs:31-60 | framework prefix (any case): succeeds exactly when the version text parses, giving `Net_` followed by the canonical decimal major, `.` and minor; otherwise core prefix: succeeds exactly when a core version is found, giving `NetCore_` followed by them; the suffix parses back to major and minor; otherwise it fails iff `throwOnError`, and returns the description unchanged when `throwOnError` is false |
| ApprovalResults.RuntimePrefixesExclusive | ApprovalTests/Namers/ApprovalResults.cs:34-44 | no description has both the framework and the core prefix |
| ApprovalResults.RuntimeThrowOnErrorOnlyForUnknown | ApprovalTests/Namers/ApprovalResults.cs:46-59 | both modes give the same result exactly when the description has a recognised prefix |
| ApprovalResults.RuntimeOfFramework | ApprovalTests/Namers/ApprovalResults.cs:34-38 | `.NET Framework <v>` is labelled `Net_<major>.<minor>` of `v`, in both modes |
| ApprovalResults.RuntimeOfUpperCaseFramework | ApprovalTests/Namers/ApprovalResults.cs:34-36 | `.NET FRAMEWORK 4.8` is accepted by the prefix test but fails to parse, in both modes |
| ApprovalResults.RuntimeOfCoreWithoutVersion | ApprovalTests/Namers/ApprovalResults.cs:40-44 | a core description whose code base yields no version fails in both modes |
| ApprovalResults.CoreInstallSegments | ApprovalTests/Namers/ApprovalResults.cs:65 | splitting an install path gives its non-empty directories, then `Microsoft.NETCore.App`, the version and the file |
| ApprovalResults.NetCoreVersionOfInstall | ApprovalTests/Namers/ApprovalResults.cs:62-76 | the version directory of an install path is the version found |
| ApprovalResults.RuntimeOfCoreInstall | ApprovalTests/Namers/ApprovalResults.cs:40-44 | any core description is labelled `NetCore_<major>.<minor>` of the install's version, in both modes |
| ApprovalResults.FrameworkVersionText | ApprovalTests/Namers/ApprovalResults.cs:36 | removing `.NET Framework ` never lengthens the description; `RuntimeOfFramework` and `UpperCaseFrameworkText` give its value for printed and upper-case descriptions |
| ApprovalResults.RuntimeExampleFramework | ApprovalTests/Namers/ApprovalResults.cs:34-38 | `.NET Framework 4.8.4250.0` is labelled `Net_4.8`, in both modes |
| ApprovalResults.RuntimeExampleCore | ApprovalTests/Namers/ApprovalResults.cs:40-43 | `.NET Core 3.1.32` with the code base `file:///usr/share/dotnet/shared/Microsoft.NETCore.App/3.1.32/System.Private.CoreLib.dll` is labelled `NetCore_3.1`, in both modes |
| Strings.StartsWith | ApprovalTests/Namers/ApprovalResults.cs:103 | the ordinal prefix test: `p` is no longer than `s` and equals its first `|p|` characters |
| Strings.StartsWithIgnoreCase | ApprovalTests/Namers/ApprovalResults.cs:34 | the `OrdinalIgnoreCase` prefix test: characters agree after ASCII upper-casing; `StartsWithIsIgnoreCase` and `RuntimePrefixesExclusive` are proved about it |
| Strings.StartsWithIsIgnoreCase | ApprovalTests/Namers/ApprovalResults.cs:34 | an exact prefix is also a case-insensitive prefix |
| Strings.IsWhiteSpace | ApprovalTests/Namers/ApprovalResults.cs:91 | the `char.IsWhiteSpace` set: U+0009 to U+000D, U+0020, U+0085, U+00A0, U+1680, U+2000 to U+200A, U+2028, U+2029, U+202F, U+205F and U+3000 |
| Strings.Trim | ApprovalTests/Namers/ApprovalResults.cs:91 | the result is the slice from the first to the last non-white-space character; it is empty iff the text is all white space |
| Strings.ReplaceChar | ApprovalTests/Namers/ApprovalResults.cs:91 | length is kept; each `from` becomes `to` and every other character is kept |
| Strings.ReplaceAll | ApprovalTests/Namers/ApprovalResults.cs:36 | replacing a pattern by itself changes nothing, and a replacement no longer than the pattern never lengthens the text |
| Strings.ReplaceAllAbsent | ApprovalTests/Namers/ApprovalResults.cs:36 | a text lacking some character of the pattern is unchanged by `Replace` |
| Strings.ReplaceAllLeading | ApprovalTests/Namers/ApprovalResults.cs:36 | a leading occurrence of the pattern is replaced, and the scan continues after it |
| Strings.Fields | ApprovalTests/Namers/ApprovalResults.cs:65 | a split gives at least one piece and no piece holds a separator |
| Strings.FieldsConcat | ApprovalTests/Namers/ApprovalResults.cs:65 | the pieces of a split, put back together, are the text without its separators |
| Strings.Join | ApprovalTests/Namers/ApprovalResults.cs:135 | joining no parts gives the empty text; `FieldsOfJoin` and `JoinOfFields` make joining and splitting inverse |
| Strings.JoinOfFields | ApprovalTests/Namers/ApprovalResults.cs:65 | joining the pieces of a split on one character with that character gives the text back |
| Strings.FieldsOfJoin | ApprovalTests/Namers/ApprovalResults.cs:65 | splitting a join of separator-free parts by a separator gives the parts back |
| Strings.SplitRemoveEmpty | ApprovalTests/Namers/ApprovalResults.cs:65 | `RemoveEmptyEntries` pieces are non-empty and free of separators |
| Strings.SplitRemoveEmptyConcat | ApprovalTests/Namers/ApprovalResults.cs:65 | the kept pieces, put back together, are the text without its separators |
| Strings.SplitRemoveEmptyOfJoin | ApprovalTests/Namers/ApprovalResults.cs:65 | splitting a join of separator-free parts gives the non-empty parts, in order |
| Strings.IndexOf | ApprovalTests/Namers/ApprovalResults.cs:66 | the result is -1 iff the element is absent; otherwise it is the first index holding it |
| Strings.FirstIndexOfUnique | ApprovalTests/Namers/ApprovalResults.cs:66 | there is only one first index |
| Versions.DecimalString | ApprovalTests/Namers/ApprovalResults.cs:37 | the printed number is a canonical numeral (non-empty, digits only, no leading zero unless it is `0`), starting with `0` exactly for zero |
| Versions.DecimalStringValue | ApprovalTests/Namers/ApprovalResults.cs:37 | reading a printed number back gives the number |
| Versions.CanonicalNumeralIsDecimalString | ApprovalTests/Namers/ApprovalResults.cs:37 | every canonical numeral is the printing of its value, so printing is a bijection onto the canonical numerals |
| Versions.ParseComponentOfDecimal | ApprovalTests/Namers/ApprovalResults.cs:70 | every printed number up to `int.MaxValue` parses back to itself as a component |
| Versions.ParseComponentLeadingZero | ApprovalTests/Namers/ApprovalResults.cs:70 | a leading zero is accepted and ignored by the component parser |
| Versions.ParseComponents | ApprovalTests/Namers/ApprovalResults.cs:70 | all components parse, in order, or the result is `None` |
| Versions.ParseVersion | ApprovalTests/Namers/ApprovalResults.cs:70 | a parsed version is always a valid one |
| Versions.ParseVersionLeadingDot | ApprovalTests/Namers/ApprovalResults.cs:36 | a text starting with `.` does not parse |
| Versions.VersionToString | ApprovalTests/Namers/ApprovalResults.cs:23 | `Version.ToString()` is a non-empty text of digits and dots |
| Versions.VersionToStringCanonical | ApprovalTests/Namers/ApprovalResults.cs:23 | the fields of `ToString()` are exactly the printed components, so it is in the printed form |
| Versions.VersionRoundTrip | ApprovalTests/Namers/ApprovalResults.cs:23 | parsing a version's `ToString()` gives the version back |
| Versions.CanonicalVersionTextIsToString | ApprovalTests/Namers/ApprovalResults.cs:23 | a text in the printed form is the `ToString()` of the version it parses to, so no other printed text denotes that version |
| Versions.MajorMinor | ApprovalTests/Namers/ApprovalResults.cs:37 | `<major>.<minor>` is in the printed form and parses back to the version's major and minor, with build and revision undefined |

## Left out

- The scope stack behind `NamerFactory.AsEnvironmentSpecificTest` and the returned `IDisposable` handles: that code is not part of this model. `ForScenario` and the builders model only the string that would be pushed.
- The `UniqueFor…` wrappers (`UniqueForDotNetVersion`, `UniqueForRuntime`, `UniqueForMachineName`, `UniqueForOs`, `UniqueForUserName`): each only hands a builder to that scope stack.
- The call-stack base-name resolver that produces the test's own part of the name: it relies on reflection and stack walking, and it is not part of this model.
- Environment and OS reads (`Environment.MachineName`, `UserName`, `Version`, `RuntimeInformation.FrameworkDescription`, `OsUtils.GetFullOsNameFromWmi`, `Assembly.CodeBase`): these are foreign calls, so their results are parameters.
- `Path.GetInvalidFileNameChars`: it depends on the platform, so it is a parameter. The Windows and Unix sets are given as constants.
- Versions.ParseVersion: a subset of `Version.Parse`/`TryParse`. It accepts two to four dot-separated digit runs, each at most `int.MaxValue`, and no sign or surrounding white space. .NET also tolerates some of those. The different exception types of `Version.Parse` are merged into one error.
- Strings.StartsWith: the one-argument `StartsWith` in `TransformEasyOsName` is culture-sensitive in .NET. It is modelled as an ordinal comparison, which agrees with it on the ASCII captions involved.
- Strings.StartsWithIgnoreCase: `OrdinalIgnoreCase` is modelled as ASCII case folding. Non-ASCII case pairs are not folded.
- The text of the `NotImplementedException` message: only the error and the description it names are modelled.
- ApprovalResults.ForScenarioParts: takes the parts as strings. The conversion of arbitrary objects (`"" + o`) is not modelled. `JoinStringsWith` is assumed to join like `string.Join`, since its code is not part of this model.
- `null` arguments, which would throw in the C# code, are not modelled. Strings are values here.
- Thread-local isolation and parallel test execution: these are concurrency concerns outside the string logic.
