/** The qualifier strings of `ApprovalResults`: the suffixes a test appends to its approval
    name to make the approved file specific to a scenario, machine, user, operating system or
    runtime. Every value the C# code reads from the environment is a parameter here. */
module ApprovalResults {
  import opened Wrappers
  import opened Strings
  import opened Versions

  // ---------------------------------------------------------------------------------------
  // Scrub: the file-name sanitiser

  /** What every platform's `Path.GetInvalidFileNameChars()` satisfies: neither the
      placeholder `_` nor the separator `.` is invalid. */
  predicate SafeInvalidSet(invalid: set<char>) {
    '_' !in invalid && '.' !in invalid
  }

  /** `Path.GetInvalidFileNameChars()` on Windows. */
  const WindowsInvalidFileNameChars: set<char> :=
    (set n: int | 0 <= n < 32 :: n as char) + {'"', '<', '>', '|', ':', '*', '?', '\\', '/'}

  /** `Path.GetInvalidFileNameChars()` on Unix-like systems. */
  const UnixInvalidFileNameChars: set<char> := {'\0', '/'}

  /** Every character of `invalid` in `data` becomes `_`; every other one is kept. */
  function Scrub(data: string, invalid: set<char>): (r: string)
    ensures |r| == |data|
    ensures forall i :: 0 <= i < |data| ==>
      r[i] == (if data[i] in invalid then '_' else data[i])
    decreases |data|
  {
    if data == [] then []
    else [if data[0] in invalid then '_' else data[0]] + Scrub(data[1..], invalid)
  }

  /** No invalid character survives scrubbing, as long as the placeholder is valid. */
  lemma ScrubLeavesNoInvalid(data: string, invalid: set<char>)
    requires '_' !in invalid
    ensures forall c :: c in Scrub(data, invalid) ==> c !in invalid
  {
    var r := Scrub(data, invalid);
    forall c | c in r ensures c !in invalid {
      var i :| 0 <= i < |r| && r[i] == c;
    }
  }

  /** A text with no invalid character is left unchanged. */
  lemma ScrubKeepsValid(data: string, invalid: set<char>)
    requires forall c :: c in data ==> c !in invalid
    ensures Scrub(data, invalid) == data
  {
    var r := Scrub(data, invalid);
    forall i | 0 <= i < |data| ensures r[i] == data[i] {
      assert data[i] in data;
    }
  }

  /** Scrubbing twice is scrubbing once. */
  lemma ScrubIdempotent(data: string, invalid: set<char>)
    requires SafeInvalidSet(invalid)
    ensures Scrub(Scrub(data, invalid), invalid) == Scrub(data, invalid)
  {
    ScrubLeavesNoInvalid(data, invalid);
    ScrubKeepsValid(Scrub(data, invalid), invalid);
  }

  /** Scrubbing works character by character, so it distributes over concatenation. */
  lemma {:induction false} ScrubAppend(a: string, b: string, invalid: set<char>)
    ensures Scrub(a + b, invalid) == Scrub(a, invalid) + Scrub(b, invalid)
    decreases |a|
  {
    if a == [] {
      assert a + b == b;
    } else {
      assert (a + b)[0] == a[0];
      assert (a + b)[1..] == a[1..] + b;
      ScrubAppend(a[1..], b, invalid);
    }
  }

  // ---------------------------------------------------------------------------------------
  // Scenario qualifiers

  const ScenarioPrefix: string := "ForScenario."

  /** The name `ForScenario(string data)` pushes: the fixed prefix, kept verbatim, followed
      by the scrubbed data. */
  function ForScenario(data: string, invalid: set<char>): (name: string)
    ensures |name| == |ScenarioPrefix| + |data|
    ensures StartsWith(name, ScenarioPrefix)
    ensures forall i :: 0 <= i < |data| ==>
      name[|ScenarioPrefix| + i] == (if data[i] in invalid then '_' else data[i])
  {
    ScenarioPrefix + Scrub(data, invalid)
  }

  /** The name `ForScenario(params object[] dataPoints)` pushes, the data points given as the
      strings they convert to: they are joined with `.` and handed to the one-string form. */
  function ForScenarioParts(dataPoints: seq<string>, invalid: set<char>): (name: string)
    ensures StartsWith(name, ScenarioPrefix)
    ensures |name| == |ScenarioPrefix| + |Join(dataPoints, ".")|
  {
    ForScenario(Join(dataPoints, "."), invalid)
  }

  /** Each part scrubbed on its own. */
  function ScrubEach(parts: seq<string>, invalid: set<char>): (r: seq<string>)
    ensures |r| == |parts|
    ensures forall k :: 0 <= k < |parts| ==> r[k] == Scrub(parts[k], invalid)
  {
    seq(|parts|, k requires 0 <= k < |parts| => Scrub(parts[k], invalid))
  }

  /** Because `.` is never invalid, the separators survive: scrubbing the joined text is
      joining the scrubbed parts. */
  lemma {:induction false} ScrubJoin(parts: seq<string>, invalid: set<char>)
    requires SafeInvalidSet(invalid)
    ensures Scrub(Join(parts, "."), invalid) == Join(ScrubEach(parts, invalid), ".")
    decreases |parts|
  {
    if |parts| > 1 {
      var rest := Join(parts[1..], ".");
      ScrubJoin(parts[1..], invalid);
      ScrubAppend(parts[0] + ".", rest, invalid);
      ScrubAppend(parts[0], ".", invalid);
      ScrubKeepsValid(".", invalid);
      assert ScrubEach(parts, invalid)[1..] == ScrubEach(parts[1..], invalid);
    }
  }

  /** The multi-part name is the prefix followed by the scrubbed parts, each separated by a
      `.` that scrubbing leaves alone. */
  lemma ForScenarioPartsIsJoinOfScrubbed(dataPoints: seq<string>, invalid: set<char>)
    requires SafeInvalidSet(invalid)
    ensures ForScenarioParts(dataPoints, invalid)
      == ScenarioPrefix + Join(ScrubEach(dataPoints, invalid), ".")
  {
    ScrubJoin(dataPoints, invalid);
  }

  predicate IsAsciiLetterOrDigit(c: char) {
    var n := c as int;
    ('a' as int <= n <= 'z' as int) || ('A' as int <= n <= 'Z' as int) || ('0' as int <= n <= '9' as int)
  }

  /** Both platform sets meet the assumptions, reject `/`, and accept letters and digits. */
  lemma PlatformInvalidSets()
    ensures SafeInvalidSet(WindowsInvalidFileNameChars) && SafeInvalidSet(UnixInvalidFileNameChars)
    ensures '/' in WindowsInvalidFileNameChars && '/' in UnixInvalidFileNameChars
    ensures forall c :: c in WindowsInvalidFileNameChars ==> !IsAsciiLetterOrDigit(c)
    ensures forall c :: c in UnixInvalidFileNameChars ==> !IsAsciiLetterOrDigit(c)
  {
    forall c | c in WindowsInvalidFileNameChars
      ensures c != '_' && c != '.' && !IsAsciiLetterOrDigit(c)
    {
    }
  }

  /** What the scenario tests expect of an invalid set: like both platform sets, it rejects
      `/` and accepts letters and digits. */
  predicate ExampleInvalidSet(invalid: set<char>) {
    SafeInvalidSet(invalid) && '/' in invalid
    && forall c :: c in invalid ==> !IsAsciiLetterOrDigit(c)
  }

  /** A label without invalid characters is appended as it is. */
  lemma ForScenarioOfValid(data: string, invalid: set<char>)
    requires forall c :: c in data ==> c !in invalid
    ensures ForScenario(data, invalid) == ScenarioPrefix + data
  {
    ScrubKeepsValid(data, invalid);
  }

  /** Text facts about the expected names, kept apart from the scrubbing proofs. */
  lemma ScenarioExampleTexts()
    ensures ScenarioPrefix + "scenarioname" == "ForScenario.scenarioname"
    ensures ScenarioPrefix + ("invalid" + ("_" + "chars")) == "ForScenario.invalid_chars"
    ensures "invalid/chars" == "invalid" + ("/" + "chars")
    ensures Join(["foo", "bar"], ".") == "foo.bar"
    ensures ScenarioPrefix + "foo.bar" == "ForScenario.foo.bar"
  {
    assert Join(["foo", "bar"], ".") == "foo" + "." + "bar";
  }

  /** A plain scenario label is appended as it is. */
  lemma ScenarioExampleName(invalid: set<char>)
    requires ExampleInvalidSet(invalid)
    ensures ForScenario("scenarioname", invalid) == "ForScenario.scenarioname"
  {
    LettersKept("scenarioname", invalid);
    ForScenarioOfValid("scenarioname", invalid);
    ScenarioExampleTexts();
  }

  /** The `/` of a scenario label is scrubbed to `_`. */
  lemma ScenarioExampleScrubbed(invalid: set<char>)
    requires ExampleInvalidSet(invalid)
    ensures ForScenario("invalid/chars", invalid) == "ForScenario.invalid_chars"
  {
    ScrubbedLabel("invalid/chars", "invalid", "chars", invalid);
  }

  /** The same fact on variables, so the texts are compared rather than unfolded. */
  lemma ScrubbedLabel(data: string, x: string, y: string, invalid: set<char>)
    requires ExampleInvalidSet(invalid)
    requires data == "invalid/chars" && x == "invalid" && y == "chars"
    ensures ForScenario(data, invalid) == "ForScenario.invalid_chars"
  {
    LettersKept(x, invalid);
    LettersKept(y, invalid);
    ScenarioExampleTexts();
    ForScenarioOfOneInvalid(data, x, '/', y, invalid);
  }

  /** A label with one invalid character between two valid runs has only that one replaced. */
  lemma ForScenarioOfOneInvalid(data: string, x: string, c: char, y: string, invalid: set<char>)
    requires data == x + ([c] + y) && c in invalid
    requires Scrub(x, invalid) == x && Scrub(y, invalid) == y
    ensures ForScenario(data, invalid) == ScenarioPrefix + (x + ("_" + y))
  {
    assert Scrub([c], invalid) == "_";
    ScrubAppend([c], y, invalid);
    ScrubAppend(x, [c] + y, invalid);
  }

  /** Two data points are joined by a `.` that survives scrubbing. */
  lemma ScenarioExampleParts(invalid: set<char>)
    requires ExampleInvalidSet(invalid)
    ensures ForScenarioParts(["foo", "bar"], invalid) == "ForScenario.foo.bar"
  {
    ScenarioExampleTexts();
    LettersKept("foo", invalid);
    LettersKept("bar", invalid);
    forall c | c in "foo.bar" ensures c !in invalid {
      assert c in "foo" || c in "bar" || c == '.';
    }
    ForScenarioOfValid("foo.bar", invalid);
  }

  /** A run of letters and digits is never scrubbed. */
  lemma LettersKept(data: string, invalid: set<char>)
    requires forall c :: c in invalid ==> !IsAsciiLetterOrDigit(c)
    requires forall c :: c in data ==> IsAsciiLetterOrDigit(c)
    ensures forall c :: c in data ==> c !in invalid
    ensures Scrub(data, invalid) == data
  {
    ScrubKeepsValid(data, invalid);
  }

  // ---------------------------------------------------------------------------------------
  // Machine, user and framework-version qualifiers: fixed prefixes, suffix not scrubbed

  const MachinePrefix: string := "ForMachine."
  const UserPrefix: string := "ForUser."
  const DotNetVersionPrefix: string := "Net_v"

  /** `GetMachineName()`, given `Environment.MachineName`: the host name follows the prefix
      verbatim, invalid characters included. */
  function GetMachineName(machineName: string): (r: string)
    ensures StartsWith(r, MachinePrefix) && r[|MachinePrefix|..] == machineName
  {
    MachinePrefix + machineName
  }

  /** `GetUserName()`, given `Environment.UserName`: the user name follows the prefix
      verbatim. */
  function GetUserName(userName: string): (r: string)
    ensures StartsWith(r, UserPrefix) && r[|UserPrefix|..] == userName
  {
    UserPrefix + userName
  }

  /** `GetDotNetVersion()`, given `Environment.Version`: `Net_v` followed by the version in
      the printed form, from which the version can be read back. By
      `CanonicalVersionTextIsToString` no other text meets this contract. */
  function GetDotNetVersion(environmentVersion: Version): (r: string)
    requires ValidVersion(environmentVersion)
    ensures StartsWith(r, DotNetVersionPrefix)
    ensures CanonicalVersionText(r[|DotNetVersionPrefix|..])
    ensures ParseVersion(r[|DotNetVersionPrefix|..]) == Some(environmentVersion)
  {
    var r := DotNetVersionPrefix + VersionToString(environmentVersion);
    assert r[|DotNetVersionPrefix|..] == VersionToString(environmentVersion);
    VersionRoundTrip(environmentVersion);
    VersionToStringCanonical(environmentVersion);
    r
  }

  /** The prefixed qualifiers of different kinds never produce the same name, and each kind
      keeps distinct inputs apart. */
  lemma QualifierKindsDisjoint(a: string, b: string, invalid: set<char>, v: Version)
    requires ValidVersion(v)
    ensures GetMachineName(a) != GetUserName(b)
    ensures GetMachineName(a) != ForScenario(b, invalid)
    ensures GetUserName(a) != ForScenario(b, invalid)
    ensures GetDotNetVersion(v) != GetMachineName(a)
    ensures GetDotNetVersion(v) != GetUserName(a)
    ensures GetDotNetVersion(v) != ForScenario(b, invalid)
    ensures GetMachineName(a) == GetMachineName(b) ==> a == b
    ensures GetUserName(a) == GetUserName(b) ==> a == b
  {
    assert GetMachineName(a)[3] == 'M';
    assert GetUserName(b)[3] == 'U';
    assert GetUserName(a)[3] == 'U';
    assert ForScenario(b, invalid)[3] == 'S';
    assert GetDotNetVersion(v)[0] == 'N';
    assert GetMachineName(a)[0] == 'F';
    assert GetUserName(a)[0] == 'F';
    assert ForScenario(b, invalid)[0] == 'F';
  }

  // ---------------------------------------------------------------------------------------
  // Operating-system qualifiers

  const WindowsCaptionPrefix: string := "Microsoft Windows "

  /** The Windows editions whose captions collapse to a short name, in search order. */
  const KnownWindows: seq<string> :=
    ["XP", "2000", "Vista", "7", "8", "Server 2003", "Server 2008", "Server 2012"]

  /** The caption begins with the full caption of known edition `i`. */
  predicate MatchesKnown(caption: string, i: int) {
    0 <= i < |KnownWindows| && StartsWith(caption, WindowsCaptionPrefix + KnownWindows[i])
  }

  /** Edition `i` is the first in list order that the caption matches. */
  predicate IsFirstKnownMatch(caption: string, i: int) {
    MatchesKnown(caption, i) && forall j :: 0 <= j < i ==> !MatchesKnown(caption, j)
  }

  /** The `FirstOrDefault` search from position `k`: the first matching index, or -1. */
  function FirstKnownFrom(caption: string, k: nat): (r: int)
    requires k <= |KnownWindows|
    ensures r == -1 || (k <= r && MatchesKnown(caption, r))
    ensures forall j :: k <= j < (if r == -1 then |KnownWindows| else r) ==> !MatchesKnown(caption, j)
    decreases |KnownWindows| - k
  {
    if k == |KnownWindows| then -1
    else if MatchesKnown(caption, k) then k
    else FirstKnownFrom(caption, k + 1)
  }

  /** `TransformEasyOsName`: the first known edition the caption starts with, as
      `Windows <edition>`; a caption that matches none is returned as it is. */
  function TransformEasyOsName(captionName: string): (r: string)
    ensures forall i :: IsFirstKnownMatch(captionName, i) ==> r == "Windows " + KnownWindows[i]
    ensures (forall i :: 0 <= i < |KnownWindows| ==> !MatchesKnown(captionName, i)) ==> r == captionName
  {
    var i := FirstKnownFrom(captionName, 0);
    if i == -1 then captionName else "Windows " + KnownWindows[i]
  }

  /** Two prefixes of one text: the shorter is a prefix of the longer. */
  lemma PrefixesNest(s: string, p: string, a: string, b: string)
    requires StartsWith(s, p + a) && StartsWith(s, p + b) && |a| <= |b|
    ensures StartsWith(b, a)
  {
    assert (p + b)[..|p| + |a|] == s[..|p| + |a|] == p + a;
    forall i | 0 <= i < |a| ensures b[i] == a[i] {
      assert (p + b)[|p| + i] == b[i];
      assert (p + a)[|p| + i] == a[i];
    }
  }

  /** No known edition's name starts with another's. */
  lemma KnownWindowsPrefixFree(i: int, j: int)
    requires 0 <= i < |KnownWindows| && 0 <= j < |KnownWindows| && i != j
    ensures !StartsWith(KnownWindows[j], KnownWindows[i])
  {
    var a, b := KnownWindows[i], KnownWindows[j];
    var k := if a[0] != b[0] then 0 else if a[9] != b[9] then 9 else 10;
    assert k < |a| && k < |b| && a[k] != b[k];
    if |a| <= |b| { assert b[..|a|][k] == b[k]; }
  }

  /** A caption matches at most one known edition, so the first-match order cannot change
      the result. */
  lemma KnownMatchUnique(caption: string, i: int, j: int)
    requires MatchesKnown(caption, i) && MatchesKnown(caption, j)
    ensures i == j
  {
    if i != j {
      if |KnownWindows[i]| <= |KnownWindows[j]| {
        PrefixesNest(caption, WindowsCaptionPrefix, KnownWindows[i], KnownWindows[j]);
        KnownWindowsPrefixFree(i, j);
      } else {
        PrefixesNest(caption, WindowsCaptionPrefix, KnownWindows[j], KnownWindows[i]);
        KnownWindowsPrefixFree(j, i);
      }
    }
  }

  /** The post-processing both OS qualifiers apply: trim, then spaces become `_`. */
  function NormalizeOsName(name: string): (r: string)
    ensures ' ' !in r
    ensures r == [] || (!IsWhiteSpace(r[0]) && !IsWhiteSpace(r[|r| - 1]))
    ensures |r| <= |name|
    ensures r == [] <==> forall i :: 0 <= i < |name| ==> IsWhiteSpace(name[i])
  {
    ReplaceChar(Trim(name), ' ', '_')
  }

  /** A text that is already trimmed is its own trim. */
  lemma TrimmedIsFixed(s: string)
    requires s == [] || (!IsWhiteSpace(s[0]) && !IsWhiteSpace(s[|s| - 1]))
    ensures Trim(s) == s
  {
    if s != [] {
      assert TrimStartIndex(s) == 0;
      assert TrimEndIndex(s) == |s|;
    }
  }

  /** Normalising an already normalised name changes nothing. */
  lemma NormalizeOsNameIdempotent(name: string)
    ensures NormalizeOsName(NormalizeOsName(name)) == NormalizeOsName(name)
  {
    var r := NormalizeOsName(name);
    TrimmedIsFixed(r);
    var rr := ReplaceChar(r, ' ', '_');
    forall i | 0 <= i < |r| ensures rr[i] == r[i] {
      assert r[i] in r;
    }
  }

  /** `GetOsName()`, given the caption read from WMI: the short edition name, trimmed, with
      spaces as `_`. */
  function GetOsName(wmiCaption: string): (r: string)
    ensures ' ' !in r
    ensures r == [] || (!IsWhiteSpace(r[0]) && !IsWhiteSpace(r[|r| - 1]))
  {
    NormalizeOsName(TransformEasyOsName(wmiCaption))
  }

  /** `GetFullOsName()`, given the caption read from WMI: the whole caption, trimmed, with
      spaces as `_`. */
  function GetFullOsName(wmiCaption: string): (r: string)
    ensures ' ' !in r
    ensures r == [] || (!IsWhiteSpace(r[0]) && !IsWhiteSpace(r[|r| - 1]))
    ensures |r| <= |wmiCaption|
  {
    NormalizeOsName(wmiCaption)
  }

  /** For a caption of no known edition the short and the full OS names coincide. */
  lemma OsNamesAgreeWhenUnknown(wmiCaption: string)
    requires forall i :: 0 <= i < |KnownWindows| ==> !MatchesKnown(wmiCaption, i)
    ensures GetOsName(wmiCaption) == GetFullOsName(wmiCaption)
  {
  }

  /** For a known edition the short name depends on the edition only. */
  lemma OsNameOfKnownEdition(wmiCaption: string, i: int)
    requires MatchesKnown(wmiCaption, i)
    ensures GetOsName(wmiCaption) == NormalizeOsName("Windows " + KnownWindows[i])
  {
    forall j | 0 <= j < i ensures !MatchesKnown(wmiCaption, j) {
      if MatchesKnown(wmiCaption, j) { KnownMatchUnique(wmiCaption, i, j); }
    }
    assert IsFirstKnownMatch(wmiCaption, i);
  }

  /** A Windows 7 caption collapses to `Windows 7`. */
  lemma OsNameExampleSeven()
    ensures TransformEasyOsName("Microsoft Windows 7 Professional") == "Windows 7"
  {
    var c := "Microsoft Windows 7 Professional";
    assert WindowsCaptionPrefix + KnownWindows[3] == "Microsoft Windows 7";
    assert c[..19] == "Microsoft Windows 7";
    assert MatchesKnown(c, 3);
    forall j | 0 <= j < 3 ensures !MatchesKnown(c, j) {
      if MatchesKnown(c, j) { KnownMatchUnique(c, 3, j); }
    }
    assert IsFirstKnownMatch(c, 3);
  }

  /** A Windows 10 caption matches no known edition and is kept whole. */
  lemma OsNameExampleTen()
    ensures TransformEasyOsName("Microsoft Windows 10 Pro") == "Microsoft Windows 10 Pro"
  {
    var c := "Microsoft Windows 10 Pro";
    forall i | 0 <= i < |KnownWindows| ensures !MatchesKnown(c, i) {
      var p := WindowsCaptionPrefix + KnownWindows[i];
      assert p[18] == KnownWindows[i][0] != '1' == c[18];
      if |p| <= |c| { assert c[..|p|][18] == c[18]; }
    }
  }

  /** A Windows Server 2012 R2 caption gives `Windows_Server_2012`. */
  lemma OsNameExampleServer()
    ensures GetOsName("Microsoft Windows Server 2012 R2 Standard") == "Windows_Server_2012"
  {
    var c := "Microsoft Windows Server 2012 R2 Standard";
    assert WindowsCaptionPrefix + KnownWindows[7] == "Microsoft Windows Server 2012";
    assert c[..29] == "Microsoft Windows Server 2012";
    assert MatchesKnown(c, 7);
    OsNameOfKnownEdition(c, 7);
    ServerNameNormalized();
  }

  lemma ServerNameNormalized()
    ensures NormalizeOsName("Windows " + KnownWindows[7]) == "Windows_Server_2012"
  {
    ServerNameTrimmed();
    ServerNameReplaced();
  }

  lemma ServerNameTrimmed()
    ensures Trim("Windows " + KnownWindows[7]) == "Windows Server 2012"
  {
    var w := "Windows " + KnownWindows[7];
    assert w == "Windows Server 2012";
    TrimmedIsFixed(w);
  }

  lemma ServerNameReplaced()
    ensures ReplaceChar("Windows Server 2012", ' ', '_') == "Windows_Server_2012"
  {
    ServerNameSpaces("Windows Server 2012");
  }

  /** The same fact on a variable, so the text is compared rather than unfolded. */
  lemma ServerNameSpaces(w: string)
    requires w == "Windows Server 2012"
    ensures ReplaceChar(w, ' ', '_') == "Windows_Server_2012"
  {
  }

  // ---------------------------------------------------------------------------------------
  // Runtime qualifier

  const FrameworkPrefix: string := ".NET Framework"
  const CorePrefix: string := ".NET Core"
  /** The text `Replace` removes before the framework version is parsed. */
  const FrameworkVersionMarker: string := ".NET Framework "
  const NetCoreAppSegment: string := "Microsoft.NETCore.App"
  const PathSeparators: set<char> := {'/', '\\'}

  /** The exceptions `GetDotNetRuntime` lets escape. */
  datatype RuntimeError =
    | UnsupportedFramework(description: string)  // the NotImplementedException it throws
    | VersionNotParsed(text: string)              // Version.Parse rejects the framework version
    | CoreVersionMissing                          // GetNetCoreVersion returned null

  /** Index of the `Microsoft.NETCore.App` segment in the split code base, and whether it
      leaves room for a version segment and one more after it. */
  predicate NetCoreAppAt(segments: seq<string>, i: int) {
    FirstIndexOf(segments, NetCoreAppSegment, i) && 0 < i < |segments| - 2
  }

  /** `GetNetCoreVersion()`, given `Assembly.CodeBase` of the core library: the version in the
      path segment right after the first `Microsoft.NETCore.App`, when that segment is not the
      first, at least two segments follow it, and the next one parses; otherwise `None`. */
  function GetNetCoreVersion(codeBase: string): (v: Option<Version>)
    ensures var segments := SplitRemoveEmpty(codeBase, PathSeparators);
      && (v.Some? <==> exists i :: NetCoreAppAt(segments, i) && ParseVersion(segments[i + 1]).Some?)
      && (forall i :: NetCoreAppAt(segments, i) ==> v == ParseVersion(segments[i + 1]))
      && (NetCoreAppSegment !in segments ==> v == None)
  {
    var segments := SplitRemoveEmpty(codeBase, PathSeparators);
    var i := IndexOf(segments, NetCoreAppSegment);
    if i > 0 && i < |segments| - 2 then
      var r := ParseVersion(segments[i + 1]);
      assert NetCoreAppAt(segments, i);
      assert forall j :: NetCoreAppAt(segments, j) ==> j == i by {
        forall j | NetCoreAppAt(segments, j) ensures j == i { FirstIndexOfUnique(segments, NetCoreAppSegment, i, j); }
      }
      r
    else
      assert forall j :: !NetCoreAppAt(segments, j) by {
        forall j | FirstIndexOf(segments, NetCoreAppSegment, j) ensures !NetCoreAppAt(segments, j) {
          FirstIndexOfUnique(segments, NetCoreAppSegment, i, j);
        }
      }
      None
  }

  /** The text handed to `Version.Parse` for a .NET Framework description. */
  function FrameworkVersionText(frameworkDescription: string): (r: string)
    ensures |r| <= |frameworkDescription|
  {
    ReplaceAll(frameworkDescription, FrameworkVersionMarker, "")
  }

  /** `GetDotNetRuntime(throwOnError)`, given `RuntimeInformation.FrameworkDescription` and
      the core library's code base. */
  function GetDotNetRuntime(frameworkDescription: string, codeBase: string, throwOnError: bool)
    : (r: Result<string, RuntimeError>)
    // .NET Framework: the label carries the parsed version's major and minor
    ensures StartsWithIgnoreCase(frameworkDescription, FrameworkPrefix) ==>
      var v := ParseVersion(FrameworkVersionText(frameworkDescription));
      && (r.Ok? <==> v.Some?)
      && (r.Ok? ==> (StartsWith(r.value, "Net_")
            && r.value[4..] == DecimalString(v.value.major) + "." + DecimalString(v.value.minor)
            && ParseVersion(r.value[4..]) == Some(Version(v.value.major, v.value.minor, -1, -1))))
      && (r.Err? ==> r.error == VersionNotParsed(FrameworkVersionText(frameworkDescription)))
    // .NET Core: the label carries the major and minor of the version in the code base
    ensures (!StartsWithIgnoreCase(frameworkDescription, FrameworkPrefix)
             && StartsWithIgnoreCase(frameworkDescription, CorePrefix)) ==>
      var v := GetNetCoreVersion(codeBase);
      && (r.Ok? <==> v.Some?)
      && (r.Ok? ==> (StartsWith(r.value, "NetCore_")
            && r.value[8..] == DecimalString(v.value.major) + "." + DecimalString(v.value.minor)
            && ParseVersion(r.value[8..]) == Some(Version(v.value.major, v.value.minor, -1, -1))))
      && (r.Err? ==> r.error == CoreVersionMissing)
    // anything else: an error, or the raw description when the caller does not want one
    ensures r.Err? && r.error.UnsupportedFramework? <==>
      throwOnError && !StartsWithIgnoreCase(frameworkDescription, FrameworkPrefix)
      && !StartsWithIgnoreCase(frameworkDescription, CorePrefix)
    ensures (!throwOnError && !StartsWithIgnoreCase(frameworkDescription, FrameworkPrefix)
             && !StartsWithIgnoreCase(frameworkDescription, CorePrefix)) ==> r == Ok(frameworkDescription)
  {
    if StartsWithIgnoreCase(frameworkDescription, FrameworkPrefix) then
      match ParseVersion(FrameworkVersionText(frameworkDescription))
      case None => Err(VersionNotParsed(FrameworkVersionText(frameworkDescription)))
      case Some(version) =>
        (var text := "Net_" + MajorMinor(version);
         assert text[4..] == MajorMinor(version);
         Ok(text))
    else if StartsWithIgnoreCase(frameworkDescription, CorePrefix) then
      match GetNetCoreVersion(codeBase)
      case None => Err(CoreVersionMissing)
      case Some(version) =>
        (var text := "NetCore_" + MajorMinor(version);
         assert text[8..] == MajorMinor(version);
         Ok(text))
    else if throwOnError then
      Err(UnsupportedFramework(frameworkDescription))
    else
      Ok(frameworkDescription)
  }

  /** No description has both prefixes, so testing the framework prefix first is not a
      choice between them. */
  lemma RuntimePrefixesExclusive(frameworkDescription: string)
    ensures !(StartsWithIgnoreCase(frameworkDescription, FrameworkPrefix)
              && StartsWithIgnoreCase(frameworkDescription, CorePrefix))
  {
    if StartsWithIgnoreCase(frameworkDescription, FrameworkPrefix) {
      assert ToUpperAscii(frameworkDescription[5]) == ToUpperAscii(FrameworkPrefix[5]) == 'F';
    }
  }

  /** `throwOnError` matters only for unrecognised runtimes: the best-effort mode still fails
      on a recognised description whose version cannot be found. */
  lemma RuntimeThrowOnErrorOnlyForUnknown(frameworkDescription: string, codeBase: string)
    ensures (StartsWithIgnoreCase(frameworkDescription, FrameworkPrefix)
             || StartsWithIgnoreCase(frameworkDescription, CorePrefix))
      <==> GetDotNetRuntime(frameworkDescription, codeBase, true)
           == GetDotNetRuntime(frameworkDescription, codeBase, false)
  {
  }

  /** The printed description of every .NET Framework version gives `Net_<major>.<minor>`. */
  lemma RuntimeOfFramework(v: Version, codeBase: string, throwOnError: bool)
    requires ValidVersion(v)
    ensures GetDotNetRuntime(FrameworkVersionMarker + VersionToString(v), codeBase, throwOnError)
      == Ok("Net_" + MajorMinor(v))
  {
    var d := FrameworkVersionMarker + VersionToString(v);
    var text := VersionToString(v);
    assert 'N' in FrameworkVersionMarker;
    assert 'N' !in text by {
      var strs := DecimalStrings(Components(v));
      JoinOfDigitsHasOnlyDigitsAndDots(strs);
    }
    ReplaceAllLeading(FrameworkVersionMarker, text, "");
    ReplaceAllAbsent(text, FrameworkVersionMarker, "", 'N');
    assert FrameworkVersionText(d) == text;
    VersionRoundTrip(v);
    assert d[..|FrameworkPrefix|] == FrameworkPrefix;
    StartsWithIsIgnoreCase(d, FrameworkPrefix);
  }

  /** The case-insensitive test lets an upper-case description through, but the
      case-sensitive `Replace` then leaves the text unparsable, so even the best-effort mode
      fails. */
  lemma RuntimeOfUpperCaseFramework(codeBase: string, throwOnError: bool)
    ensures GetDotNetRuntime(UpperCaseFramework, codeBase, throwOnError)
      == Err(VersionNotParsed(UpperCaseFramework))
  {
    UpperCaseFrameworkFacts();
  }

  const UpperCaseFramework: string := ".NET FRAMEWORK 4.8"

  lemma UpperCaseFrameworkFacts()
    ensures StartsWithIgnoreCase(UpperCaseFramework, FrameworkPrefix)
    ensures FrameworkVersionText(UpperCaseFramework) == UpperCaseFramework
    ensures ParseVersion(UpperCaseFramework) == None
  {
    UpperCaseFrameworkPrefix();
    UpperCaseFrameworkText();
    ParseVersionLeadingDot(UpperCaseFramework);
  }

  lemma UpperCaseFrameworkPrefix()
    ensures StartsWithIgnoreCase(UpperCaseFramework, FrameworkPrefix)
  {
  }

  lemma UpperCaseFrameworkText()
    ensures FrameworkVersionText(UpperCaseFramework) == UpperCaseFramework
  {
    assert 'w' in FrameworkVersionMarker && 'w' !in UpperCaseFramework;
    ReplaceAllAbsent(UpperCaseFramework, FrameworkVersionMarker, "", 'w');
  }

  /** A .NET Core description whose code base does not reveal a version fails in both modes,
      through the null `GetNetCoreVersion` returns. */
  lemma RuntimeOfCoreWithoutVersion(frameworkDescription: string, codeBase: string, throwOnError: bool)
    requires StartsWithIgnoreCase(frameworkDescription, CorePrefix)
    requires GetNetCoreVersion(codeBase) == None
    ensures GetDotNetRuntime(frameworkDescription, codeBase, throwOnError) == Err(CoreVersionMissing)
  {
    RuntimePrefixesExclusive(frameworkDescription);
  }

  /** No character of a printed version is a path separator. */
  lemma VersionTextHasNoSeparator(v: Version)
    requires ValidVersion(v)
    ensures VersionToString(v) != []
    ensures forall x :: x in VersionToString(v) ==> x !in PathSeparators
  {
    VersionRoundTrip(v);
    JoinOfDigitsHasOnlyDigitsAndDots(DecimalStrings(Components(v)));
  }

  /** The path of a .NET Core library: directories, `Microsoft.NETCore.App`, the version
      directory and the file. */
  function CoreInstallPath(dirs: seq<string>, v: Version, file: string): string
    requires ValidVersion(v)
  {
    Join(dirs + [NetCoreAppSegment, VersionToString(v), file], "/")
  }

  /** What `CoreInstallPath` needs of its pieces: at least one non-empty directory, no
      `Microsoft.NETCore.App` among them, a non-empty file name, and no separators. */
  predicate CoreInstallPieces(dirs: seq<string>, file: string) {
    && NonEmpty(dirs) != [] && NetCoreAppSegment !in dirs
    && (forall k :: 0 <= k < |dirs| ==> forall x :: x in dirs[k] ==> x !in PathSeparators)
    && file != [] && (forall x :: x in file ==> x !in PathSeparators)
  }

  lemma NetCoreAppSegmentHasNoSeparator()
    ensures forall x :: x in NetCoreAppSegment ==> x !in PathSeparators
  {
  }

  /** Splitting an install path gives its non-empty directories and the last three pieces. */
  lemma CoreInstallSegments(dirs: seq<string>, v: Version, file: string)
    requires ValidVersion(v) && CoreInstallPieces(dirs, file)
    ensures SplitRemoveEmpty(CoreInstallPath(dirs, v, file), PathSeparators)
      == NonEmpty(dirs) + [NetCoreAppSegment, VersionToString(v), file]
  {
    var tail := [NetCoreAppSegment, VersionToString(v), file];
    var parts := dirs + tail;
    VersionTextHasNoSeparator(v);
    NetCoreAppSegmentHasNoSeparator();
    forall k | 0 <= k < |parts| ensures forall x :: x in parts[k] ==> x !in PathSeparators {
      if k >= |dirs| { assert parts[k] == tail[k - |dirs|]; }
    }
    SplitRemoveEmptyOfJoin(parts, '/', PathSeparators);
    NonEmptyAppend(dirs, tail);
    NonEmptyKeepsAll(tail);
  }

  /** The version directory of an install path is the version `GetNetCoreVersion` finds. */
  lemma NetCoreVersionOfInstall(dirs: seq<string>, v: Version, file: string)
    requires ValidVersion(v) && CoreInstallPieces(dirs, file)
    ensures GetNetCoreVersion(CoreInstallPath(dirs, v, file)) == Some(v)
  {
    CoreInstallSegments(dirs, v, file);
    var segments := NonEmpty(dirs) + [NetCoreAppSegment, VersionToString(v), file];
    var i := |NonEmpty(dirs)|;
    assert segments[..i] == NonEmpty(dirs);
    assert NetCoreAppSegment !in NonEmpty(dirs);
    assert NetCoreAppAt(segments, i);
    assert segments[i + 1] == VersionToString(v);
    VersionRoundTrip(v);
  }

  /** So any .NET Core description is labelled with the install's version, whatever version
      the description itself names. */
  lemma RuntimeOfCoreInstall(dirs: seq<string>, v: Version, file: string,
                             frameworkDescription: string, throwOnError: bool)
    requires ValidVersion(v) && CoreInstallPieces(dirs, file)
    requires StartsWithIgnoreCase(frameworkDescription, CorePrefix)
    ensures GetDotNetRuntime(frameworkDescription, CoreInstallPath(dirs, v, file), throwOnError)
      == Ok("NetCore_" + MajorMinor(v))
  {
    NetCoreVersionOfInstall(dirs, v, file);
    RuntimePrefixesExclusive(frameworkDescription);
  }

  // ---------------------------------------------------------------------------------------
  // Concrete runtime labels

  /** The description of .NET Framework 4.8 gives `Net_4.8`, in both modes. */
  lemma RuntimeExampleFramework(codeBase: string, throwOnError: bool)
    ensures GetDotNetRuntime(".NET Framework 4.8.4250.0", codeBase, throwOnError) == Ok("Net_4.8")
  {
    var v := Version(4, 8, 4250, 0);
    FrameworkExampleTexts(v);
    RuntimeOfFramework(v, codeBase, throwOnError);
  }

  lemma FrameworkExampleTexts(v: Version)
    requires v == Version(4, 8, 4250, 0)
    ensures ValidVersion(v)
    ensures FrameworkVersionMarker + VersionToString(v) == ".NET Framework 4.8.4250.0"
    ensures "Net_" + MajorMinor(v) == "Net_4.8"
  {
    FrameworkExampleVersion(v);
    FrameworkExampleMajorMinor(v);
    var t := VersionToString(v);
    assert FrameworkVersionMarker + t == ".NET Framework 4.8.4250.0";
  }

  lemma FrameworkExampleStrings(v: Version)
    requires v == Version(4, 8, 4250, 0)
    ensures ValidVersion(v) && DecimalStrings(Components(v)) == ["4", "8", "4250", "0"]
  {
    ExampleNumerals();
    assert Components(v) == [4, 8, 4250, 0];
  }

  lemma FrameworkExampleVersion(v: Version)
    requires v == Version(4, 8, 4250, 0)
    ensures ValidVersion(v) && VersionToString(v) == "4.8.4250.0"
  {
    FrameworkExampleStrings(v);
    JoinOfFour("4", "8", "4250", "0");
  }

  lemma FrameworkExampleMajorMinor(v: Version)
    requires v == Version(4, 8, 4250, 0)
    ensures ValidVersion(v) && "Net_" + MajorMinor(v) == "Net_4.8"
  {
    ExampleNumerals();
  }

  /** The numerals of the example versions. */
  lemma ExampleNumerals()
    ensures DecimalString(0) == "0" && DecimalString(1) == "1" && DecimalString(3) == "3"
    ensures DecimalString(4) == "4" && DecimalString(8) == "8"
    ensures DecimalString(32) == "32" && DecimalString(4250) == "4250"
  {
    assert DecimalString(42) == "42";
    assert DecimalString(425) == "425";
  }

  lemma JoinOfFour(a: string, b: string, c: string, d: string)
    ensures Join([a, b, c, d], ".") == a + "." + b + "." + c + "." + d
  {
    JoinOfThree(b, c, d);
    assert [a, b, c, d][1..] == [b, c, d];
    assert Join([a, b, c, d], ".") == a + "." + Join([b, c, d], ".");
  }

  lemma JoinOfThree(a: string, b: string, c: string)
    ensures Join([a, b, c], ".") == a + "." + b + "." + c
  {
    assert [a, b, c][1..] == [b, c];
    assert [b, c][1..] == [c];
    assert Join([c], ".") == c;
    assert Join([b, c], ".") == b + "." + c;
    assert Join([a, b, c], ".") == a + "." + (b + "." + c);
  }

  /** A .NET Core 3.1 library loaded from its install directory, whose code base
      `file:///usr/share/dotnet/shared/Microsoft.NETCore.App/3.1.32/System.Private.CoreLib.dll`
      is written here as the join of its pieces, gives `NetCore_3.1`, in both modes. */
  lemma RuntimeExampleCore(throwOnError: bool)
    ensures GetDotNetRuntime(".NET Core 3.1.32",
      CoreInstallPath(["file:", "", "", "usr", "share", "dotnet", "shared"], Version(3, 1, 32, -1),
                      "System.Private.CoreLib.dll"),
      throwOnError) == Ok("NetCore_3.1")
  {
    var dirs := ["file:", "", "", "usr", "share", "dotnet", "shared"];
    var v := Version(3, 1, 32, -1);
    var file := "System.Private.CoreLib.dll";
    CoreExampleTexts(dirs, v, file, ".NET Core 3.1.32");
    RuntimeOfCoreInstall(dirs, v, file, ".NET Core 3.1.32", throwOnError);
  }

  lemma CoreExampleTexts(dirs: seq<string>, v: Version, file: string, description: string)
    requires dirs == ["file:", "", "", "usr", "share", "dotnet", "shared"]
    requires v == Version(3, 1, 32, -1) && file == "System.Private.CoreLib.dll"
    requires description == ".NET Core 3.1.32"
    ensures ValidVersion(v) && CoreInstallPieces(dirs, file)
    ensures StartsWithIgnoreCase(description, CorePrefix)
    ensures "NetCore_" + MajorMinor(v) == "NetCore_3.1"
  {
    CoreExamplePieces(dirs, file);
    CoreExampleVersion(v);
    CoreExampleDescription(description);
  }

  lemma CoreExamplePieces(dirs: seq<string>, file: string)
    requires dirs == ["file:", "", "", "usr", "share", "dotnet", "shared"]
    requires file == "System.Private.CoreLib.dll"
    ensures CoreInstallPieces(dirs, file)
  {
    assert NonEmpty(dirs)[0] == "file:";
    forall k | 0 <= k < |dirs| ensures forall x :: x in dirs[k] ==> x !in PathSeparators {
      assert dirs[k] in {"file:", "", "usr", "share", "dotnet", "shared"};
    }
  }

  lemma CoreExampleDescription(description: string)
    requires description == ".NET Core 3.1.32"
    ensures StartsWithIgnoreCase(description, CorePrefix)
  {
    assert StartsWith(description, CorePrefix);
    StartsWithIsIgnoreCase(description, CorePrefix);
  }

  lemma CoreExampleVersion(v: Version)
    requires v == Version(3, 1, 32, -1)
    ensures ValidVersion(v) && "NetCore_" + MajorMinor(v) == "NetCore_3.1"
  {
    ExampleNumerals();
  }
}
