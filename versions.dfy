/** The part of `System.Version` the qualifier code uses: parsing a dotted version string
    (`Version.Parse` / `Version.TryParse`), its `ToString()` form, and decimal formatting of
    its components. */
module Versions {
  import opened Wrappers
  import opened Strings

  /** `int.MaxValue`: the largest value a version component can hold. */
  const Int32Max: int := 0x7FFF_FFFF

  /** A version; `build` and `revision` are -1 when the text did not give them,
      as `System.Version` reports undefined components. */
  datatype Version = Version(major: int, minor: int, build: int, revision: int)

  /** What a `System.Version` can hold: bounded non-negative major and minor, and a revision
      only after a build. */
  predicate ValidVersion(v: Version) {
    && 0 <= v.major <= Int32Max && 0 <= v.minor <= Int32Max
    && -1 <= v.build <= Int32Max && -1 <= v.revision <= Int32Max
    && (v.build == -1 ==> v.revision == -1)
  }

  predicate IsDigit(c: char) { '0' <= c <= '9' }

  predicate AllDigits(s: string) { forall i :: 0 <= i < |s| ==> IsDigit(s[i]) }

  function DigitChar(d: nat): (c: char)
    requires d < 10
    ensures IsDigit(c)
  {
    ('0' as int + d) as char
  }

  /** The decimal value of a digit string, leading zeros allowed. */
  function DigitsValue(s: string): nat
    requires AllDigits(s)
    decreases |s|
  {
    if s == [] then 0 else 10 * DigitsValue(s[..|s| - 1]) + (s[|s| - 1] as int - '0' as int)
  }

  /** A decimal numeral as `int.ToString()` prints one: digits only, and no leading zero
      unless the numeral is `0` itself. */
  predicate CanonicalNumeral(s: string) {
    s != [] && AllDigits(s) && (s[0] == '0' ==> s == "0")
  }

  /** Decimal formatting of a non-negative integer, as string interpolation prints it. */
  function DecimalString(n: nat): (r: string)
    ensures CanonicalNumeral(r)
    ensures r[0] == '0' <==> n == 0
    decreases n
  {
    if n < 10 then [DigitChar(n)]
    else
      var r := DecimalString(n / 10) + [DigitChar(n % 10)];
      assert r[0] == DecimalString(n / 10)[0];
      r
  }

  /** Reading back a formatted number gives the number. */
  lemma {:induction false} DecimalStringValue(n: nat)
    ensures DigitsValue(DecimalString(n)) == n
    decreases n
  {
    var s := DecimalString(n);
    if n >= 10 {
      DecimalStringValue(n / 10);
      assert s[..|s| - 1] == DecimalString(n / 10);
    }
  }

  /** A digit text that does not start with `0` has a positive value. */
  lemma {:induction false} DigitsValuePositive(s: string)
    requires s != [] && AllDigits(s) && s[0] != '0'
    ensures DigitsValue(s) >= 1
    decreases |s|
  {
    if |s| > 1 {
      var p := s[..|s| - 1];
      assert p[0] == s[0];
      DigitsValuePositive(p);
    } else {
      assert s[..0] == [];
    }
  }

  /** Every canonical numeral is the formatting of its value, so formatting is a bijection
      between the naturals and the canonical numerals. */
  lemma {:induction false} CanonicalNumeralIsDecimalString(s: string)
    requires CanonicalNumeral(s)
    ensures DecimalString(DigitsValue(s)) == s
    decreases |s|
  {
    var d := s[|s| - 1] as int - '0' as int;
    var p := s[..|s| - 1];
    assert DigitsValue(s) == 10 * DigitsValue(p) + d;
    if |s| == 1 {
      assert p == [];
      assert DigitChar(d) == s[0];
    } else {
      assert s[0] != '0';
      assert p[0] == s[0];
      DigitsValuePositive(p);
      CanonicalNumeralIsDecimalString(p);
      assert DigitsValue(s) / 10 == DigitsValue(p) && DigitsValue(s) % 10 == d;
      assert DigitChar(d) == s[|s| - 1];
      assert s == p + [s[|s| - 1]];
    }
  }

  /** A zero in front of a digit text does not change its value. */
  lemma {:induction false} DigitsValueLeadingZero(s: string)
    requires AllDigits(s)
    ensures AllDigits("0" + s) && DigitsValue("0" + s) == DigitsValue(s)
    decreases |s|
  {
    var z := "0" + s;
    assert AllDigits(z) by {
      forall i | 0 <= i < |z| ensures IsDigit(z[i]) {
        if i > 0 { assert z[i] == s[i - 1]; }
      }
    }
    if s != [] {
      var p := s[..|s| - 1];
      assert z[..|z| - 1] == "0" + p;
      assert z[|z| - 1] == s[|s| - 1];
      DigitsValueLeadingZero(p);
    } else {
      assert z[..0] == [];
    }
  }

  /** One component of a version string: a non-empty run of digits that fits an `int`. */
  function ParseComponent(s: string): (r: Option<int>)
    ensures r.Some? <==> s != [] && AllDigits(s) && DigitsValue(s) <= Int32Max
    ensures r.Some? ==> r.value == DigitsValue(s) && 0 <= r.value <= Int32Max
  {
    if s != [] && AllDigits(s) && DigitsValue(s) <= Int32Max then Some(DigitsValue(s)) else None
  }

  /** Every component parsed, in order, or `None` as soon as one fails. */
  function ParseComponents(parts: seq<string>): (r: Option<seq<int>>)
    ensures r.Some? <==> forall k :: 0 <= k < |parts| ==> ParseComponent(parts[k]).Some?
    ensures r.Some? ==> (|r.value| == |parts|
      && forall k :: 0 <= k < |parts| ==> ParseComponent(parts[k]) == Some(r.value[k]))
    decreases |parts|
  {
    if parts == [] then Some([])
    else
      match ParseComponent(parts[0])
      case None => None
      case Some(c) =>
        match ParseComponents(parts[1..])
        case None => None
        case Some(cs) => Some([c] + cs)
  }

  /** `Version.TryParse`: two to four dot-separated components. */
  function ParseVersion(s: string): (r: Option<Version>)
    ensures r.Some? ==> ValidVersion(r.value)
  {
    var parts := Fields(s, {'.'});
    if |parts| < 2 || |parts| > 4 then None
    else
      match ParseComponents(parts)
      case None => None
      case Some(cs) =>
        Some(Version(cs[0], cs[1], if |cs| > 2 then cs[2] else -1, if |cs| > 3 then cs[3] else -1))
  }

  /** A text that starts with a dot has an empty first component and does not parse. */
  lemma ParseVersionLeadingDot(s: string)
    requires s != [] && s[0] == '.'
    ensures ParseVersion(s) == None
  {
    assert Fields(s, {'.'})[0] == [];
    assert ParseComponent([]) == None;
  }

  /** Every formatted number within range parses back to itself. */
  lemma ParseComponentOfDecimal(n: nat)
    requires n <= Int32Max
    ensures ParseComponent(DecimalString(n)) == Some(n)
  {
    DecimalStringValue(n);
  }

  /** The component parser is lenient: a leading zero is accepted and ignored, so several
      texts parse to one value and only the canonical one is printed. */
  lemma ParseComponentLeadingZero(s: string)
    requires s != []
    ensures ParseComponent("0" + s) == ParseComponent(s)
  {
    if AllDigits(s) {
      DigitsValueLeadingZero(s);
    } else {
      var i :| 0 <= i < |s| && !IsDigit(s[i]);
      assert ("0" + s)[i + 1] == s[i];
    }
  }

  /** The components `ToString()` prints: major and minor, then build and revision when defined. */
  function Components(v: Version): (cs: seq<nat>)
    requires ValidVersion(v)
    ensures 2 <= |cs| <= 4
  {
    if v.build == -1 then [v.major, v.minor]
    else if v.revision == -1 then [v.major, v.minor, v.build]
    else [v.major, v.minor, v.build, v.revision]
  }

  function DecimalStrings(cs: seq<nat>): (r: seq<string>)
    ensures |r| == |cs|
    ensures forall k :: 0 <= k < |cs| ==> r[k] == DecimalString(cs[k])
  {
    seq(|cs|, k requires 0 <= k < |cs| => DecimalString(cs[k]))
  }

  /** Digit texts hold no dot. */
  lemma NumeralsHaveNoDot(strs: seq<string>)
    requires forall k :: 0 <= k < |strs| ==> CanonicalNumeral(strs[k])
    ensures forall k :: 0 <= k < |strs| ==> forall x :: x in strs[k] ==> x !in {'.'}
  {
    forall k, x | 0 <= k < |strs| && x in strs[k] ensures x != '.' {
      var i :| 0 <= i < |strs[k]| && strs[k][i] == x;
      assert IsDigit(strs[k][i]);
    }
  }

  /** The form `Version.ToString()` prints: two to four dot-separated canonical numerals. */
  predicate CanonicalVersionText(s: string) {
    var parts := Fields(s, {'.'});
    2 <= |parts| <= 4 && forall k :: 0 <= k < |parts| ==> CanonicalNumeral(parts[k])
  }

  /** Digit strings joined by dots hold nothing but digits and dots. */
  lemma {:induction false} JoinOfDigitsHasOnlyDigitsAndDots(parts: seq<string>)
    requires forall k :: 0 <= k < |parts| ==> AllDigits(parts[k])
    ensures forall c :: c in Join(parts, ".") ==> IsDigit(c) || c == '.'
    decreases |parts|
  {
    if |parts| > 1 {
      JoinOfDigitsHasOnlyDigitsAndDots(parts[1..]);
      forall c | c in parts[0] ensures IsDigit(c) {
        var i :| 0 <= i < |parts[0]| && parts[0][i] == c;
      }
    } else if |parts| == 1 {
      forall c | c in parts[0] ensures IsDigit(c) {
        var i :| 0 <= i < |parts[0]| && parts[0][i] == c;
      }
    }
  }

  /** `Version.ToString()`: the defined components in decimal, joined by dots; a non-empty
      text of digits and dots. */
  function VersionToString(v: Version): (r: string)
    requires ValidVersion(v)
    ensures r != [] && forall c :: c in r ==> IsDigit(c) || c == '.'
  {
    var strs := DecimalStrings(Components(v));
    JoinOfDigitsHasOnlyDigitsAndDots(strs);
    Join(strs, ".")
  }

  /** The fields of the printed text are exactly the formatted components, so the text is in
      the printed form. */
  lemma VersionToStringCanonical(v: Version)
    requires ValidVersion(v)
    ensures Fields(VersionToString(v), {'.'}) == DecimalStrings(Components(v))
    ensures CanonicalVersionText(VersionToString(v))
  {
    var strs := DecimalStrings(Components(v));
    NumeralsHaveNoDot(strs);
    FieldsOfJoin(strs, '.', {'.'});
  }

  /** Parsing what `ToString()` prints gives back the same version. */
  lemma VersionRoundTrip(v: Version)
    requires ValidVersion(v)
    ensures ParseVersion(VersionToString(v)) == Some(v)
  {
    var cs := Components(v);
    var strs := DecimalStrings(cs);
    VersionToStringCanonical(v);
    forall k | 0 <= k < |strs| ensures ParseComponent(strs[k]) == Some(cs[k]) {
      DecimalStringValue(cs[k]);
    }
    var r := ParseComponents(strs);
    assert r.Some? && r.value == cs;
  }

  /** Conversely, a text in the printed form is the `ToString()` of the version it parses
      to: no other text of that form denotes the same version. */
  lemma CanonicalVersionTextIsToString(s: string, v: Version)
    requires CanonicalVersionText(s) && ParseVersion(s) == Some(v)
    ensures ValidVersion(v) && VersionToString(v) == s
  {
    var parts := Fields(s, {'.'});
    var cs := ParseComponents(parts).value;
    var comps := Components(v);
    assert |comps| == |cs| && forall k :: 0 <= k < |cs| ==> comps[k] == cs[k] by {
      if |cs| == 2 {
        assert comps == [cs[0], cs[1]];
      } else if |cs| == 3 {
        assert comps == [cs[0], cs[1], cs[2]];
      } else {
        assert comps == [cs[0], cs[1], cs[2], cs[3]];
      }
    }
    var strs := DecimalStrings(comps);
    forall k | 0 <= k < |parts| ensures strs[k] == parts[k] {
      CanonicalNumeralIsDecimalString(parts[k]);
    }
    assert strs == parts;
    JoinOfFields(s, '.');
  }

  /** The two-component text `<major>.<minor>`, as the runtime labels print a version: in
      the printed form, and parsing back to the major and minor alone. */
  function MajorMinor(v: Version): (r: string)
    requires ValidVersion(v)
    ensures CanonicalVersionText(r)
    ensures ParseVersion(r) == Some(Version(v.major, v.minor, -1, -1))
  {
    var short := Version(v.major, v.minor, -1, -1);
    VersionRoundTrip(short);
    VersionToStringCanonical(short);
    var strs := [DecimalString(v.major), DecimalString(v.minor)];
    assert DecimalStrings(Components(short)) == strs;
    assert strs[1..] == [DecimalString(v.minor)];
    assert Join(strs[1..], ".") == DecimalString(v.minor);
    assert Join(strs, ".") == strs[0] + "." + Join(strs[1..], ".");
    assert VersionToString(short) == DecimalString(v.major) + "." + DecimalString(v.minor);
    DecimalString(v.major) + "." + DecimalString(v.minor)
  }
}
