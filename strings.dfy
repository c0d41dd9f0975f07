/** The .NET string operations the qualifier code relies on, over `seq<char>`. */
module Strings {

  /** Ordinal prefix test, as `string.StartsWith` compares for the inputs used here. */
  predicate StartsWith(s: string, p: string) {
    |p| <= |s| && s[..|p|] == p
  }

  /** Upper-case mapping used by the case-insensitive comparison (letters a to z only). */
  function ToUpperAscii(c: char): char {
    if 'a' <= c <= 'z' then (c as int - 32) as char else c
  }

  /** Prefix test under `StringComparison.OrdinalIgnoreCase`. */
  predicate StartsWithIgnoreCase(s: string, p: string) {
    |p| <= |s| && forall i :: 0 <= i < |p| ==> ToUpperAscii(s[i]) == ToUpperAscii(p[i])
  }

  /** An ordinal prefix is also a case-insensitive one. */
  lemma StartsWithIsIgnoreCase(s: string, p: string)
    requires StartsWith(s, p)
    ensures StartsWithIgnoreCase(s, p)
  {
    forall i | 0 <= i < |p| ensures ToUpperAscii(s[i]) == ToUpperAscii(p[i]) {
      assert s[..|p|][i] == s[i];
    }
  }

  /** `char.IsWhiteSpace`: the Unicode space, line and paragraph separators plus the control
      characters U+0009 to U+000D and U+0085. */
  predicate IsWhiteSpace(c: char) {
    var n := c as int;
    (0x09 <= n <= 0x0D) || n == 0x20 || n == 0x85 || n == 0xA0 || n == 0x1680
    || (0x2000 <= n <= 0x200A) || n == 0x2028 || n == 0x2029 || n == 0x202F
    || n == 0x205F || n == 0x3000
  }

  /** Number of leading white-space characters. */
  function TrimStartIndex(s: string): (k: nat)
    ensures k <= |s|
    ensures forall i :: 0 <= i < k ==> IsWhiteSpace(s[i])
    ensures k < |s| ==> !IsWhiteSpace(s[k])
    decreases |s|
  {
    if s == [] || !IsWhiteSpace(s[0]) then 0 else 1 + TrimStartIndex(s[1..])
  }

  /** Length of `s` once its trailing white space is removed. */
  function TrimEndIndex(s: string): (k: nat)
    ensures k <= |s|
    ensures forall i :: k <= i < |s| ==> IsWhiteSpace(s[i])
    ensures 0 < k ==> !IsWhiteSpace(s[k - 1])
    decreases |s|
  {
    if s == [] || !IsWhiteSpace(s[|s| - 1]) then |s| else TrimEndIndex(s[..|s| - 1])
  }

  /** `string.Trim()`: the slice of `s` left after removing white space at both ends. */
  function Trim(s: string): (r: string)
    ensures |r| <= |s|
    ensures r == [] || (!IsWhiteSpace(r[0]) && !IsWhiteSpace(r[|r| - 1]))
    ensures r == [] <==> forall i :: 0 <= i < |s| ==> IsWhiteSpace(s[i])
    ensures var i := TrimStartIndex(s);
      i + |r| <= |s| && r == s[i..i + |r|]
      && forall k :: i + |r| <= k < |s| ==> IsWhiteSpace(s[k])
  {
    var i, j := TrimStartIndex(s), TrimEndIndex(s);
    if i < j then s[i..j] else []
  }

  /** `string.Replace(char, char)`: every `from` becomes `to`. */
  function ReplaceChar(s: string, from: char, to: char): (r: string)
    ensures |r| == |s|
    ensures forall i :: 0 <= i < |s| ==> r[i] == (if s[i] == from then to else s[i])
    decreases |s|
  {
    if s == [] then [] else [if s[0] == from then to else s[0]] + ReplaceChar(s[1..], from, to)
  }

  /** `string.Replace(string, string)`: a left-to-right scan that replaces every
      non-overlapping occurrence of `pat` by `rep`. */
  function ReplaceAll(s: string, pat: string, rep: string): (r: string)
    requires pat != []
    ensures rep == pat ==> r == s
    ensures |rep| <= |pat| ==> |r| <= |s|
    decreases |s|
  {
    if s == [] then []
    else if StartsWith(s, pat) then rep + ReplaceAll(s[|pat|..], pat, rep)
    else [s[0]] + ReplaceAll(s[1..], pat, rep)
  }

  /** A text that lacks some character of `pat` contains no occurrence of it, so it is left
      as it is. */
  lemma {:induction false} ReplaceAllAbsent(s: string, pat: string, rep: string, c: char)
    requires pat != [] && c in pat && c !in s
    ensures ReplaceAll(s, pat, rep) == s
    decreases |s|
  {
    if s != [] {
      var i :| 0 <= i < |pat| && pat[i] == c;
      assert !StartsWith(s, pat) by {
        if |pat| <= |s| {
          assert s[..|pat|][i] == s[i];
          assert s[i] in s;
        }
      }
      assert c !in s[1..] by {
        forall x | x in s[1..] ensures x in s { }
      }
      ReplaceAllAbsent(s[1..], pat, rep, c);
      assert s == [s[0]] + s[1..];
    }
  }

  /** A leading occurrence is replaced and the scan resumes right after it. */
  lemma ReplaceAllLeading(pat: string, t: string, rep: string)
    requires pat != []
    ensures ReplaceAll(pat + t, pat, rep) == rep + ReplaceAll(t, pat, rep)
  {
    assert (pat + t)[..|pat|] == pat;
    assert (pat + t)[|pat|..] == t;
  }

  /** `s` cut at every character of `seps`, empty pieces included (`string.Split`). */
  function Fields(s: string, seps: set<char>): (r: seq<string>)
    ensures |r| >= 1
    ensures forall k :: 0 <= k < |r| ==> forall c :: c in r[k] ==> c !in seps
    decreases |s|
  {
    if s == [] then [[]]
    else
      var rest := Fields(s[1..], seps);
      if s[0] in seps then [[]] + rest else [[s[0]] + rest[0]] + rest[1..]
  }

  /** The pieces concatenated.  */
  function Concat(parts: seq<string>): string
    decreases |parts|
  {
    if parts == [] then [] else parts[0] + Concat(parts[1..])
  }

  /** `s` with every character of `seps` removed. */
  function Without(s: string, seps: set<char>): (r: string)
    decreases |s|
  {
    if s == [] then [] else (if s[0] in seps then [] else [s[0]]) + Without(s[1..], seps)
  }

  /** Splitting loses exactly the separators: the pieces put together give back the
      text without its separators. */
  lemma {:induction false} FieldsConcat(s: string, seps: set<char>)
    ensures Concat(Fields(s, seps)) == Without(s, seps)
    decreases |s|
  {
    if s != [] {
      var rest := Fields(s[1..], seps);
      FieldsConcat(s[1..], seps);
      if s[0] !in seps {
        var r := [[s[0]] + rest[0]] + rest[1..];
        assert r[1..] == rest[1..];
        assert rest == [rest[0]] + rest[1..];
        assert Concat(rest) == rest[0] + Concat(rest[1..]);
      }
    }
  }

  /** A separator-free prefix joins the first piece of what follows it. */
  lemma {:induction false} FieldsOfPrefix(p: string, t: string, seps: set<char>)
    requires forall c :: c in p ==> c !in seps
    ensures Fields(p + t, seps) == [p + Fields(t, seps)[0]] + Fields(t, seps)[1..]
    decreases |p|
  {
    if p != [] {
      assert (p + t)[1..] == p[1..] + t;
      assert (p + t)[0] == p[0];
      FieldsOfPrefix(p[1..], t, seps);
      var rest := Fields(p[1..] + t, seps);
      assert p[0] in p;
      assert Fields(p + t, seps) == [[p[0]] + rest[0]] + rest[1..];
      assert rest[0] == p[1..] + Fields(t, seps)[0];
      assert rest[1..] == Fields(t, seps)[1..];
      assert [p[0]] + (p[1..] + Fields(t, seps)[0]) == p + Fields(t, seps)[0];
    } else {
      assert p + t == t;
      assert p + Fields(t, seps)[0] == Fields(t, seps)[0];
      assert Fields(t, seps) == [Fields(t, seps)[0]] + Fields(t, seps)[1..];
    }
  }

  /** `string.Join(sep, parts)`. */
  function Join(parts: seq<string>, sep: string): (r: string)
    ensures parts == [] ==> r == []
    decreases |parts|
  {
    if parts == [] then []
    else if |parts| == 1 then parts[0]
    else parts[0] + sep + Join(parts[1..], sep)
  }

  /** Joining the pieces of a split on one character with that character gives the text
      back. */
  lemma {:induction false} JoinOfFields(s: string, c: char)
    ensures Join(Fields(s, {c}), [c]) == s
    decreases |s|
  {
    if s != [] {
      var rest := Fields(s[1..], {c});
      JoinOfFields(s[1..], c);
      assert s == [s[0]] + s[1..];
      if s[0] == c {
        var f := [[]] + rest;
        assert Fields(s, {c}) == f;
        assert f[1..] == rest;
        assert Join(f, [c]) == [] + [c] + Join(rest, [c]);
      } else {
        var f := [[s[0]] + rest[0]] + rest[1..];
        assert Fields(s, {c}) == f;
        if |rest| == 1 {
          assert Join(f, [c]) == [s[0]] + rest[0];
        } else {
          assert f[1..] == rest[1..];
          assert Join(f, [c]) == [s[0]] + rest[0] + [c] + Join(rest[1..], [c]);
          assert Join(rest, [c]) == rest[0] + [c] + Join(rest[1..], [c]);
        }
      }
    }
  }

  /** Splitting a join on one of the separators gives back the parts, when no part contains
      a separator. */
  lemma {:induction false} FieldsOfJoin(parts: seq<string>, c: char, seps: set<char>)
    requires parts != [] && c in seps
    requires forall k :: 0 <= k < |parts| ==> forall x :: x in parts[k] ==> x !in seps
    ensures Fields(Join(parts, [c]), seps) == parts
    decreases |parts|
  {
    if |parts| == 1 {
      FieldsOfPrefix(parts[0], [], seps);
      assert parts[0] + [] == parts[0];
    } else {
      var rest := Join(parts[1..], [c]);
      FieldsOfJoin(parts[1..], c, seps);
      assert parts[0] + [c] + rest == parts[0] + ([c] + rest);
      FieldsOfPrefix(parts[0], [c] + rest, seps);
      assert ([c] + rest)[1..] == rest;
      assert Fields([c] + rest, seps) == [[]] + parts[1..];
      assert parts[0] + [] == parts[0];
      assert ([[]] + parts[1..])[1..] == parts[1..];
      assert parts == [parts[0]] + parts[1..];
    }
  }

  /** The non-empty pieces, in order (`StringSplitOptions.RemoveEmptyEntries`). */
  function NonEmpty(parts: seq<string>): (r: seq<string>)
    ensures |r| <= |parts|
    ensures forall k :: 0 <= k < |r| ==> r[k] != [] && r[k] in parts
    decreases |parts|
  {
    if parts == [] then []
    else if parts[0] == [] then NonEmpty(parts[1..])
    else [parts[0]] + NonEmpty(parts[1..])
  }

  /** Dropping empty pieces does not change their concatenation. */
  lemma {:induction false} NonEmptyConcat(parts: seq<string>)
    ensures Concat(NonEmpty(parts)) == Concat(parts)
    decreases |parts|
  {
    if parts != [] {
      NonEmptyConcat(parts[1..]);
      if parts[0] != [] {
        assert ([parts[0]] + NonEmpty(parts[1..]))[1..] == NonEmpty(parts[1..]);
      }
    }
  }

  /** Nothing is dropped when no piece is empty. */
  lemma {:induction false} NonEmptyKeepsAll(parts: seq<string>)
    requires forall k :: 0 <= k < |parts| ==> parts[k] != []
    ensures NonEmpty(parts) == parts
    decreases |parts|
  {
    if parts != [] {
      NonEmptyKeepsAll(parts[1..]);
      assert parts == [parts[0]] + parts[1..];
    }
  }

  /** Empty pieces are dropped from each half independently. */
  lemma {:induction false} NonEmptyAppend(a: seq<string>, b: seq<string>)
    ensures NonEmpty(a + b) == NonEmpty(a) + NonEmpty(b)
    decreases |a|
  {
    if a != [] {
      NonEmptyAppend(a[1..], b);
      assert (a + b)[1..] == a[1..] + b;
      assert (a + b)[0] == a[0];
    } else {
      assert a + b == b;
    }
  }

  /** `s.Split(seps, StringSplitOptions.RemoveEmptyEntries)`. */
  function SplitRemoveEmpty(s: string, seps: set<char>): (r: seq<string>)
    ensures forall k :: 0 <= k < |r| ==> r[k] != []
    ensures forall k :: 0 <= k < |r| ==> forall c :: c in r[k] ==> c !in seps
  {
    NonEmpty(Fields(s, seps))
  }

  /** The non-empty pieces, put together, are the text with its separators removed. */
  lemma SplitRemoveEmptyConcat(s: string, seps: set<char>)
    ensures Concat(SplitRemoveEmpty(s, seps)) == Without(s, seps)
  {
    NonEmptyConcat(Fields(s, seps));
    FieldsConcat(s, seps);
  }

  /** Splitting a path built with one of the separators gives back its non-empty parts. */
  lemma SplitRemoveEmptyOfJoin(parts: seq<string>, c: char, seps: set<char>)
    requires parts != [] && c in seps
    requires forall k :: 0 <= k < |parts| ==> forall x :: x in parts[k] ==> x !in seps
    ensures SplitRemoveEmpty(Join(parts, [c]), seps) == NonEmpty(parts)
  {
    FieldsOfJoin(parts, c, seps);
  }

  /** `i` is the first position of `x` in `a`. */
  predicate FirstIndexOf(a: seq<string>, x: string, i: int) {
    0 <= i < |a| && a[i] == x && x !in a[..i]
  }

  /** `Array.IndexOf(a, x)`: the first position of `x`, or -1 when it is absent. */
  function IndexOf(a: seq<string>, x: string): (r: int)
    ensures r == -1 || FirstIndexOf(a, x, r)
    ensures r == -1 <==> x !in a
    decreases |a|
  {
    if a == [] then -1
    else if a[0] == x then 0
    else
      var k := IndexOf(a[1..], x);
      assert a == [a[0]] + a[1..];
      if k == -1 then -1
      else
        assert a[..k + 1] == [a[0]] + a[1..][..k];
        k + 1
  }

  /** The first position is unique, so `IndexOf` is determined by it. */
  lemma FirstIndexOfUnique(a: seq<string>, x: string, i: int, j: int)
    requires FirstIndexOf(a, x, i) && FirstIndexOf(a, x, j)
    ensures i == j
  {
  }
}
