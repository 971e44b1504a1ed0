/** The two Python string methods the validators apply to user input:
    `str.strip()` (remove leading and trailing whitespace) and
    `str.title()` (upper-case the first letter of each run of letters,
    lower-case the rest). Case mapping is modelled for ASCII letters. */
module Text {

  /** Python's `str.isspace` on one character. */
  predicate IsSpace(c: char) {
    c == ' ' || ('\t' <= c <= '\r') || ('\U{1C}' <= c <= '\U{1F}')
    || c == '\U{85}' || c == '\U{A0}' || c == '\U{1680}'
    || ('\U{2000}' <= c <= '\U{200A}') || c == '\U{2028}' || c == '\U{2029}'
    || c == '\U{202F}' || c == '\U{205F}' || c == '\U{3000}'
  }

  predicate AllSpace(s: string) {
    forall k :: 0 <= k < |s| ==> IsSpace(s[k])
  }

  /** `s.lstrip()`: the suffix of `s` after its leading whitespace. */
  function StripLeading(s: string): (r: string)
    ensures |r| <= |s| && r == s[|s| - |r|..]
    ensures r != [] ==> !IsSpace(r[0])
    ensures AllSpace(s[..|s| - |r|])
  {
    if s != [] && IsSpace(s[0]) then
      var r := StripLeading(s[1..]);
      assert s[..|s| - |r|] == [s[0]] + s[1..][..|s| - 1 - |r|];
      r
    else s
  }

  /** `s.rstrip()`: the prefix of `s` before its trailing whitespace. */
  function StripTrailing(s: string): (r: string)
    ensures |r| <= |s| && r == s[..|r|]
    ensures r != [] ==> !IsSpace(r[|r| - 1])
    ensures AllSpace(s[|r|..])
  {
    if s != [] && IsSpace(s[|s| - 1]) then
      var r := StripTrailing(s[..|s| - 1]);
      assert s[|r|..] == s[..|s| - 1][|r|..] + [s[|s| - 1]];
      r
    else s
  }

  /** `s.strip()`. */
  function Strip(s: string): (r: string)
    ensures r == [] <==> AllSpace(s)
    ensures r != [] ==> !IsSpace(r[0]) && !IsSpace(r[|r| - 1])
  {
    var t := StripLeading(s);
    var r := StripTrailing(t);
    assert r == [] ==> AllSpace(s) by {
      if r == [] {
        assert s[..|s|] == s;
      }
    }
    r
  }

  /** Stripping text that neither starts nor ends with whitespace leaves it
      as it is. */
  lemma StripUntrimmed(s: string)
    requires s != [] && !IsSpace(s[0]) && !IsSpace(s[|s| - 1])
    ensures Strip(s) == s
  {
    assert StripLeading(s) == s;
  }

  predicate IsUpper(c: char) { 'A' <= c <= 'Z' }
  predicate IsLower(c: char) { 'a' <= c <= 'z' }
  predicate IsLetter(c: char) { IsUpper(c) || IsLower(c) }

  function ToUpper(c: char): (u: char)
    ensures IsLetter(c) <==> IsUpper(u)
    ensures !IsLetter(c) ==> u == c
  {
    if IsLower(c) then (c as int - 32) as char else c
  }

  function ToLower(c: char): (l: char)
    ensures IsLetter(c) <==> IsLower(l)
    ensures !IsLetter(c) ==> l == c
  {
    if IsUpper(c) then (c as int + 32) as char else c
  }

  /** The characters of the two strings agree after lower-casing. */
  predicate EqualsIgnoringCase(a: string, b: string) {
    |a| == |b| && forall k :: 0 <= k < |a| ==> ToLower(a[k]) == ToLower(b[k])
  }

  /** `str.title()` from a state that says whether the previous character
      was a letter. */
  function TitleFrom(s: string, afterLetter: bool): (r: string)
    ensures |r| == |s|
  {
    if s == [] then []
    else [if afterLetter then ToLower(s[0]) else ToUpper(s[0])] + TitleFrom(s[1..], IsLetter(s[0]))
  }

  /** `s.title()`. */
  function Title(s: string): (r: string)
    ensures |r| == |s|
  {
    TitleFrom(s, false)
  }

  /** A canonical word: one upper-case letter followed by lower-case
      letters, such as "High" or "Monthly". */
  predicate IsCanonicalWord(w: string) {
    w != [] && IsUpper(w[0]) && forall k :: 1 <= k < |w| ==> IsLower(w[k])
  }

  lemma {:induction false} LowerRunMatches(s: string, v: string)
    requires forall k :: 0 <= k < |v| ==> IsLower(v[k])
    ensures TitleFrom(s, true) == v <==> EqualsIgnoringCase(s, v)
    decreases |s|
  {
    if s != [] && |s| == |v| {
      var c := s[0];
      LowerRunMatches(s[1..], v[1..]);
      if TitleFrom(s, true) == v {
        assert ToLower(c) == v[0];
        assert IsLetter(c);
        assert TitleFrom(s[1..], true) == v[1..];
        assert EqualsIgnoringCase(s[1..], v[1..]);
        forall k | 0 <= k < |s| ensures ToLower(s[k]) == ToLower(v[k]) {
          if k > 0 {
            assert s[k] == s[1..][k - 1] && v[k] == v[1..][k - 1];
          }
        }
      }
      if EqualsIgnoringCase(s, v) {
        assert ToLower(c) == ToLower(v[0]) == v[0];
        assert IsLetter(c);
        assert EqualsIgnoringCase(s[1..], v[1..]) by {
          forall k | 0 <= k < |s| - 1 ensures ToLower(s[1..][k]) == ToLower(v[1..][k]) {
            assert s[1..][k] == s[k + 1] && v[1..][k] == v[k + 1];
          }
        }
        assert TitleFrom(s, true) == [v[0]] + v[1..];
      }
    } else if s != [] {
      assert |TitleFrom(s, true)| != |v|;
    }
  }

  /** Title-casing yields a canonical word exactly when the input spells
      that word in any mix of cases. */
  lemma TitleMatchesWord(s: string, w: string)
    requires IsCanonicalWord(w)
    ensures Title(s) == w <==> EqualsIgnoringCase(s, w)
  {
    if s != [] && |s| == |w| {
      var c := s[0];
      LowerRunMatches(s[1..], w[1..]);
      if Title(s) == w {
        assert ToUpper(c) == w[0];
        assert IsLetter(c);
        assert TitleFrom(s[1..], true) == w[1..];
        assert ToLower(c) == ToLower(w[0]);
        forall k | 1 <= k < |s| ensures ToLower(s[k]) == ToLower(w[k]) {
          assert s[k] == s[1..][k - 1] && w[k] == w[1..][k - 1];
        }
      }
      if EqualsIgnoringCase(s, w) {
        assert ToLower(c) == ToLower(w[0]);
        assert IsLetter(c) && ToUpper(c) == w[0];
        assert EqualsIgnoringCase(s[1..], w[1..]) by {
          forall k | 0 <= k < |s| - 1 ensures ToLower(s[1..][k]) == ToLower(w[1..][k]) {
            assert s[1..][k] == s[k + 1] && w[1..][k] == w[k + 1];
          }
        }
        assert Title(s) == [w[0]] + w[1..];
      }
    } else if s != [] {
      assert |Title(s)| != |w|;
    }
  }
}
