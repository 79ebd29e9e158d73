/** The string helpers of .NET that the catalogue relies on:
    `char.IsWhiteSpace`, `string.IsNullOrWhiteSpace`, `string.IsNullOrEmpty`,
    `string.Trim` and the key comparison `StringComparer.OrdinalIgnoreCase`. */
module Text {
  import opened Wrappers

  /** `char.IsWhiteSpace`: the Unicode space, line and paragraph separators,
      U+0009 to U+000D and U+0085. */
  predicate IsWhiteSpace(c: char)
  {
    || c == ' '
    || '\t' <= c <= '\r'
    || c == '\U{85}'
    || c == '\U{A0}'
    || c == '\U{1680}'
    || '\U{2000}' <= c <= '\U{200A}'
    || c == '\U{2028}'
    || c == '\U{2029}'
    || c == '\U{202F}'
    || c == '\U{205F}'
    || c == '\U{3000}'
  }

  /** Every character is white space (true of the empty string). */
  predicate IsBlank(s: string) {
    forall i :: 0 <= i < |s| ==> IsWhiteSpace(s[i])
  }

  /** `string.IsNullOrWhiteSpace`. */
  predicate IsNullOrWhiteSpace(s: Option<string>)
    ensures IsNullOrEmpty(s) ==> IsNullOrWhiteSpace(s)
  {
    s.None? || IsBlank(s.value)
  }

  /** `string.IsNullOrEmpty`. */
  predicate IsNullOrEmpty(s: Option<string>)
    ensures IsNullOrEmpty(s) <==> s.None? || |s.value| == 0
  {
    s.None? || s.value == ""
  }

  /** Removes the leading white space of `s`. */
  function TrimStart(s: string): (r: string)
    ensures |r| <= |s| && r == s[|s| - |r|..]
    ensures IsBlank(s[..|s| - |r|])
    ensures r == [] || !IsWhiteSpace(r[0])
  {
    if s != [] && IsWhiteSpace(s[0]) then
      var r := TrimStart(s[1..]);
      assert s[..|s| - |r|] == [s[0]] + s[1..][..|s| - 1 - |r|];
      r
    else s
  }

  /** Removes the trailing white space of `s`. */
  function TrimEnd(s: string): (r: string)
    ensures |r| <= |s| && r == s[..|r|]
    ensures IsBlank(s[|r|..])
    ensures r == [] || !IsWhiteSpace(r[|r| - 1])
  {
    if s != [] && IsWhiteSpace(s[|s| - 1]) then
      var r := TrimEnd(s[..|s| - 1]);
      assert s[|r|..] == s[..|s| - 1][|r|..] + [s[|s| - 1]];
      r
    else s
  }

  /** `string.Trim`: `s` without its leading and trailing white space. */
  function Trim(s: string): (r: string)
    ensures exists i :: 0 <= i <= |s| - |r| && r == s[i..][..|r|] && IsBlank(s[..i]) && IsBlank(s[i..][|r|..])
    ensures r == [] <==> IsBlank(s)
    ensures r != [] ==> !IsWhiteSpace(r[0]) && !IsWhiteSpace(r[|r| - 1])
  {
    var t := TrimStart(s);
    var r := TrimEnd(t);
    TrimEndOfTrimStart(s, t, r);
    r
  }

  /** Composing the two halves of `Trim`, from their contracts alone. */
  lemma TrimEndOfTrimStart(s: string, t: string, r: string)
    requires |t| <= |s| && t == s[|s| - |t|..] && IsBlank(s[..|s| - |t|])
    requires t == [] || !IsWhiteSpace(t[0])
    requires |r| <= |t| && r == t[..|r|] && IsBlank(t[|r|..])
    requires r == [] || !IsWhiteSpace(r[|r| - 1])
    ensures exists i :: 0 <= i <= |s| - |r| && r == s[i..][..|r|] && IsBlank(s[..i]) && IsBlank(s[i..][|r|..])
    ensures r == [] <==> IsBlank(s)
    ensures r != [] ==> !IsWhiteSpace(r[0]) && !IsWhiteSpace(r[|r| - 1])
  {
    var k := |s| - |t|;
    assert r == s[k..][..|r|] && IsBlank(s[..k]) && IsBlank(s[k..][|r|..]);
    if r == [] {
      assert s == s[..k];
    } else {
      assert r[0] == t[0];
    }
  }

  /** Trimming twice trims no more than trimming once. */
  lemma TrimIdempotent(s: string)
    ensures Trim(Trim(s)) == Trim(s)
  {
    var r := Trim(s);
    if r != [] {
      assert TrimStart(r) == r;
      assert TrimEnd(r) == r;
    }
  }

  /** `string.IsNullOrWhiteSpace` holds exactly of null and of the strings
      that trim to nothing, the case `Money` replaces by its default. */
  lemma NullOrWhiteSpaceIffTrimsEmpty(s: Option<string>)
    ensures IsNullOrWhiteSpace(s) <==> s.None? || Trim(s.value) == []
  {
  }

  /** The character mapping behind `OrdinalIgnoreCase`, restricted to ASCII
      letters: lower case is mapped to upper case. */
  function FoldChar(c: char): char {
    if 'a' <= c <= 'z' then (c as int - 32) as char else c
  }

  /** The canonical form of a key under `OrdinalIgnoreCase`. */
  function Fold(s: string): (r: string)
    ensures |r| == |s|
    ensures forall i :: 0 <= i < |s| ==> r[i] == FoldChar(s[i])
  {
    seq(|s|, i requires 0 <= i < |s| => FoldChar(s[i]))
  }

  /** Two characters are equal ignoring the case of ASCII letters. */
  predicate SameLetterIgnoringCase(a: char, b: char) {
    || a == b
    || ('a' <= a <= 'z' && b as int == a as int - 32)
    || ('A' <= a <= 'Z' && b as int == a as int + 32)
  }

  /** Two strings are equal ignoring the case of ASCII letters, character by character. */
  predicate SameIgnoringCase(s: string, t: string) {
    |s| == |t| && forall i :: 0 <= i < |s| ==> SameLetterIgnoringCase(s[i], t[i])
  }

  /** Folding identifies exactly the strings that differ only in letter case. */
  lemma FoldSameIgnoringCase(s: string, t: string)
    ensures Fold(s) == Fold(t) <==> SameIgnoringCase(s, t)
  {
    if Fold(s) == Fold(t) {
      forall i | 0 <= i < |s| ensures SameLetterIgnoringCase(s[i], t[i]) {
        assert FoldChar(s[i]) == FoldChar(t[i]);
      }
    }
    if SameIgnoringCase(s, t) {
      forall i | 0 <= i < |s| ensures Fold(s)[i] == Fold(t)[i] {
        assert SameLetterIgnoringCase(s[i], t[i]);
      }
    }
  }

  /** A folded key is its own canonical form. */
  lemma FoldIdempotent(s: string)
    ensures Fold(Fold(s)) == Fold(s)
  {
  }
}
