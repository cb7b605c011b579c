/** The Java string operations the validators and the item search rely on:
    `String.trim`, `String.isBlank` and commons-lang's `containsIgnoreCase`. */
module Text {

  /** The characters `String.trim` strips: every code point up to U+0020. */
  predicate TrimmedAway(c: char)
  {
    c as int <= 0x20
  }

  function TrimStart(s: string): (r: string)
    ensures |r| <= |s| && r == s[|s| - |r|..]
    ensures forall i :: 0 <= i < |s| - |r| ==> TrimmedAway(s[i])
    ensures r == [] || !TrimmedAway(r[0])
  {
    if s == [] || !TrimmedAway(s[0]) then s else TrimStart(s[1..])
  }

  function TrimEnd(s: string): (r: string)
    ensures |r| <= |s| && r == s[..|r|]
    ensures forall i :: |r| <= i < |s| ==> TrimmedAway(s[i])
    ensures r == [] || !TrimmedAway(r[|r| - 1])
  {
    if s == [] || !TrimmedAway(s[|s| - 1]) then s else TrimEnd(s[..|s| - 1])
  }

  /** How many leading characters `String.trim` strips. */
  function TrimOffset(s: string): (lo: nat)
    ensures lo <= |s|
  {
    |s| - |TrimStart(s)|
  }

  /** `String.trim`: the infix of `s` left after stripping every leading and
      every trailing character up to U+0020. */
  function Trim(s: string): (r: string)
    ensures TrimOffset(s) + |r| <= |s|
    ensures r == s[TrimOffset(s)..TrimOffset(s) + |r|]
    ensures forall i :: 0 <= i < TrimOffset(s) ==> TrimmedAway(s[i])
    ensures forall i :: TrimOffset(s) + |r| <= i < |s| ==> TrimmedAway(s[i])
    ensures r == [] || (!TrimmedAway(r[0]) && !TrimmedAway(r[|r| - 1]))
  {
    TrimEnd(TrimStart(s))
  }

  /** Trimming leaves something exactly when some character lies above
      U+0020. */
  lemma TrimNonEmptyIff(s: string)
    ensures |Trim(s)| > 0 <==> exists i :: 0 <= i < |s| && !TrimmedAway(s[i])
  {
    var r := Trim(s);
    var lo := TrimOffset(s);
    if |r| > 0 {
      assert s[lo] == r[0];
    } else {
      assert forall i :: 0 <= i < |s| ==> TrimmedAway(s[i]);
    }
  }

  /** `Character.isWhitespace`: the Unicode space, line and paragraph
      separators other than the no-break spaces U+00A0, U+2007 and U+202F,
      plus the controls U+0009..U+000D and U+001C..U+001F. */
  predicate JavaWhitespace(c: char)
  {
    var n := c as int;
    || 0x09 <= n <= 0x0D
    || 0x1C <= n <= 0x20
    || n == 0x1680
    || 0x2000 <= n <= 0x2006
    || 0x2008 <= n <= 0x200A
    || n == 0x2028 || n == 0x2029 || n == 0x205F || n == 0x3000
  }

  /** `String.isBlank`: empty, or whitespace only. */
  predicate Blank(s: string)
  {
    forall i :: 0 <= i < |s| ==> JavaWhitespace(s[i])
  }

  /** `isBlank` and `trim` draw the line between space and text
      differently. On ASCII they agree that a blank string trims to nothing;
      but a control character such as U+0000 is trimmed away without being
      whitespace, and the ideographic space U+3000 is whitespace that `trim`
      keeps. */
  lemma BlankVersusTrim(s: string)
    ensures (forall i :: 0 <= i < |s| ==> s[i] as int < 0x80) && Blank(s) ==> |Trim(s)| == 0
    ensures !Blank([0 as char]) && |Trim([0 as char])| == 0
    ensures Blank([0x3000 as char]) && |Trim([0x3000 as char])| == 1
  {
    if (forall i :: 0 <= i < |s| ==> s[i] as int < 0x80) && Blank(s) {
      AsciiBlankTrimsAway(s);
    }
    NulTrimmedButNotBlank();
    IdeographicBlankButKept();
  }

  lemma NulTrimmedButNotBlank()
    ensures !Blank([0 as char]) && |Trim([0 as char])| == 0
  {
    var nul := [0 as char];
    assert !JavaWhitespace(nul[0]);
    TrimNonEmptyIff(nul);
  }

  lemma IdeographicBlankButKept()
    ensures Blank([0x3000 as char]) && |Trim([0x3000 as char])| == 1
  {
    var ideographic := [0x3000 as char];
    assert !TrimmedAway(ideographic[0]);
    assert TrimStart(ideographic) == ideographic;
  }

  lemma AsciiBlankTrimsAway(s: string)
    requires forall i :: 0 <= i < |s| ==> s[i] as int < 0x80
    requires Blank(s)
    ensures |Trim(s)| == 0
  {
    forall i | 0 <= i < |s|
      ensures TrimmedAway(s[i])
    {
      assert JavaWhitespace(s[i]);
    }
    TrimNonEmptyIff(s);
  }

  /** `regionMatches(true, ...)` for one character: equal, or equal once
      case is folded. `fold` stands for Java's per-character case mapping. */
  predicate SameIgnoringCase(a: char, b: char, fold: char -> char)
  {
    a == b || fold(a) == fold(b)
  }

  /** `needle` occurs in `hay` at position `at`, ignoring case. */
  predicate MatchesAt(hay: string, needle: string, at: nat, fold: char -> char)
  {
    && at + |needle| <= |hay|
    && forall j :: 0 <= j < |needle| ==> SameIgnoringCase(hay[at + j], needle[j], fold)
  }

  /** `StringUtils.containsIgnoreCase(hay, needle)`. */
  predicate ContainsIgnoreCase(hay: string, needle: string, fold: char -> char)
  {
    exists at :: 0 <= at <= |hay| - |needle| && MatchesAt(hay, needle, at, fold)
  }

  /** The empty text occurs in every string, a text never occurs in a
      shorter string, and an exact occurrence is always found. */
  lemma ContainsIgnoreCaseFacts(hay: string, needle: string, at: nat, fold: char -> char)
    ensures ContainsIgnoreCase(hay, [], fold)
    ensures ContainsIgnoreCase(hay, needle, fold) ==> |needle| <= |hay|
    ensures at + |needle| <= |hay| && hay[at..at + |needle|] == needle ==> ContainsIgnoreCase(hay, needle, fold)
  {
    assert MatchesAt(hay, [], 0, fold);
    if at + |needle| <= |hay| && hay[at..at + |needle|] == needle {
      forall j | 0 <= j < |needle|
        ensures SameIgnoringCase(hay[at + j], needle[j], fold)
      {
        assert hay[at..at + |needle|][j] == hay[at + j];
      }
      assert MatchesAt(hay, needle, at, fold);
    }
  }
}
