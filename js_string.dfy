/** The JavaScript string operations the plugin relies on, stated over
    `string` (a sequence of Unicode scalar values):
    `indexOf`/`includes` with a string argument, `replace` with a string
    pattern (first occurrence only, with the `$` patterns of the
    replacement template), and `trim`. */
module JsString {

  /** `pat` occurs in `s` starting at index `i`. */
  predicate OccursAt(s: string, pat: string, i: int) {
    0 <= i && i + |pat| <= |s| && s[i..i + |pat|] == pat
  }

  /** `i` is the leftmost occurrence of `pat` in `s`. */
  predicate IsFirstOccurrence(s: string, pat: string, i: int) {
    OccursAt(s, pat, i) && forall j :: 0 <= j < i ==> !OccursAt(s, pat, j)
  }

  /** `String.prototype.indexOf(pat, from)`: the leftmost occurrence at or
      after `from`, or -1. */
  function IndexOfFrom(s: string, pat: string, from: nat): (r: int)
    requires from <= |s|
    ensures r == -1 || (from <= r && OccursAt(s, pat, r))
    ensures r == -1 ==> forall j :: from <= j ==> !OccursAt(s, pat, j)
    ensures r != -1 ==> forall j :: from <= j < r ==> !OccursAt(s, pat, j)
    decreases |s| - from
  {
    if from + |pat| > |s| then -1
    else if s[from..from + |pat|] == pat then from
    else IndexOfFrom(s, pat, from + 1)
  }

  /** `s.indexOf(pat)`. */
  function IndexOf(s: string, pat: string): (r: int)
    ensures r == -1 <==> forall j :: !OccursAt(s, pat, j)
    ensures r != -1 ==> IsFirstOccurrence(s, pat, r)
  {
    IndexOfFrom(s, pat, 0)
  }

  /** `s.includes(pat)`: a plain substring test. */
  function Includes(s: string, pat: string): (r: bool)
    ensures r <==> exists j :: OccursAt(s, pat, j)
  {
    IndexOf(s, pat) != -1
  }

  /** The expansion of a replacement template by `String.prototype.replace`
      when the pattern is a string (so there are no capture groups):
      `$$` gives `$`, `` $` `` the text before the match, `$&` the match,
      `$'` the text after it; every other character, including a `$`
      starting `$1` or `$<`, is copied as it is. A template without `$` is
      therefore inserted literally. */
  function Substitute(template: string, matched: string, before: string, after: string): (r: string)
    ensures '$' !in template ==> r == template
    decreases |template|
  {
    if |template| == 0 then ""
    else if template[0] == '$' && |template| >= 2 && template[1] == '$' then
      "$" + Substitute(template[2..], matched, before, after)
    else if template[0] == '$' && |template| >= 2 && template[1] == '`' then
      before + Substitute(template[2..], matched, before, after)
    else if template[0] == '$' && |template| >= 2 && template[1] == '&' then
      matched + Substitute(template[2..], matched, before, after)
    else if template[0] == '$' && |template| >= 2 && template[1] == '\'' then
      after + Substitute(template[2..], matched, before, after)
    else
      [template[0]] + Substitute(template[1..], matched, before, after)
  }

  /** `s.replace(pat, rep)` with a string pattern: only the leftmost
      occurrence is replaced; without one, `s` is returned unchanged. */
  function ReplaceFirst(s: string, pat: string, rep: string): (r: string)
    ensures (forall j :: !OccursAt(s, pat, j)) ==> r == s
    ensures forall i :: IsFirstOccurrence(s, pat, i) ==> r == ReplaceAt(s, pat, rep, i)
  {
    var i := IndexOf(s, pat);
    FirstOccurrenceUnique(s, pat, i);
    if i == -1 then s else ReplaceAt(s, pat, rep, i)
  }

  /** `s` with the occurrence of `pat` at `i` replaced by the expanded
      template. */
  function ReplaceAt(s: string, pat: string, rep: string, i: int): string
    requires OccursAt(s, pat, i)
  {
    s[..i] + Substitute(rep, pat, s[..i], s[i + |pat|..]) + s[i + |pat|..]
  }

  /** The leftmost occurrence is unique, so it is the one `indexOf` finds. */
  lemma FirstOccurrenceUnique(s: string, pat: string, i: int)
    requires i == IndexOf(s, pat)
    ensures forall k :: IsFirstOccurrence(s, pat, k) ==> k == i
  {
  }

  /** With a `$`-free replacement, the leftmost occurrence is swapped for
      `rep` and everything after it, later occurrences included, is kept. */
  lemma ReplaceFirstLiteral(s: string, pat: string, rep: string, i: int)
    requires IsFirstOccurrence(s, pat, i)
    requires '$' !in rep
    ensures ReplaceFirst(s, pat, rep) == s[..i] + rep + s[i + |pat|..]
    ensures |ReplaceFirst(s, pat, rep)| == |s| - |pat| + |rep|
  {
  }

  /** The characters `String.prototype.trim` strips: WhiteSpace (tab,
      vertical tab, form feed, space, no-break space, byte order mark and
      the space separators U+1680, U+2000 to U+200A, U+202F, U+205F,
      U+3000) and LineTerminator (LF, CR, U+2028, U+2029). */
  predicate IsJsWhiteSpace(c: char) {
    || c == '\t' || c == '\U{000B}' || c == '\U{000C}' || c == ' '
    || c == '\U{00A0}' || c == '\U{FEFF}' || c == '\U{1680}'
    || ('\U{2000}' <= c <= '\U{200A}')
    || c == '\U{202F}' || c == '\U{205F}' || c == '\U{3000}'
    || c == '\n' || c == '\r' || c == '\U{2028}' || c == '\U{2029}'
  }

  predicate IsBlank(s: string) {
    forall i :: 0 <= i < |s| ==> IsJsWhiteSpace(s[i])
  }

  /** Strips leading white space: the result is the suffix of `s` that
      starts at its first non-white-space character. */
  function TrimStart(s: string): (r: string)
    ensures |r| <= |s| && r == s[|s| - |r|..]
    ensures IsBlank(s[..|s| - |r|])
    ensures r != [] ==> !IsJsWhiteSpace(r[0])
  {
    if s != [] && IsJsWhiteSpace(s[0]) then TrimStart(s[1..]) else s
  }

  /** Strips trailing white space: the result is the prefix of `s` that
      ends at its last non-white-space character. */
  function TrimEnd(s: string): (r: string)
    ensures |r| <= |s| && r == s[..|r|]
    ensures IsBlank(s[|r|..])
    ensures r != [] ==> !IsJsWhiteSpace(r[|r| - 1])
  {
    if s != [] && IsJsWhiteSpace(s[|s| - 1]) then
      var r := TrimEnd(s[..|s| - 1]);
      assert s[|r|..] == s[..|s| - 1][|r|..] + [s[|s| - 1]];
      r
    else s
  }

  /** `s.trim()`. */
  function Trim(s: string): (r: string)
    ensures |r| <= |s|
    ensures r != [] ==> !IsJsWhiteSpace(r[0]) && !IsJsWhiteSpace(r[|r| - 1])
  {
    TrimEnd(TrimStart(s))
  }

  /** `s.trim() === ''` holds exactly when every character of `s` is
      white space (the empty line included). */
  lemma TrimEmptyIffBlank(s: string)
    ensures Trim(s) == "" <==> IsBlank(s)
  {
    var t := TrimStart(s);
    if Trim(s) == "" {
      assert s[..|s| - |t|] == s;
    }
  }
}
