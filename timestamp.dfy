/** The two string transformations behind the inserted text:
    `getFormattedTimestamp`, which shapes an ISO 8601 instant as produced by
    `Date.prototype.toISOString` into `YYYY-MM-DD HH:mm:ss`, and
    `formatTimestamp`, which puts that text into the user's style template.
    The clock itself is not modelled: the ISO string is an input. */
module Timestamp {
  import opened JsString

  /** The placeholder of the style template. */
  const Token := "{timestamp}"

  predicate IsAsciiDigit(c: char) {
    '0' <= c <= '9'
  }

  predicate AllDigits(s: string) {
    forall i :: 0 <= i < |s| ==> IsAsciiDigit(s[i])
  }

  /** The regular expression `/\.\d+Z$/` matches `s` at `p`: a dot, one or
      more ASCII digits and a `Z` that ends the string. */
  predicate FractionSuffixAt(s: string, p: int) {
    0 <= p && p + 3 <= |s| && s[p] == '.' && s[|s| - 1] == 'Z'
    && AllDigits(s[p + 1..|s| - 1])
  }

  /** The length of the run of ASCII digits that ends `s`. */
  function TrailingDigitCount(s: string): (k: nat)
    ensures k <= |s|
    ensures forall i :: |s| - k <= i < |s| ==> IsAsciiDigit(s[i])
    ensures k < |s| ==> !IsAsciiDigit(s[|s| - 1 - k])
  {
    if s != [] && IsAsciiDigit(s[|s| - 1]) then
      var t := s[..|s| - 1];
      var k := TrailingDigitCount(t);
      assert k < |t| ==> s[|s| - 2 - k] == t[|t| - 1 - k];
      k + 1
    else 0
  }

  /** `s.replace(/\.\d+Z$/, '')`. */
  function StripFractionSuffix(s: string): (r: string)
    ensures |r| <= |s| && r == s[..|r|]
    ensures r == s || FractionSuffixAt(s, |r|)
  {
    if |s| == 0 || s[|s| - 1] != 'Z' then s
    else
      var k := TrailingDigitCount(s[..|s| - 1]);
      var p := |s| - 2 - k;
      if k >= 1 && p >= 0 && s[p] == '.' then s[..p] else s
  }

  /** A non-digit at `p` followed only by digits: the trailing run is
      exactly the characters after `p`. */
  lemma {:induction false} TrailingDigitsAfter(s: string, p: int)
    requires 0 <= p < |s| && !IsAsciiDigit(s[p])
    requires forall i :: p < i < |s| ==> IsAsciiDigit(s[i])
    ensures TrailingDigitCount(s) == |s| - 1 - p
    decreases |s|
  {
    if p < |s| - 1 {
      var t := s[..|s| - 1];
      assert t[p] == s[p];
      assert forall i :: p < i < |t| ==> IsAsciiDigit(t[i]);
      TrailingDigitsAfter(t, p);
    }
  }

  /** Where the expression matches, the match and everything after it is
      removed; the match position is unique, so this is the regex's match. */
  lemma StripFractionMatch(s: string, p: int)
    requires FractionSuffixAt(s, p)
    ensures StripFractionSuffix(s) == s[..p]
  {
    var body := s[..|s| - 1];
    forall i | p < i < |body| ensures IsAsciiDigit(body[i]) {
      assert body[i] == s[p + 1..|s| - 1][i - p - 1];
    }
    TrailingDigitsAfter(body, p);
  }

  /** Where the expression does not match, the string is returned as is. */
  lemma StripFractionNoMatch(s: string)
    ensures (forall p :: !FractionSuffixAt(s, p)) ==> StripFractionSuffix(s) == s
  {
    if |s| > 0 && s[|s| - 1] == 'Z' {
      var body := s[..|s| - 1];
      var k := TrailingDigitCount(body);
      var p := |s| - 2 - k;
      if k >= 1 && p >= 0 && s[p] == '.' {
        assert s[p + 1..|s| - 1] == body[|body| - k..];
        assert FractionSuffixAt(s, p);
      }
    }
  }

  /** `getFormattedTimestamp` applied to the ISO string the clock gave:
      the first `T` becomes a space, then a trailing `.digits Z` goes. */
  function ShapeIsoTimestamp(iso: string): (r: string)
    ensures |r| <= |iso|
  {
    var spaced := ReplaceFirst(iso, "T", " ");
    assert |spaced| == |iso| by {
      var i := IndexOf(iso, "T");
      if i != -1 {
        assert IsFirstOccurrence(iso, "T", i);
      }
    }
    StripFractionSuffix(spaced)
  }

  /** For a date part without `T`, a time part, and a non-empty fraction:
      the date and time come out joined by one space, and nothing else. */
  lemma ShapeIsoParts(date: string, time: string, fraction: string)
    requires 'T' !in date
    requires |fraction| >= 1 && AllDigits(fraction)
    ensures ShapeIsoTimestamp(date + "T" + time + "." + fraction + "Z") == date + " " + time
  {
    var rest := time + "." + fraction + "Z";
    assert date + "T" + time + "." + fraction + "Z" == date + "T" + rest;
    SpaceFirstT(date, rest);
    assert date + " " + rest == (date + " " + time) + "." + fraction + "Z";
    StripFractionOf(date + " " + time, fraction);
  }

  /** Only the first `T` becomes a space: one after a `T`-free prefix. */
  lemma SpaceFirstT(date: string, rest: string)
    requires 'T' !in date
    ensures ReplaceFirst(date + "T" + rest, "T", " ") == date + " " + rest
  {
    var iso := date + "T" + rest;
    forall j | 0 <= j < |date| ensures !OccursAt(iso, "T", j) {
      assert iso[j..j + 1] == [date[j]];
    }
    assert OccursAt(iso, "T", |date|);
    ReplaceFirstLiteral(iso, "T", " ", |date|);
    assert iso[..|date|] == date;
    assert iso[|date| + 1..] == rest;
  }

  /** A `.`, digits and `Z` at the end are cut off, and only they. */
  lemma StripFractionOf(prefix: string, fraction: string)
    requires |fraction| >= 1 && AllDigits(fraction)
    ensures StripFractionSuffix(prefix + "." + fraction + "Z") == prefix
  {
    var s := prefix + "." + fraction + "Z";
    var p := |prefix|;
    assert s[p + 1..|s| - 1] == fraction;
    StripFractionMatch(s, p);
    assert s[..p] == prefix;
  }

  /** The date part of `toISOString`: `YYYY-MM-DD`, or with a six-digit
      signed year `±YYYYYY-MM-DD` outside years 0 to 9999. */
  predicate IsIsoDate(d: string) {
    var y := |d| - 6;
    (|d| == 10 || (|d| == 13 && (d[0] == '+' || d[0] == '-')))
    && AllDigits(d[if |d| == 10 then 0 else 1..y]) && d[y] == '-' && AllDigits(d[y + 1..y + 3])
    && d[y + 3] == '-' && AllDigits(d[y + 4..])
  }

  /** `HH:mm:ss`. */
  predicate IsIsoTime(t: string) {
    |t| == 8 && AllDigits(t[..2]) && t[2] == ':' && AllDigits(t[3..5])
    && t[5] == ':' && AllDigits(t[6..])
  }

  /** The whole of `toISOString`: date, `T`, time, `.sss`, `Z`. */
  predicate IsIsoInstant(s: string) {
    var n := |s| - 14;
    (|s| == 24 || |s| == 27) && IsIsoDate(s[..n]) && s[n] == 'T'
    && IsIsoTime(s[n + 1..n + 9]) && s[n + 9] == '.'
    && AllDigits(s[n + 10..n + 13]) && s[n + 13] == 'Z'
  }

  /** Every character of an ISO date or time is a digit, a sign, `-` or `:`. */
  predicate IsoCharsOnly(s: string) {
    forall i :: 0 <= i < |s| ==> IsIsoChar(s[i])
  }

  predicate IsIsoChar(c: char) {
    IsAsciiDigit(c) || c == '+' || c == '-' || c == ':'
  }

  lemma IsoDateChars(d: string)
    requires IsIsoDate(d)
    ensures IsoCharsOnly(d)
  {
    var y, x := |d| - 6, if |d| == 10 then 0 else 1;
    forall i | 0 <= i < |d| ensures IsIsoChar(d[i]) {
      if x <= i < y {
        assert d[i] == d[x..y][i - x];
      } else if y < i < y + 3 {
        assert d[i] == d[y + 1..y + 3][i - (y + 1)];
      } else if y + 3 < i {
        assert d[i] == d[y + 4..][i - (y + 4)];
      }
    }
  }

  lemma IsoTimeChars(t: string)
    requires IsIsoTime(t)
    ensures IsoCharsOnly(t)
  {
    forall i | 0 <= i < |t| ensures IsIsoChar(t[i]) {
      if i < 2 {
        assert t[i] == t[..2][i];
      } else if 2 < i < 5 {
        assert t[i] == t[3..5][i - 3];
      } else if 5 < i {
        assert t[i] == t[6..][i - 6];
      }
    }
  }

  /** A `toISOString` instant is shaped into its date and time separated by
      one space (19 characters for a four-digit year), containing no `$`. */
  lemma ShapeIsoInstant(iso: string)
    requires IsIsoInstant(iso)
    ensures var n := |iso| - 14;
      ShapeIsoTimestamp(iso) == iso[..n] + " " + iso[n + 1..n + 9]
    ensures |iso| == 24 ==> |ShapeIsoTimestamp(iso)| == 19
    ensures '$' !in ShapeIsoTimestamp(iso)
  {
    var n := |iso| - 14;
    var date, time, fraction := iso[..n], iso[n + 1..n + 9], iso[n + 10..n + 13];
    IsoDateChars(date);
    IsoTimeChars(time);
    assert 'T' !in date;
    assert iso[n..n + 1] == "T" && iso[n + 9..n + 10] == "." && iso[n + 13..] == "Z";
    assert iso == iso[..n] + iso[n..n + 1] + iso[n + 1..n + 9] + iso[n + 9..n + 10]
      + iso[n + 10..n + 13] + iso[n + 13..];
    ShapeIsoParts(date, time, fraction);
    IsoJoinedHasNoDollar(date, time);
  }

  lemma IsoJoinedHasNoDollar(date: string, time: string)
    requires IsoCharsOnly(date) && IsoCharsOnly(time)
    ensures '$' !in date + " " + time
  {
    var r := date + " " + time;
    assert forall i :: 0 <= i < |r| ==> r[i] == ' ' || IsIsoChar(r[i]);
  }

  /** `formatTimestamp`: the style with its first `{timestamp}` replaced.
      A style without the placeholder is used verbatim (`NOTE` stays
      `NOTE`): no timestamp appears. */
  function FormatTimestamp(style: string, timestamp: string): (r: string)
    ensures !Includes(style, Token) ==> r == style
  {
    ReplaceFirst(style, Token, timestamp)
  }

  /** With the placeholder first at `i`, only that occurrence is replaced
      by the timestamp; the output is 11 characters shorter than the style
      plus the timestamp. */
  lemma FormatSubstitutesFirstToken(style: string, timestamp: string, i: int)
    requires IsFirstOccurrence(style, Token, i)
    requires '$' !in timestamp
    ensures FormatTimestamp(style, timestamp) == style[..i] + timestamp + style[i + 11..]
    ensures |FormatTimestamp(style, timestamp)| == |style| - 11 + |timestamp|
  {
    ReplaceFirstLiteral(style, Token, timestamp, i);
  }

  /** A `toISOString` instant formatted into a style whose placeholder is
      first at `i`: the date and time, separated by a space, stand where
      the placeholder stood. */
  lemma FormatIsoInstant(style: string, iso: string, i: int)
    requires IsIsoInstant(iso)
    requires IsFirstOccurrence(style, Token, i)
    ensures var n := |iso| - 14;
      FormatTimestamp(style, ShapeIsoTimestamp(iso))
        == style[..i] + (iso[..n] + " " + iso[n + 1..n + 9]) + style[i + 11..]
  {
    var t, n := ShapeIsoTimestamp(iso), |iso| - 14;
    assert t == iso[..n] + " " + iso[n + 1..n + 9] && '$' !in t by {
      ShapeIsoInstant(iso);
    }
    FormatSubstitutesFirstToken(style, t, i);
  }

  /** The default style `{timestamp}` yields the timestamp itself. */
  lemma FormatDefaultStyle(timestamp: string)
    requires '$' !in timestamp
    ensures FormatTimestamp(Token, timestamp) == timestamp
  {
    FormatSubstitutesFirstToken(Token, timestamp, 0);
  }

  /** A placeholder preceded by text without `{` is the first one, so the
      style `[{timestamp}]` puts the timestamp between the brackets. */
  lemma FormatAroundToken(before: string, after: string, timestamp: string)
    requires '{' !in before
    requires '$' !in timestamp
    ensures FormatTimestamp(before + Token + after, timestamp) == before + timestamp + after
  {
    var style := before + Token + after;
    forall j | 0 <= j < |before| ensures !OccursAt(style, Token, j) {
      assert style[j] == before[j];
    }
    assert style[|before|..|before| + 11] == Token;
    FormatSubstitutesFirstToken(style, timestamp, |before|);
    assert style[..|before|] == before && style[|before| + 11..] == after;
  }

  /** 10:30:00.000 on 15 January 2024 is shaped into `2024-01-15 10:30:00`. */
  lemma ShapeIsoExample(date: string, time: string, iso: string)
    requires date == "2024-01-15" && time == "10:30:00"
    requires iso == date + "T" + time + ".000Z"
    ensures ShapeIsoTimestamp(iso) == date + " " + time
    ensures '$' !in ShapeIsoTimestamp(iso) && |ShapeIsoTimestamp(iso)| == 19
  {
    assert '$' !in date && '$' !in time;
    assert iso == date + "T" + time + "." + "000" + "Z";
    ShapeIsoParts(date, time, "000");
  }
}
