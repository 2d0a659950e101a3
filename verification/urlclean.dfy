/** The clean-up a chart URL goes through before it is fetched
    (patchebookfigs.py lines 39-41): the HTML entity `&amp;` is turned back
    into `&`, and then Python 2.7's `urllib.unquote_plus` turns `+` into a
    space and decodes `%XX` escapes. Each step is given with its inverse, and
    the round trip through both is proved. */
module UrlClean {
  import opened Text

  /** `s.replace('&amp;', '&')`. */
  function UnescapeAmp(s: string): string {
    Replace(s, "&amp;", "&")
  }

  /** The inverse: how `&` is written inside an HTML attribute. */
  function EscapeAmp(s: string): string {
    Replace(s, "&", "&amp;")
  }

  /** Unescaping an escaped string gives it back. */
  lemma {:induction false} AmpRoundTrip(s: string)
    ensures UnescapeAmp(EscapeAmp(s)) == s
    decreases |s|
  {
    if s != [] {
      AmpRoundTrip(s[1..]);
      var rest := EscapeAmp(s[1..]);
      if s[0] == '&' {
        assert s[..1] == "&";
        assert EscapeAmp(s) == "&amp;" + rest;
        assert ("&amp;" + rest)[..5] == "&amp;" && ("&amp;" + rest)[5..] == rest;
      } else {
        assert s[..1] != "&";
        assert EscapeAmp(s) == [s[0]] + rest;
        var t := [s[0]] + rest;
        assert !(5 <= |t| && t[..5] == "&amp;") by {
          if 5 <= |t| {
            assert t[..5][0] == s[0];
          }
        }
        assert ([s[0]] + rest)[1..] == rest;
      }
      assert s == [s[0]] + s[1..];
    }
  }

  // ---------------------------------------------------------------------
  // `urllib.unquote` and `urllib.unquote_plus` (Python 2.7)

  /** A hexadecimal digit, in either case. */
  predicate IsHex(c: char) {
    '0' <= c <= '9' || 'A' <= c <= 'F' || 'a' <= c <= 'f'
  }

  function HexValue(c: char): (v: nat)
    requires IsHex(c)
    ensures v < 16
  {
    if c <= '9' then c as int - '0' as int
    else if c <= 'F' then c as int - 'A' as int + 10
    else c as int - 'a' as int + 10
  }

  /** The upper-case digit `quote` writes for `v`. */
  function HexDigit(v: nat): (c: char)
    requires v < 16
    ensures IsHex(c) && HexValue(c) == v
  {
    if v < 10 then ('0' as int + v) as char else ('A' as int + v - 10) as char
  }

  /** `urllib.unquote(s)`: every `%` followed by two hexadecimal digits is
      replaced by the character with that code; any other `%` stays. The
      decoded character is not looked at again. */
  function Unquote(s: string): (r: string)
    ensures |r| <= |s|
    decreases |s|
  {
    if s == [] then []
    else if |s| >= 3 && s[0] == '%' && IsHex(s[1]) && IsHex(s[2]) then
      [(HexValue(s[1]) * 16 + HexValue(s[2])) as char] + Unquote(s[3..])
    else [s[0]] + Unquote(s[1..])
  }

  /** `urllib.unquote_plus(s)`: `+` becomes a space, then `unquote`. */
  function UnquotePlus(s: string): string {
    Unquote(Replace(s, "+", " "))
  }

  /** A string with no `%` is its own `unquote`. */
  lemma {:induction false} UnquoteNoPercent(s: string)
    requires '%' !in s
    ensures Unquote(s) == s
    decreases |s|
  {
    if s != [] {
      assert s[0] in s && '%' !in s[1..];
      UnquoteNoPercent(s[1..]);
      assert s == [s[0]] + s[1..];
    }
  }

  /** A string with neither `%` nor `+` is its own `unquote_plus`. */
  lemma UnquotePlusPlain(s: string)
    requires '%' !in s && '+' !in s
    ensures UnquotePlus(s) == s
  {
    forall j ensures !OccursAt("+", s, j) {
      if 0 <= j && j + 1 <= |s| {
        assert s[j..j + 1][0] == s[j];
      }
    }
    ReplaceAbsent(s, "+", " ");
    UnquoteNoPercent(s);
  }

  /** Characters `quote` never escapes: letters, digits and `_.-`. */
  predicate AlwaysSafe(c: char) {
    'A' <= c <= 'Z' || 'a' <= c <= 'z' || '0' <= c <= '9' || c == '_' || c == '.' || c == '-'
  }

  /** Python strings here are byte strings: every character is below 256. */
  predicate IsBytes(s: string) {
    forall k :: 0 <= k < |s| ==> s[k] as int < 256
  }

  /** `%XX` for the byte `c`, upper-case as `quote` writes it. */
  function Escape(c: char): string
    requires c as int < 256
  {
    ['%', HexDigit(c as int / 16), HexDigit(c as int % 16)]
  }

  /** What `urllib.quote_plus(s, safe='')` writes for one byte. */
  function QuoteChar(c: char): string
    requires c as int < 256
  {
    if c == ' ' then "+" else if AlwaysSafe(c) then [c] else Escape(c)
  }

  /** `urllib.quote_plus(s, safe='')`, the inverse of `unquote_plus`: a space
      becomes `+`, safe characters stay, every other byte becomes `%XX`. */
  function QuotePlus(s: string): string
    requires IsBytes(s)
    decreases |s|
  {
    if s == [] then [] else QuoteChar(s[0]) + QuotePlus(s[1..])
  }

  /** `quote` with the space kept: what `+` to space turns `QuotePlus` into. */
  function QuoteKeepSpace(s: string): string
    requires IsBytes(s)
    decreases |s|
  {
    if s == [] then []
    else (if s[0] == ' ' || AlwaysSafe(s[0]) then [s[0]] else Escape(s[0])) + QuoteKeepSpace(s[1..])
  }

  /** The piece `quote_plus` writes for one byte, with `+` turned back
      into a space. */
  lemma PlusToSpaceChar(c: char)
    requires c as int < 256
    ensures Replace(QuoteChar(c), "+", " ") == if c == ' ' || AlwaysSafe(c) then [c] else Escape(c)
  {
    if c == ' ' {
      assert Replace("+", "+", " ") == " " + Replace([], "+", " ");
    } else if AlwaysSafe(c) {
      assert Replace([c], "+", " ") == [c] + Replace([], "+", " ");
    } else {
      var e := Escape(c);
      assert e[1..][1..][1..] == [];
      assert Replace(e[1..][1..], "+", " ") == [e[2]] + Replace(e[1..][1..][1..], "+", " ");
      assert Replace(e[1..], "+", " ") == [e[1]] + Replace(e[1..][1..], "+", " ");
      assert Replace(e, "+", " ") == [e[0]] + Replace(e[1..], "+", " ");
    }
  }

  /** Turning `+` into a space in `QuotePlus(s)` gives `QuoteKeepSpace(s)`:
      the only `+` signs there are the encoded spaces. */
  lemma {:induction false} PlusToSpace(s: string)
    requires IsBytes(s)
    ensures Replace(QuotePlus(s), "+", " ") == QuoteKeepSpace(s)
    decreases |s|
  {
    if s != [] {
      PlusToSpace(s[1..]);
      ReplaceCharConcat(QuoteChar(s[0]), QuotePlus(s[1..]), '+', " ");
      PlusToSpaceChar(s[0]);
    }
  }

  /** `unquote` undoes the escaping of one byte. */
  lemma UnquoteEscape(c: char, rest: string)
    requires c as int < 256
    ensures Unquote(Escape(c) + rest) == [c] + Unquote(rest)
  {
    var e := Escape(c) + rest;
    assert e[3..] == rest;
    assert (HexValue(e[1]) * 16 + HexValue(e[2])) as char == c;
  }

  /** `unquote` passes a character other than `%` through. */
  lemma UnquoteKeep(c: char, rest: string)
    requires c != '%'
    ensures Unquote([c] + rest) == [c] + Unquote(rest)
  {
    assert ([c] + rest)[1..] == rest;
  }

  lemma {:induction false} UnquoteKeepSpace(s: string)
    requires IsBytes(s)
    ensures Unquote(QuoteKeepSpace(s)) == s
    decreases |s|
  {
    if s != [] {
      var c := s[0];
      UnquoteKeepSpace(s[1..]);
      if c == ' ' || AlwaysSafe(c) {
        UnquoteKeep(c, QuoteKeepSpace(s[1..]));
      } else {
        UnquoteEscape(c, QuoteKeepSpace(s[1..]));
      }
      assert s == [c] + s[1..];
    }
  }

  /** `unquote_plus(quote_plus(s)) == s` for every byte string. */
  lemma QuoteRoundTrip(s: string)
    requires IsBytes(s)
    ensures UnquotePlus(QuotePlus(s)) == s
  {
    PlusToSpace(s);
    UnquoteKeepSpace(s);
  }

  /** The URL handed to the fetch (lines 39-41): the captured text with
      `&amp;` turned into `&`, then `unquote_plus`. */
  function CleanUrl(captured: string): string {
    UnquotePlus(UnescapeAmp(captured))
  }

  /** A URL written into the page quoted and then HTML-escaped is fetched
      exactly as it was before quoting. */
  lemma CleanUrlRoundTrip(url: string)
    requires IsBytes(url)
    ensures CleanUrl(EscapeAmp(QuotePlus(url))) == url
  {
    AmpRoundTrip(QuotePlus(url));
    QuoteRoundTrip(url);
  }
}
