/**
  The `"%H:%M"` text form of a time of day, as the alarm book reads it
  (`datetime.strptime(text.strip(), "%H:%M").time()`) and writes it
  (`time.strftime("%H:%M")`).

  Accepted grammar, after stripping surrounding whitespace, with the whole
  remaining text consumed:
      clock  ::= hour ":" minute
      hour   ::= digit | digit digit      (value 0 .. 23)
      minute ::= digit | digit digit      (value 0 .. 59)
      digit  ::= "0" .. "9"
  Leading zeros are allowed, so "7:5", "07:05" and "7:05" all read as 07:05.
 */
module TimeFormat {
  import opened Wrappers
  import opened Clock

  /** Python's `str.isspace`, the characters `str.strip()` removes, by code point. */
  predicate IsSpace(c: char) {
    var n := c as int;
    (0x09 <= n <= 0x0D) || (0x1C <= n <= 0x20) || n == 0x85 || n == 0xA0 ||
    n == 0x1680 || (0x2000 <= n <= 0x200A) || n == 0x2028 || n == 0x2029 ||
    n == 0x202F || n == 0x205F || n == 0x3000
  }

  /** Every character of `s` from position `lo` up to (not including) `hi` is whitespace. */
  predicate SpacesIn(s: string, lo: int, hi: int)
    requires 0 <= lo && hi <= |s|
  {
    forall k :: lo <= k < hi ==> IsSpace(s[k])
  }

  predicate AllSpace(s: string) {
    SpacesIn(s, 0, |s|)
  }

  /** `s.lstrip()`: the longest suffix of `s` that does not start with whitespace. */
  function TrimStart(s: string): (r: string)
    ensures |r| <= |s| && r == s[|s| - |r|..]
    ensures SpacesIn(s, 0, |s| - |r|)
    ensures r == [] || !IsSpace(r[0])
  {
    if s != [] && IsSpace(s[0]) then
      var r := TrimStart(s[1..]);
      assert s[1..][|s| - 1 - |r|..] == s[|s| - |r|..];
      forall k | 1 <= k < |s| - |r| ensures IsSpace(s[k]) {
        assert s[k] == s[1..][k - 1];
      }
      r
    else
      s
  }

  /** `s.rstrip()`: the longest prefix of `s` that does not end with whitespace. */
  function TrimEnd(s: string): (r: string)
    ensures |r| <= |s| && r == s[..|r|]
    ensures SpacesIn(s, |r|, |s|)
    ensures r == [] || !IsSpace(r[|r| - 1])
  {
    if s != [] && IsSpace(s[|s| - 1]) then
      var r := TrimEnd(s[..|s| - 1]);
      assert s[..|s| - 1][..|r|] == s[..|r|];
      forall k | |r| <= k < |s| - 1 ensures IsSpace(s[k]) {
        assert s[k] == s[..|s| - 1][k];
      }
      r
    else
      s
  }

  /** How many characters `s.lstrip()` removes. */
  function LeadingSpaces(s: string): nat
  {
    |s| - |TrimStart(s)|
  }

  /**
    `w` sits in `u` at position `k`, everything around it is whitespace, and it
    neither starts nor ends with whitespace.
   */
  predicate Framed(u: string, k: nat, w: string) {
    k + |w| <= |u| && w == u[k..k + |w|] && SpacesIn(u, 0, k) && SpacesIn(u, k + |w|, |u|) &&
    (w == [] || (!IsSpace(w[0]) && !IsSpace(w[|w| - 1])))
  }

  /** `s.strip()`: `s` without its leading and trailing whitespace (see `StripIsFramed`). */
  function Strip(s: string): string
  {
    TrimEnd(TrimStart(s))
  }

  /**
    What `strip()` keeps is the part of the text after its leading whitespace,
    with whitespace all around it, and it neither starts nor ends with whitespace.
   */
  lemma StripIsFramed(s: string)
    ensures Framed(s, LeadingSpaces(s), Strip(s))
  {
    var l := TrimStart(s);
    var r := TrimEnd(l);
    assert LeadingSpaces(s) == |s| - |l| && Strip(s) == r;
    StripFramed(s, l, r);
  }

  /** Stripping the end of what `lstrip()` left leaves a framed window of the whole text. */
  lemma StripFramed(s: string, l: string, r: string)
    requires |l| <= |s| && l == s[|s| - |l|..] && SpacesIn(s, 0, |s| - |l|)
    requires l == [] || !IsSpace(l[0])
    requires |r| <= |l| && r == l[..|r|] && SpacesIn(l, |r|, |l|)
    requires r == [] || !IsSpace(r[|r| - 1])
    ensures Framed(s, |s| - |l|, r)
  {
    var i := |s| - |l|;
    assert r == s[i..i + |r|];
    forall k | i + |r| <= k < |s| ensures IsSpace(s[k]) {
      assert s[k] == l[k - i];
    }
    assert r != [] ==> r[0] == l[0];
  }

  predicate IsDigit(c: char) {
    '0' <= c <= '9'
  }

  function DigitValue(c: char): (n: nat)
    requires IsDigit(c)
    ensures n < 10
  {
    c as int - '0' as int
  }

  function Digit(n: nat): (c: char)
    requires n < 10
    ensures IsDigit(c) && DigitValue(c) == n
  {
    ('0' as int + n) as char
  }

  /** Every character of `f` is a decimal digit. */
  predicate AllDigits(f: string) {
    forall k :: 0 <= k < |f| ==> IsDigit(f[k])
  }

  /** A `%H` or `%M` field: one or two decimal digits. */
  predicate Digits(f: string) {
    1 <= |f| <= 2 && AllDigits(f)
  }

  /** The number a string of decimal digits writes, most significant digit first. */
  function DecimalValue(f: string): nat
    requires AllDigits(f)
  {
    if f == [] then 0 else 10 * DecimalValue(f[..|f| - 1]) + DigitValue(f[|f| - 1])
  }

  /** The value of one or two decimal digits, as `%H` and `%M` read them; None for anything else. */
  function FieldValue(f: string): (r: Option<nat>)
    ensures r.Some? <==> Digits(f)
    ensures r.Some? ==> r.value == DecimalValue(f) && r.value < 100
  {
    if |f| == 1 && IsDigit(f[0]) then
      assert DecimalValue(f) == 10 * DecimalValue([]) + DigitValue(f[0]);
      Some(DigitValue(f[0]))
    else if |f| == 2 && IsDigit(f[0]) && IsDigit(f[1]) then
      assert DecimalValue(f[..1]) == DigitValue(f[0]);
      Some(10 * DigitValue(f[0]) + DigitValue(f[1]))
    else
      None
  }

  /**
    An hour field and a minute field give that time with zero seconds exactly
    when both are one or two digits, the hour below 24 and the minute below 60.
   */
  function Fields(h: string, m: string): (r: Option<TimeOfDay>)
    ensures r.Some? <==> Digits(h) && Digits(m) && DecimalValue(h) < 24 && DecimalValue(m) < 60
    ensures r.Some? ==> r.value == Time(DecimalValue(h), DecimalValue(m), 0, 0)
  {
    match (FieldValue(h), FieldValue(m))
    case (Some(hh), Some(mm)) =>
      if hh < 24 && mm < 60 then Some(Time(hh, mm, 0, 0)) else None
    case _ => None
  }

  /** The `%H:%M` grammar on already stripped text: the colon follows a one- or two-character hour. */
  function ParseClock(s: string): (r: Option<TimeOfDay>)
  {
    if |s| >= 2 && s[1] == ':' then Fields(s[..1], s[2..])
    else if |s| >= 3 && s[2] == ':' then Fields(s[..2], s[3..])
    else None
  }

  /**
    `strptime(text.strip(), "%H:%M").time()`, with None for the `ValueError` raised on
    text outside the grammar.
   */
  function ParseHHMM(text: string): (r: Option<TimeOfDay>)
    ensures r.Some? ==> r.value.second == 0 && r.value.microsecond == 0
  {
    ParseClock(Strip(text))
  }

  /**
    The `%H:%M` grammar, stated on any split of the stripped text at a colon:
    the text parses exactly when the part before the colon is one or two
    digits below 24 and the part after it one or two digits below 60, and it
    then reads as that hour and minute. Splitting at any other colon than the
    one after the hour gives a part that is not all digits, so the answer is
    the same for every split.
   */
  lemma ParseGrammar(text: string, h: string, m: string)
    requires Strip(text) == h + [':'] + m
    ensures ParseHHMM(text) ==
            if Digits(h) && Digits(m) && DecimalValue(h) < 24 && DecimalValue(m) < 60
            then Some(Time(DecimalValue(h), DecimalValue(m), 0, 0))
            else None
  {
    ClockGrammar(Strip(text), h, m);
  }

  /** A stripped text without a colon never parses. */
  lemma ParseNeedsColon(text: string)
    requires ':' !in Strip(text)
    ensures ParseHHMM(text) == None
  {
    var s := Strip(text);
    assert |s| >= 2 ==> s[1] != ':';
    assert |s| >= 3 ==> s[2] != ':';
  }

  /**
    Unpadded text in the grammar is accepted, with leading zeros optional on
    either field: "07:05", "7:05", "07:5" and "7:5" all read as 07:05.
   */
  lemma ParseAccepts(h: string, m: string)
    requires Digits(h) && Digits(m) && DecimalValue(h) < 24 && DecimalValue(m) < 60
    ensures ParseHHMM(h + [':'] + m) == Some(Time(DecimalValue(h), DecimalValue(m), 0, 0))
  {
    StripClock(h, m);
    ParseGrammar(h + [':'] + m, h, m);
  }

  /** Text made of digit fields around a colon has no whitespace to strip. */
  lemma StripClock(h: string, m: string)
    requires Digits(h) && Digits(m)
    ensures Strip(h + [':'] + m) == h + [':'] + m
  {
    var s := h + [':'] + m;
    assert s[0] == h[0] && s[|s| - 1] == m[|m| - 1];
    StripUnpadded(s);
  }

  /** A single digit on each side of the colon reads as that hour and that minute. */
  lemma ParseOneDigitFields(a: char, b: char)
    requires IsDigit(a) && IsDigit(b)
    ensures ParseHHMM([a] + [':'] + [b]) == Some(Time(DigitValue(a), DigitValue(b), 0, 0))
  {
    assert DecimalValue([a]) == DigitValue(a) by { assert [a][..0] == []; }
    assert DecimalValue([b]) == DigitValue(b) by { assert [b][..0] == []; }
    ParseAccepts([a], [b]);
  }

  /** A field of three or more characters is refused: "007:05" and "12:345" do not parse. */
  lemma ParseRejectsLongField(text: string, h: string, m: string)
    requires Strip(text) == h + [':'] + m && (|h| > 2 || |m| > 2)
    ensures ParseHHMM(text) == None
  {
    ParseGrammar(text, h, m);
  }

  /** A second colon is refused: "1:2:3" does not parse. */
  lemma ParseRejectsSecondColon(text: string, h: string, m: string, rest: string)
    requires Strip(text) == h + [':'] + m + [':'] + rest
    ensures ParseHHMM(text) == None
  {
    var tail := m + [':'] + rest;
    assert Strip(text) == h + [':'] + tail;
    assert tail[|m|] == ':';
    ParseGrammar(text, h, tail);
  }

  /** `ParseClock` on `h + ":" + m` is `Fields(h, m)`, whichever colon `h + ":" + m` splits at. */
  lemma ClockGrammar(s: string, h: string, m: string)
    requires s == h + [':'] + m
    ensures ParseClock(s) == Fields(h, m)
  {
    assert s[|h|] == ':';
    if |s| >= 2 && s[1] == ':' {
      ColonSplit(s, h, m, 1);
    } else if |s| >= 3 && s[2] == ':' {
      ColonSplit(s, h, m, 2);
    } else {
      assert |h| != 1 && |h| != 2;
    }
  }

  /**
    Splitting `h + ":" + m` at a colon at position `i` gives fields that parse
    as `h` and `m` do: when `i` is not the colon after `h`, a colon lands in
    one of the fields on either side, and neither split parses.
   */
  lemma ColonSplit(s: string, h: string, m: string, i: nat)
    requires s == h + [':'] + m && i < |s| && s[i] == ':'
    ensures Fields(s[..i], s[i + 1..]) == Fields(h, m)
  {
    var c := |h|;
    if i < c {
      assert h[i] == ':';
      assert s[i + 1..][c - i - 1] == ':';
    } else if c < i {
      assert m[i - c - 1] == ':';
      assert s[..i][c] == ':';
    } else {
      assert s[..i] == h && s[i + 1..] == m;
    }
  }

  /** `t.strftime("%H:%M")`: two zero-padded digits of hour and minute around a colon. */
  function FormatHHMM(t: TimeOfDay): (r: string)
    ensures |r| == 5 && r[2] == ':'
    ensures IsDigit(r[0]) && IsDigit(r[1]) && IsDigit(r[3]) && IsDigit(r[4])
  {
    [Digit(t.hour / 10), Digit(t.hour % 10), ':', Digit(t.minute / 10), Digit(t.minute % 10)]
  }

  /**
    The start of the minute `t` falls in: seconds and microseconds dropped, as
    an `HH:MM` round trip leaves a time of day.
   */
  function TruncateToMinute(t: TimeOfDay): (r: TimeOfDay)
    ensures SecondsOfDay(r) == SecondsOfDay(t) - t.second && r.microsecond == 0
  {
    Time(t.hour, t.minute, 0, 0)
  }

  /**
    Reading back what `strftime("%H:%M")` wrote keeps hour and minute and zeroes
    the rest: the edit popup pre-fills this text and `save` re-parses it.
   */
  lemma ParseFormat(t: TimeOfDay)
    ensures ParseHHMM(FormatHHMM(t)) == Some(TruncateToMinute(t))
  {
    var s := FormatHHMM(t);
    assert !IsSpace(s[0]) && !IsSpace(s[4]);
    assert Strip(s) == s by { StripUnpadded(s); }
    assert FieldValue(s[..2]) == Some(t.hour);
    assert FieldValue(s[3..]) == Some(t.minute);
  }

  /**
    Parsing accepts every text `strftime("%H:%M")` writes, and what it reads
    is already canonical: writing it out and parsing again gives it back.
   */
  lemma ParseCanonical(text: string)
    requires ParseHHMM(text).Some?
    ensures ParseHHMM(FormatHHMM(ParseHHMM(text).value)) == ParseHHMM(text)
  {
    ParseFormat(ParseHHMM(text).value);
  }

  /**
    A text in the two-digit form `HH:MM` (after stripping) that parses is
    exactly what formatting the parsed time writes.
   */
  lemma FormatParse(text: string)
    requires ParseHHMM(text).Some? && |Strip(text)| == 5
    ensures FormatHHMM(ParseHHMM(text).value) == Strip(text)
  {
    var s := Strip(text);
    var t := ParseHHMM(text).value;
    assert FieldValue(s[2..]).None?;
    assert Fields(s[..2], s[3..]) == Some(t);
    TwoDigits(s[0], s[1], t.hour);
    TwoDigits(s[3], s[4], t.minute);
    assert FormatHHMM(t) == [s[0], s[1], s[2], s[3], s[4]];
  }

  /** Two digits read as a number are written back as the same two digits. */
  lemma TwoDigits(a: char, b: char, n: nat)
    requires IsDigit(a) && IsDigit(b) && n == 10 * DigitValue(a) + DigitValue(b)
    ensures Digit(n / 10) == a && Digit(n % 10) == b
  {
    assert n / 10 == DigitValue(a) && n % 10 == DigitValue(b);
  }

  /** Text that neither starts nor ends with whitespace is left alone by `strip()`. */
  lemma StripUnpadded(s: string)
    requires s == [] || (!IsSpace(s[0]) && !IsSpace(s[|s| - 1]))
    ensures Strip(s) == s
  {
    StripWindow(s, 0, s);
  }

  /** Surrounding whitespace never changes what is parsed. */
  lemma ParseIgnoresPadding(pre: string, text: string, post: string)
    requires AllSpace(pre) && AllSpace(post)
    ensures ParseHHMM(pre + text + post) == ParseHHMM(text)
  {
    StripPadded(pre, text, post);
  }

  lemma StripPadded(pre: string, text: string, post: string)
    requires AllSpace(pre) && AllSpace(post)
    ensures Strip(pre + text + post) == Strip(text)
  {
    var s, i := Strip(text), LeadingSpaces(text);
    StripIsFramed(text);
    PaddedFramed(pre, text, post, i, s);
    StripWindow(pre + text + post, |pre| + i, s);
  }

  /** A framed window of `text` stays framed, shifted by `|pre|`, inside `pre + text + post`. */
  lemma PaddedFramed(pre: string, text: string, post: string, i: nat, s: string)
    requires AllSpace(pre) && AllSpace(post) && Framed(text, i, s)
    ensures Framed(pre + text + post, |pre| + i, s)
  {
    var u := pre + text + post;
    var k := |pre| + i;
    forall m | 0 <= m < |u| && (m < k || k + |s| <= m) ensures IsSpace(u[m]) {
      if m < |pre| {
        assert u[m] == pre[m];
      } else if m < |pre| + |text| {
        assert u[m] == text[m - |pre|];
      } else {
        assert u[m] == post[m - |pre| - |text|];
      }
    }
    forall m | 0 <= m < |s| ensures u[k..k + |s|][m] == s[m] {
      assert u[k + m] == text[i + m];
    }
  }

  /** A framed window is what `strip()` keeps. */
  lemma StripWindow(u: string, k: nat, s: string)
    requires Framed(u, k, s)
    ensures Strip(u) == s
  {
    StripIsFramed(u);
    StripUnique(u, LeadingSpaces(u), Strip(u), k, s);
  }

  /** A text has at most one framed window. */
  lemma StripUnique(u: string, j: nat, a: string, k: nat, s: string)
    requires Framed(u, j, a) && Framed(u, k, s)
    ensures a == s
  {
    if a != [] {
      assert a[0] == u[j] && a[|a| - 1] == u[j + |a| - 1];
    }
    if s != [] {
      assert s[0] == u[k] && s[|s| - 1] == u[k + |s| - 1];
    }
  }
}
