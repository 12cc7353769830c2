/**
 * The handful of JavaScript string and number conversions the booking code
 * leans on: `String(n)`, `Number(s)`, `s.trim()`, `s.includes(t)`,
 * `s.toLowerCase()` and the `HH:mm` wall-clock format of date-fns.
 */
module Text {
  import opened Wrappers

  const MinutesPerHour: int := 60
  const MinutesPerDay: int := 1440

  /** Instants count minutes on the salon's local timeline: day `day`
      starts at minute `day * 1440`. */
  function DayStart(day: int): int { day * MinutesPerDay }

  /** The day an instant falls on. */
  function DayOf(t: int): int { t / MinutesPerDay }

  /** The largest distance from the epoch a JavaScript `Date` can hold:
      8.64e15 milliseconds, in minutes. */
  const MaxDateMinutes: int := 144_000_000_000

  /** A minute a `Date` can represent; past it the date becomes an Invalid Date. */
  predicate InDateRange(t: int) { -MaxDateMinutes <= t <= MaxDateMinutes }

  predicate IsDigit(c: char) { '0' <= c <= '9' }

  predicate AllDigits(s: string)
  {
    forall i :: 0 <= i < |s| ==> IsDigit(s[i])
  }

  function DigitValue(c: char): (d: nat)
    requires IsDigit(c)
    ensures d < 10
  {
    (c as int - '0' as int) as nat
  }

  function DigitChar(d: nat): (c: char)
    requires d < 10
    ensures IsDigit(c) && DigitValue(c) == d
  {
    ('0' as int + d) as char
  }

  /** The value of a non-empty run of decimal digits, most significant first. */
  function DigitsValue(s: string): nat
    requires AllDigits(s)
  {
    if |s| == 0 then 0 else DigitsValue(s[..|s| - 1]) * 10 + DigitValue(s[|s| - 1])
  }

  /** Decimal spelling of a natural number without leading zeros, as `String(n)`. */
  function NatToString(n: nat): (s: string)
    ensures 1 <= |s| && AllDigits(s)
    ensures n < 10 <==> |s| == 1
  {
    if n < 10 then [DigitChar(n)] else NatToString(n / 10) + [DigitChar(n % 10)]
  }

  /** JavaScript `String(n)` for an integer-valued number. */
  function IntToString(n: int): (s: string)
    ensures 1 <= |s|
    ensures IsDigit(s[|s| - 1])
    ensures s[0] == '-' || IsDigit(s[0])
  {
    if n < 0 then "-" + NatToString(-n) else NatToString(n)
  }

  /** Reading back the decimal spelling of `n` gives `n`. */
  lemma {:induction false} DigitsValueOfNatToString(n: nat)
    ensures DigitsValue(NatToString(n)) == n
  {
    if n >= 10 {
      var s := NatToString(n);
      assert s[..|s| - 1] == NatToString(n / 10);
      DigitsValueOfNatToString(n / 10);
    }
  }

  /** The characters JavaScript treats as white space: `\s` in a regular
      expression, and what `trim()` and `Number()` strip. */
  predicate IsJsWhitespace(c: char)
  {
    c == ' ' || c == '\t' || c == '\n' || c == '\r' || c == '\U{000B}' || c == '\U{000C}'
    || c == '\U{00A0}' || c == '\U{1680}' || ('\U{2000}' <= c <= '\U{200A}')
    || c == '\U{2028}' || c == '\U{2029}' || c == '\U{202F}' || c == '\U{205F}'
    || c == '\U{3000}' || c == '\U{FEFF}'
  }

  /** Drops leading white space. */
  function TrimStart(s: string): (t: string)
    ensures |t| > 0 ==> !IsJsWhitespace(t[0])
  {
    if |s| > 0 && IsJsWhitespace(s[0]) then TrimStart(s[1..]) else s
  }

  /** Drops trailing white space. */
  function TrimEnd(s: string): (t: string)
    ensures |t| > 0 ==> !IsJsWhitespace(t[|t| - 1])
  {
    if |s| > 0 && IsJsWhitespace(s[|s| - 1]) then TrimEnd(s[..|s| - 1]) else s
  }

  /** `s.trim()`. */
  function Trim(s: string): string
  {
    TrimEnd(TrimStart(s))
  }

  /**
   * JavaScript `Number(s)` restricted to integer spellings: surrounding white
   * space is ignored, the empty string is 0, and an optional sign followed by
   * decimal digits is that integer. Every other string is `NaN`, here `None`.
   */
  function ParseNumber(s: string): Option<int>
  {
    ParseTrimmedNumber(Trim(s))
  }

  /** `Number` of a string that has already been trimmed. */
  function ParseTrimmedNumber(t: string): Option<int>
  {
    if |t| == 0 then Some(0)
    else if t[0] == '-' && |t| > 1 && AllDigits(t[1..]) then Some(0 - DigitsValue(t[1..]))
    else if t[0] == '+' && |t| > 1 && AllDigits(t[1..]) then Some(DigitsValue(t[1..]))
    else if AllDigits(t) then Some(DigitsValue(t))
    else None
  }

  /** A string that neither starts nor ends with white space is its own trim. */
  lemma TrimUnpadded(s: string)
    requires |s| > 0 && !IsJsWhitespace(s[0]) && !IsJsWhitespace(s[|s| - 1])
    ensures Trim(s) == s
  {
    assert TrimStart(s) == s;
    assert TrimEnd(s) == s;
  }

  lemma ParseNumberOfDigits(t: string)
    requires |t| > 0 && AllDigits(t)
    ensures ParseNumber(t) == Some(DigitsValue(t))
  {
    TrimUnpadded(t);
  }

  lemma ParseNumberOfNegated(t: string, digits: string)
    requires |digits| > 0 && AllDigits(digits) && t == "-" + digits
    ensures ParseNumber(t) == Some(0 - DigitsValue(digits))
  {
    assert t[1..] == digits;
    assert t[|t| - 1] == digits[|digits| - 1];
    TrimUnpadded(t);
    assert ParseTrimmedNumber(t) == Some(0 - DigitsValue(digits));
  }

  /** `Number` ignores white space after the digits. */
  lemma ParseNumberOfDigitsThenSpace(digits: string, ws: string)
    requires |digits| > 0 && AllDigits(digits) && AllJsWhitespace(ws)
    ensures ParseNumber(digits + ws) == Some(DigitsValue(digits))
  {
    assert TrimStart(digits + ws) == digits + ws by {
      assert (digits + ws)[0] == digits[0];
    }
    TrimEndOfSpace(digits, ws);
    TrimUnpadded(digits);
  }

  lemma {:induction false} TrimEndOfSpace(digits: string, ws: string)
    requires |digits| > 0 && AllDigits(digits) && AllJsWhitespace(ws)
    ensures TrimEnd(digits + ws) == digits
    decreases |ws|
  {
    var s := digits + ws;
    if |ws| == 0 {
      assert s == digits;
    } else {
      assert IsJsWhitespace(s[|s| - 1]);
      assert s[..|s| - 1] == digits + ws[..|ws| - 1];
      TrimEndOfSpace(digits, ws[..|ws| - 1]);
    }
  }

  /** `Number(String(n)) == n`: the decimal spelling of an integer reads back as it. */
  lemma ParseNumberOfIntToString(n: int)
    ensures ParseNumber(IntToString(n)) == Some(n)
  {
    if n < 0 {
      ParseNumberOfNegativeString(n);
    } else {
      ParseNumberOfNatString(n);
    }
  }

  lemma ParseNumberOfNegativeString(n: int)
    requires n < 0
    ensures ParseNumber(IntToString(n)) == Some(n)
  {
    NegativeSpelling(n);
    ParseNumberOfMinusNat(-n);
  }

  lemma ParseNumberOfMinusNat(m: nat)
    ensures ParseNumber("-" + NatToString(m)) == Some(0 - m)
  {
    var d := NatToString(m);
    DigitsValueOfNatToString(m);
    ParseNumberOfMinusDigits(d);
  }

  lemma ParseNumberOfMinusDigits(d: string)
    requires |d| > 0 && AllDigits(d)
    ensures ParseNumber("-" + d) == Some(0 - DigitsValue(d))
  {
    ParseNumberOfNegated("-" + d, d);
  }

  lemma NegativeSpelling(n: int)
    requires n < 0
    ensures IntToString(n) == "-" + NatToString(-n)
  {
  }

  lemma ParseNumberOfNatString(n: int)
    requires n >= 0
    ensures ParseNumber(IntToString(n)) == Some(n)
  {
    DigitsValueOfNatToString(n);
    ParseNumberOfDigits(NatToString(n));
  }

  /** `IntToString` never spells two integers the same way. */
  lemma IntToStringInjective(a: int, b: int)
    requires IntToString(a) == IntToString(b)
    ensures a == b
  {
    ParseNumberOfIntToString(a);
    ParseNumberOfIntToString(b);
  }

  /** `s` holds `sub` starting at index `i`. */
  predicate OccursAt(s: string, sub: string, i: int)
  {
    0 <= i && i + |sub| <= |s| && s[i..i + |sub|] == sub
  }

  /** `s.includes(sub)`. */
  function Contains(s: string, sub: string): bool
    decreases |s|
  {
    |sub| <= |s| && (s[..|sub|] == sub || Contains(s[1..], sub))
  }

  /** `Contains` is exactly "some position holds `sub`". */
  lemma {:induction false} ContainsSpec(s: string, sub: string)
    ensures Contains(s, sub) <==> exists i :: OccursAt(s, sub, i)
    decreases |s|
  {
    if |sub| <= |s| {
      if s[..|sub|] == sub {
        assert OccursAt(s, sub, 0);
      } else {
        ContainsSpec(s[1..], sub);
        if Contains(s[1..], sub) {
          var i :| OccursAt(s[1..], sub, i);
          assert s[i + 1..i + 1 + |sub|] == s[1..][i..i + |sub|];
          assert OccursAt(s, sub, i + 1);
        } else {
          forall i | 0 <= i
            ensures !OccursAt(s, sub, i)
          {
            if i == 0 {
              assert s[0..|sub|] == s[..|sub|];
            } else if i + |sub| <= |s| {
              assert !OccursAt(s[1..], sub, i - 1);
              assert s[1..][i - 1..i - 1 + |sub|] == s[i..i + |sub|];
            }
          }
        }
      }
    }
  }

  /** Lower-casing of one character, for the ASCII letters. */
  function LowerChar(c: char): char
  {
    if 'A' <= c <= 'Z' then (c as int + 32) as char else c
  }

  /**
   * `s.toLowerCase()` restricted to ASCII letters. Every keyword the code
   * compares lower-cased text with is plain ASCII without `i` or `k`, and the
   * only non-ASCII characters JavaScript lower-cases into ASCII are the Kelvin
   * sign (to `k`) and the dotted capital I (to `i` plus a combining dot), so
   * the keyword tests come out the same.
   */
  function ToLower(s: string): (t: string)
    ensures |t| == |s|
    ensures forall i :: 0 <= i < |s| ==> t[i] == LowerChar(s[i])
  {
    seq(|s|, i requires 0 <= i < |s| => LowerChar(s[i]))
  }

  /** Two-digit, zero-padded spelling of 0..99. */
  function Pad2(n: nat): (s: string)
    requires n < 100
    ensures |s| == 2 && AllDigits(s)
  {
    [DigitChar(n / 10), DigitChar(n % 10)]
  }

  /** date-fns `format(t, 'HH:mm')` of an instant `t`, counted in local minutes. */
  function FormatHHmm(t: int): (s: string)
    ensures ClockShaped(s)
  {
    var m := t % MinutesPerDay;
    Pad2(m / MinutesPerHour) + ":" + Pad2(m % MinutesPerHour)
  }

  /** Two digits, a colon and two digits: the spelling `FormatHHmm` produces. */
  predicate ClockShaped(s: string)
  {
    |s| == 5 && IsDigit(s[0]) && IsDigit(s[1]) && s[2] == ':' && IsDigit(s[3]) && IsDigit(s[4])
  }

  /** The length of the run of digits, at most two, that `s` starts with:
      date-fns reads the `HH` and `mm` fields as `\d{1,2}`, greedily. */
  function LeadingDigits2(s: string): (n: nat)
    ensures n <= 2 && n <= |s|
    ensures AllDigits(s[..n])
    ensures n < 2 && n < |s| ==> !IsDigit(s[n])
  {
    if |s| >= 2 && IsDigit(s[0]) && IsDigit(s[1]) then 2
    else if |s| >= 1 && IsDigit(s[0]) then 1
    else 0
  }

  predicate AllJsWhitespace(s: string)
  {
    forall i :: 0 <= i < |s| ==> IsJsWhitespace(s[i])
  }

  /**
   * date-fns `parse(s, 'HH:mm')` read as a minute of the day: one or two
   * hour digits, a colon, one or two minute digits, then nothing but white
   * space; the hour must be below 24 and the minute below 60.
   */
  function ParseHHmm(s: string): (r: Option<int>)
    ensures r.Some? ==> 0 <= r.value < MinutesPerDay
  {
    var h := LeadingDigits2(s);
    if h == 0 || h == |s| || s[h] != ':' then None
    else
      var rest := s[h + 1..];
      var m := LeadingDigits2(rest);
      if m == 0 || !AllJsWhitespace(rest[m..]) then None
      else
        var hour, minute := DigitsValue(s[..h]), DigitsValue(rest[..m]);
        if hour < 24 && minute < 60 then Some(hour * MinutesPerHour + minute) else None
  }

  /** `s` is an hour field, a colon, a minute field and trailing white space,
      with the hour below 24 and the minute below 60. */
  predicate ClockParts(s: string, hh: string, mm: string, ws: string)
  {
    s == hh + ":" + mm + ws && 1 <= |hh| <= 2 && AllDigits(hh) && 1 <= |mm| <= 2 && AllDigits(mm) &&
    AllJsWhitespace(ws) && DigitsValue(hh) < 24 && DigitsValue(mm) < 60
  }

  /** Every text of that shape is read as its hour and minute. */
  lemma ParseHHmmOfParts(s: string, hh: string, mm: string, ws: string)
    requires ClockParts(s, hh, mm, ws)
    ensures ParseHHmm(s) == Some(DigitsValue(hh) * MinutesPerHour + DigitsValue(mm))
  {
    assert s[..|hh|] == hh;
    assert s[|hh|] == ':';
    assert LeadingDigits2(s) == |hh|;
    var rest := s[|hh| + 1..];
    assert rest == mm + ws;
    assert rest[..|mm|] == mm && rest[|mm|..] == ws;
    if |mm| == 1 && |ws| > 0 {
      assert IsJsWhitespace(rest[1]);
    }
    assert LeadingDigits2(rest) == |mm|;
  }

  /** Every text `ParseHHmm` accepts has that shape. */
  lemma PartsOfParseHHmm(s: string) returns (hh: string, mm: string, ws: string)
    requires ParseHHmm(s).Some?
    ensures ClockParts(s, hh, mm, ws)
    ensures ParseHHmm(s) == Some(DigitsValue(hh) * MinutesPerHour + DigitsValue(mm))
  {
    var h := LeadingDigits2(s);
    var rest := s[h + 1..];
    var m := LeadingDigits2(rest);
    hh, mm, ws := s[..h], rest[..m], rest[m..];
    assert s == hh + ":" + rest;
    assert rest == mm + ws;
  }

  /** `ParseHHmm` accepts exactly the texts of that shape. */
  lemma ParseHHmmSpec(s: string)
    ensures ParseHHmm(s).Some? <==> exists hh, mm, ws :: ClockParts(s, hh, mm, ws)
    ensures forall hh, mm, ws :: ClockParts(s, hh, mm, ws) ==>
      ParseHHmm(s) == Some(DigitsValue(hh) * MinutesPerHour + DigitsValue(mm))
  {
    if ParseHHmm(s).Some? {
      var hh, mm, ws := PartsOfParseHHmm(s);
    }
    forall hh, mm, ws | ClockParts(s, hh, mm, ws)
      ensures ParseHHmm(s) == Some(DigitsValue(hh) * MinutesPerHour + DigitsValue(mm))
    {
      ParseHHmmOfParts(s, hh, mm, ws);
    }
  }

  /** date-fns takes a one-digit hour field ... */
  lemma ParseHHmmOneDigitHour()
    ensures ParseHHmm("9:30") == Some(570)
  {
    var s := "9:30";
    assert s == "9" + ":" + "30" + "";
    assert DigitsValue("9") == 9 by {
      assert "9"[..0] == [];
    }
    TwoDigitsValue("30");
    ParseHHmmOfParts(s, "9", "30", "");
  }

  /** ... and a one-digit minute field. */
  lemma ParseHHmmOneDigitMinute()
    ensures ParseHHmm("09:5") == Some(545)
  {
    var s := "09:5";
    assert s == "09" + ":" + "5" + "";
    assert DigitsValue("5") == 5 by {
      assert "5"[..0] == [];
    }
    TwoDigitsValue("09");
    ParseHHmmOfParts(s, "09", "5", "");
  }

  /** It ignores trailing white space. */
  lemma ParseHHmmTrailingSpace()
    ensures ParseHHmm("09:30 ") == Some(570)
  {
    var s := "09:30 ";
    assert s == "09" + ":" + "30" + " ";
    TwoDigitsValue("09");
    TwoDigitsValue("30");
    ParseHHmmOfParts(s, "09", "30", " ");
  }

  /** It refuses an hour past 23 and a third hour digit. */
  lemma ParseHHmmRefusesHour()
    ensures ParseHHmm("24:00").None? && ParseHHmm("123:00").None?
  {
    assert "24:00"[..2] == "24";
    TwoDigitsValue("24");
  }

  /** It refuses a third minute digit and any other trailing character. */
  lemma ParseHHmmRefusesTail()
    ensures ParseHHmm("09:305").None? && ParseHHmm("09:30h").None?
  {
    var s, t := "09:305", "09:30h";
    assert LeadingDigits2(s) == 2 && s[2] == ':';
    assert s[3..] == "305" && LeadingDigits2("305") == 2 && "305"[2..] == "5";
    assert !AllJsWhitespace("5") by {
      assert !IsJsWhitespace("5"[0]);
    }
    assert LeadingDigits2(t) == 2 && t[2] == ':';
    assert t[3..] == "30h" && LeadingDigits2("30h") == 2 && "30h"[2..] == "h";
    assert !AllJsWhitespace("h") by {
      assert !IsJsWhitespace("h"[0]);
    }
  }

  /** It refuses leading white space. */
  lemma ParseHHmmRefusesLeadingSpace()
    ensures ParseHHmm(" 09:30").None?
  {
    assert LeadingDigits2(" 09:30") == 0;
  }

  /** Two digits read as a number give their decimal value. */
  lemma TwoDigitsValue(s: string)
    requires |s| == 2 && AllDigits(s)
    ensures DigitsValue(s) == DigitValue(s[0]) * 10 + DigitValue(s[1])
  {
    var first := s[..1];
    assert first[..0] == [] && first[0] == s[0];
    assert DigitsValue(first) == DigitsValue(first[..0]) * 10 + DigitValue(first[0]);
    assert s[..|s| - 1] == first;
  }

  lemma Pad2Value(n: nat)
    requires n < 100
    ensures DigitsValue(Pad2(n)) == n
  {
    TwoDigitsValue(Pad2(n));
  }

  /** Formatting then parsing yields the minute of the day of `t`. */
  lemma ParseFormatHHmm(t: int)
    ensures ParseHHmm(FormatHHmm(t)) == Some(t % MinutesPerDay)
  {
    var m := t % MinutesPerDay;
    var hh, mm := Pad2(m / MinutesPerHour), Pad2(m % MinutesPerHour);
    Pad2Value(m / MinutesPerHour);
    Pad2Value(m % MinutesPerHour);
    assert FormatHHmm(t) == hh + ":" + mm + "";
    ParseHHmmOfParts(FormatHHmm(t), hh, mm, "");
  }

  lemma DigitCharOfValue(c: char)
    requires IsDigit(c)
    ensures DigitChar(DigitValue(c)) == c
  {
  }

  /** Parsing then formatting gives back the accepted text exactly when it
      is already in the two-digit form; "9:30" comes back as "09:30". */
  lemma FormatParseHHmm(s: string)
    requires ParseHHmm(s).Some?
    ensures FormatHHmm(ParseHHmm(s).value) == s <==> ClockShaped(s)
  {
    if ClockShaped(s) {
      FormatParseClock(s);
    }
  }

  lemma FormatParseClock(s: string)
    requires ParseHHmm(s).Some? && ClockShaped(s)
    ensures FormatHHmm(ParseHHmm(s).value) == s
  {
    ClockShapedValue(s);
    FormatOfClockDigits(s);
  }

  /** A two-digit text is read digit by digit. */
  lemma ClockShapedValue(s: string)
    requires ParseHHmm(s).Some? && ClockShaped(s)
    ensures ParseHHmm(s).value == (DigitValue(s[0]) * 10 + DigitValue(s[1])) * MinutesPerHour +
                                  (DigitValue(s[3]) * 10 + DigitValue(s[4]))
    ensures DigitValue(s[0]) * 10 + DigitValue(s[1]) < 24 && DigitValue(s[3]) * 10 + DigitValue(s[4]) < 60
  {
    var hh, mm, ws := PartsOfParseHHmm(s);
    assert |hh| == 2 && |mm| == 2 && ws == [] by {
      assert LeadingDigits2(s) == 2;
    }
    assert hh == s[..2] && mm == s[3..];
    TwoDigitsValue(hh);
    TwoDigitsValue(mm);
  }

  /** Formatting the minute a two-digit text names spells the text. */
  lemma FormatOfClockDigits(s: string)
    requires ClockShaped(s)
    requires DigitValue(s[0]) * 10 + DigitValue(s[1]) < 24 && DigitValue(s[3]) * 10 + DigitValue(s[4]) < 60
    ensures FormatHHmm((DigitValue(s[0]) * 10 + DigitValue(s[1])) * MinutesPerHour +
                       (DigitValue(s[3]) * 10 + DigitValue(s[4]))) == s
  {
    var d0, d1, d3, d4 := DigitValue(s[0]), DigitValue(s[1]), DigitValue(s[3]), DigitValue(s[4]);
    var h, m := d0 * 10 + d1, d3 * 10 + d4;
    var v := h * MinutesPerHour + m;
    assert v % MinutesPerDay == v;
    assert v / MinutesPerHour == h && v % MinutesPerHour == m;
    assert h / 10 == d0 && h % 10 == d1;
    assert m / 10 == d3 && m % 10 == d4;
    DigitCharOfValue(s[0]);
    DigitCharOfValue(s[1]);
    DigitCharOfValue(s[3]);
    DigitCharOfValue(s[4]);
    var f := FormatHHmm(v);
    assert f == Pad2(h) + ":" + Pad2(m);
    assert f[0] == s[0] && f[1] == s[1] && f[3] == s[3] && f[4] == s[4];
  }

  /** `FormatHHmm` tells apart every two minutes of the same day. */
  lemma FormatHHmmInjective(a: int, b: int)
    requires 0 <= a < MinutesPerDay && 0 <= b < MinutesPerDay
    requires FormatHHmm(a) == FormatHHmm(b)
    ensures a == b
  {
    ParseFormatHHmm(a);
    ParseFormatHHmm(b);
  }

  /** The position of the first `c` in `s`, if any. */
  function FirstIndex(s: string, c: char): (r: Option<nat>)
    ensures r.None? <==> c !in s
    ensures r.Some? ==> r.value < |s| && s[r.value] == c && c !in s[..r.value]
  {
    if c in s then
      FirstOccurrenceExists(s, c);
      var p: nat :| p < |s| && s[p] == c && c !in s[..p];
      Some(p)
    else None
  }

  /** Some position of `c` has no `c` before it. */
  lemma {:induction false} FirstOccurrenceExists(s: string, c: char)
    requires c in s
    ensures exists p: nat :: p < |s| && s[p] == c && c !in s[..p]
  {
    if s[0] != c {
      assert c in s[1..];
      FirstOccurrenceExists(s[1..], c);
      var p: nat :| p < |s[1..]| && s[1..][p] == c && c !in s[1..][..p];
      assert s[..p + 1] == [s[0]] + s[1..][..p];
      assert s[p + 1] == c;
    } else {
      assert s[..0] == [];
    }
  }

  /** A position holding `c` with no `c` before it is the first one. */
  lemma FirstIndexAt(s: string, c: char, p: nat)
    requires p < |s| && s[p] == c && c !in s[..p]
    ensures FirstIndex(s, c) == Some(p)
  {
    assert s[p] in s;
  }

  /** One to `most` digits and nothing else: a numeric field of a date-fns pattern. */
  predicate DigitField(s: string, most: nat)
  {
    0 < |s| <= most && AllDigits(s)
  }

  /**
   * A whole `yyyy-MM-dd` field run: one to four digits, `-`, one or two
   * digits, `-`, one or two digits. date-fns reads each field greedily and a
   * dash is not a digit, so it consumes a text whole exactly when the text
   * has this shape.
   */
  predicate DateFields(s: string)
  {
    exists i, j | 0 < i < j < |s| :: s[i] == '-' && s[j] == '-' &&
      DigitField(s[..i], 4) && DigitField(s[i + 1..j], 2) && DigitField(s[j + 1..], 2)
  }

  /** A date field run holds no space and ends in a digit. */
  lemma DateFieldsShape(s: string)
    requires DateFields(s)
    ensures ' ' !in s && |s| > 0 && IsDigit(s[|s| - 1])
  {
    var i, j :| 0 < i < j < |s| && s[i] == '-' && s[j] == '-' &&
      DigitField(s[..i], 4) && DigitField(s[i + 1..j], 2) && DigitField(s[j + 1..], 2);
    forall k | 0 <= k < |s|
      ensures s[k] != ' '
    {
      if k < i {
        assert s[..i][k] == s[k];
      } else if i < k < j {
        assert s[i + 1..j][k - i - 1] == s[k];
      } else if j < k {
        assert s[j + 1..][k - j - 1] == s[k];
      }
    }
    assert s[j + 1..][|s| - j - 2] == s[|s| - 1];
  }

  /**
   * date-fns `parse(text, "yyyy-MM-dd HH:mm")`: a whole date field run up
   * to the first space, naming the day `parseDay` gives for it (the same
   * text read with `"yyyy-MM-dd"` alone, `None` for a date that does not
   * exist), then a clock time after the space as `ParseHHmm` reads it.
   * `None` is an Invalid Date.
   */
  function ParseDateTime(text: string, parseDay: string -> Option<int>): (t: Option<int>)
    ensures t.Some? ==> ' ' in text
  {
    match FirstIndex(text, ' ')
    case None => None
    case Some(k) =>
      var date, time := text[..k], text[k + 1..];
      if DateFields(date) && parseDay(date).Some? && ParseHHmm(time).Some? then
        Some(DayStart(parseDay(date).value) + ParseHHmm(time).value)
      else None
  }

  /** A text is read exactly when its part before the first space is a whole
      date field run naming a day and the rest is a clock time; the instant
      is then that day at that time. */
  lemma ParseDateTimeSound(text: string, parseDay: string -> Option<int>)
    ensures ParseDateTime(text, parseDay).Some? <==>
      ' ' in text &&
      var k := FirstIndex(text, ' ').value;
      DateFields(text[..k]) && parseDay(text[..k]).Some? && ParseHHmm(text[k + 1..]).Some?
    ensures ParseDateTime(text, parseDay).Some? ==>
      var k, t := FirstIndex(text, ' ').value, ParseDateTime(text, parseDay).value;
      parseDay(text[..k]) == Some(DayOf(t)) && ParseHHmm(text[k + 1..]) == Some(t % MinutesPerDay)
  {
  }

  /**
   * `parse(`${date} ${time}`, "yyyy-MM-dd HH:mm")`: a date and a clock time
   * joined by a space and read together. A date that is a whole date field
   * run is read field by field; `JoinedInstantIsJoinedParse` shows that this
   * is the joined parse on every input.
   */
  function JoinedInstant(date: string, time: string, parseDay: string -> Option<int>): Option<int>
  {
    if DateFields(date) then
      if parseDay(date).Some? && ParseHHmm(time).Some?
      then Some(DayStart(parseDay(date).value) + ParseHHmm(time).value)
      else None
    else ParseDateTime(date + " " + time, parseDay)
  }

  /** The field-by-field reading agrees with parsing the joined text. */
  lemma JoinedInstantIsJoinedParse(date: string, time: string, parseDay: string -> Option<int>)
    ensures JoinedInstant(date, time, parseDay) == ParseDateTime(date + " " + time, parseDay)
  {
    if DateFields(date) {
      ParseDateTimeOfJoin(date, time, parseDay);
    }
  }

  /** A date, a space and a clock time read as the minute they name
      together, when both are readable. */
  lemma ParseDateTimeOfJoin(date: string, time: string, parseDay: string -> Option<int>)
    requires DateFields(date)
    ensures ParseDateTime(date + " " + time, parseDay) ==
      if parseDay(date).Some? && ParseHHmm(time).Some?
      then Some(DayStart(parseDay(date).value) + ParseHHmm(time).value)
      else None
  {
    var text := date + " " + time;
    DateFieldsShape(date);
    FirstSpaceOfJoin(date, time);
    ParseDateTimeAt(text, |date|, date, time, parseDay);
  }

  /** Joining with a space puts the first space right after a space-free date. */
  lemma FirstSpaceOfJoin(date: string, time: string)
    requires ' ' !in date
    ensures var text := date + " " + time;
      FirstIndex(text, ' ') == Some(|date|) && text[..|date|] == date && text[|date| + 1..] == time
  {
    var text := date + " " + time;
    assert text[..|date|] == date && text[|date| + 1..] == time;
    FirstIndexAt(text, ' ', |date|);
  }

  /** The text splits at its first space into `date` and `time`. */
  lemma ParseDateTimeAt(text: string, k: nat, date: string, time: string, parseDay: string -> Option<int>)
    requires FirstIndex(text, ' ') == Some(k) && text[..k] == date && text[k + 1..] == time
    ensures ParseDateTime(text, parseDay) ==
      if DateFields(date) && parseDay(date).Some? && ParseHHmm(time).Some?
      then Some(DayStart(parseDay(date).value) + ParseHHmm(time).value)
      else None
  {
    if DateFields(date) && parseDay(date).Some? && ParseHHmm(time).Some? {
      var day, m := parseDay(date).value, ParseHHmm(time).value;
      assert ParseDateTime(text, parseDay) == Some(DayStart(day) + m);
    } else {
      assert ParseDateTime(text, parseDay) == None;
    }
  }

  /** White space is never a digit. */
  lemma WhitespaceIsNoDigit(c: char)
    requires IsJsWhitespace(c)
    ensures !IsDigit(c)
  {
  }

  /**
   * A date followed by white space, which `"yyyy-MM-dd"` alone accepts, is
   * refused once a space and a time follow: the field after the date's
   * first space does not start with a digit.
   */
  lemma ParseDateTimeRefusesPaddedDate(date: string, ws: string, time: string, parseDay: string -> Option<int>)
    requires DateFields(date) && |ws| > 0 && AllJsWhitespace(ws)
    ensures ParseDateTime(date + ws + " " + time, parseDay).None?
  {
    var text := date + ws + " " + time;
    DateFieldsShape(date);
    assert text[|date| + |ws|] == ' ';
    var k := FirstIndex(text, ' ').value;
    if k > |date| {
      assert text[..k][k - 1] == ws[k - 1 - |date|];
      WhitespaceIsNoDigit(ws[k - 1 - |date|]);
    } else {
      var rest := text[k + 1..];
      assert rest[0] == if |ws| > 1 then ws[1] else ' ';
      WhitespaceIsNoDigit(rest[0]);
      assert LeadingDigits2(rest) == 0;
    }
  }

  /** `"2024-05-01 "` names a day on its own, yet `"2024-05-01  10:00"` is an Invalid Date. */
  lemma PaddedDateExample(parseDay: string -> Option<int>)
    ensures DateFields("2024-05-01")
    ensures ParseDateTime("2024-05-01  10:00", parseDay).None?
  {
    var date := "2024-05-01";
    SampleDateFields();
    ParseDateTimeRefusesPaddedDate(date, " ", "10:00", parseDay);
    assert date + " " + " " + "10:00" == "2024-05-01  10:00";
  }

  lemma SampleDateFields()
    ensures DateFields("2024-05-01")
  {
    var date := "2024-05-01";
    assert date[4] == '-' && date[7] == '-';
    assert DigitField(date[..4], 4) && DigitField(date[5..7], 2) && DigitField(date[8..], 2);
  }

  /**
   * The names every object literal inherits from `Object.prototype`. Reading
   * one of them off an object literal gives a function (for `__proto__`, the
   * prototype object itself): a truthy value that is not a number.
   */
  const InheritedKeys: set<string> := {
    "constructor", "hasOwnProperty", "isPrototypeOf", "propertyIsEnumerable",
    "toLocaleString", "toString", "valueOf", "__proto__",
    "__defineGetter__", "__defineSetter__", "__lookupGetter__", "__lookupSetter__"}

  /** What `obj[key]` gives on an object literal: one of its own values, an
      inherited member, or `undefined`. */
  datatype Property<T> = Own(value: T) | Inherited | Missing

  /** The JavaScript values that reach the code as request fields or ids. */
  datatype JsValue = Undefined | Num(n: int) | Str(s: string)

  /** JavaScript truthiness of an optional string field: present and not empty. */
  predicate Present(field: Option<string>)
  {
    field.Some? && field.value != ""
  }

  /** `${field}` in a template literal: the text, or "undefined" when absent. */
  function Interpolated(field: Option<string>): string
  {
    if field.Some? then field.value else "undefined"
  }

  /** JavaScript truthiness: `undefined`, `0` and `""` are falsy. */
  predicate Truthy(v: JsValue)
  {
    match v
    case Undefined => false
    case Num(n) => n != 0
    case Str(s) => s != ""
  }

  /** `String(v)`, which is also the property key `obj[v]` looks up. */
  function ToJsString(v: JsValue): string
  {
    match v
    case Undefined => "undefined"
    case Num(n) => IntToString(n)
    case Str(s) => s
  }

  /** `String(err?.message || err)` of a thrown `Error(message)`: the message,
      or the error's own spelling `"Error"` when the message is empty. */
  function ThrownMessage(message: string): (text: string)
    ensures |text| > 0
    ensures message != "" ==> text == message
  {
    if message != "" then message else "Error"
  }
}
