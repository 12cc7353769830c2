/**
 * The slot buttons of components/components/TimeSlotGrid.js: each offered
 * `HH:mm` is split into hour and minute, placed on the selected day, given
 * an end the service's duration later, and disabled unless it lies within
 * the opening hours 09:00-20:00.
 *
 * The hours test as written uses only the hour and rounds the duration up
 * to whole hours (`GridAsWritten`, `WithinHoursAsWritten`); `Grid` and
 * `WithinHours` state the test the code's own comment describes, that the
 * service ends by closing.
 */
module TimeSlotGrid {
  import opened Wrappers
  import opened Text
  import opened Slots

  const GridOpenHour: int := 9
  const GridCloseHour: int := 20

  /** `s.split(sep)`: the pieces between separators, always at least one. */
  function Split(s: string, sep: char): (parts: seq<string>)
    ensures |parts| >= 1
    ensures forall k :: 0 <= k < |parts| ==> sep !in parts[k]
  {
    if |s| == 0 then [""]
    else if s[0] == sep then [""] + Split(s[1..], sep)
    else
      var rest := Split(s[1..], sep);
      [[s[0]] + rest[0]] + rest[1..]
  }

  /** `parts.join(sep)`. */
  function Join(parts: seq<string>, sep: char): string
    requires |parts| >= 1
  {
    if |parts| == 1 then parts[0] else parts[0] + [sep] + Join(parts[1..], sep)
  }

  /** Joining the pieces with the separator gives back the string. */
  lemma {:induction false} JoinSplit(s: string, sep: char)
    ensures Join(Split(s, sep), sep) == s
  {
    if |s| > 0 {
      JoinSplit(s[1..], sep);
      var rest := Split(s[1..], sep);
      assert s == [s[0]] + s[1..];
      if s[0] == sep {
        assert Split(s, sep) == [""] + rest;
        JoinAfterEmpty(rest, sep);
      } else {
        assert Split(s, sep) == [[s[0]] + rest[0]] + rest[1..];
        JoinAfterChar(s[0], rest, sep);
      }
    }
  }

  lemma JoinAfterEmpty(rest: seq<string>, sep: char)
    requires |rest| >= 1
    ensures Join([""] + rest, sep) == [sep] + Join(rest, sep)
  {
    assert ([""] + rest)[1..] == rest;
  }

  lemma JoinAfterChar(c: char, rest: seq<string>, sep: char)
    requires |rest| >= 1
    ensures Join([[c] + rest[0]] + rest[1..], sep) == [c] + Join(rest, sep)
  {
    var parts := [[c] + rest[0]] + rest[1..];
    if |rest| > 1 {
      assert parts[1..] == rest[1..];
      assert Join(rest, sep) == rest[0] + [sep] + Join(rest[1..], sep);
    }
  }

  /** `time.split(":").map(Number)` destructured as `[h, m]`; `None` is `NaN`. */
  function HourMinute(time: string): (hm: (Option<int>, Option<int>))
  {
    var parts := Split(time, ':');
    (ParseNumber(parts[0]), if |parts| > 1 then ParseNumber(parts[1]) else None)
  }

  /** A string without the separator is a single piece. */
  lemma {:induction false} SplitWithoutSeparator(s: string, sep: char)
    requires sep !in s
    ensures Split(s, sep) == [s]
  {
    if |s| > 0 {
      SplitWithoutSeparator(s[1..], sep);
      assert s == [s[0]] + s[1..];
    }
  }

  /** A first separator after `a` splits off `a` as the first piece. */
  lemma {:induction false} SplitAtFirstSeparator(a: string, sep: char, b: string)
    requires sep !in a
    ensures Split(a + [sep] + b, sep) == [a] + Split(b, sep)
  {
    var s := a + [sep] + b;
    if |a| == 0 {
      assert s == [sep] + b;
      assert s[1..] == b;
    } else {
      assert s[0] == a[0];
      assert s[1..] == a[1..] + [sep] + b;
      SplitAtFirstSeparator(a[1..], sep, b);
      assert [a[0]] + a[1..] == a;
    }
  }

  /** Any text `ParseHHmm` accepts, one-digit fields and trailing white
      space included, splits into its hour and minute. */
  lemma HourMinuteOfClock(time: string)
    requires ParseHHmm(time).Some?
    ensures HourMinute(time) == (Some(ParseHHmm(time).value / 60), Some(ParseHHmm(time).value % 60))
  {
    var hh, mm, ws := PartsOfParseHHmm(time);
    HourMinuteOfParts(time, hh, mm, ws);
    DivModHour(DigitsValue(hh), DigitsValue(mm));
  }

  lemma HourMinuteOfParts(time: string, hh: string, mm: string, ws: string)
    requires ClockParts(time, hh, mm, ws)
    ensures HourMinute(time) == (Some(DigitsValue(hh)), Some(DigitsValue(mm)))
  {
    SplitClock(time, hh, mm, ws);
    HourMinuteOfPieces(time, hh, mm + ws);
    ParseNumberOfDigits(hh);
    ParseNumberOfDigitsThenSpace(mm, ws);
  }

  lemma SplitClock(time: string, hh: string, mm: string, ws: string)
    requires ClockParts(time, hh, mm, ws)
    ensures Split(time, ':') == [hh, mm + ws]
  {
    var tail := mm + ws;
    assert time == hh + [':'] + tail;
    assert ':' !in hh by {
      assert forall i :: 0 <= i < |hh| ==> IsDigit(hh[i]);
    }
    assert ':' !in tail by {
      assert forall i :: 0 <= i < |tail| ==> IsDigit(tail[i]) || IsJsWhitespace(tail[i]);
    }
    SplitAtFirstSeparator(hh, ':', tail);
    SplitWithoutSeparator(tail, ':');
  }

  lemma HourMinuteOfPieces(time: string, hh: string, mm: string)
    requires Split(time, ':') == [hh, mm]
    ensures HourMinute(time) == (ParseNumber(hh), ParseNumber(mm))
  {
  }

  lemma DivModHour(h: int, m: int)
    requires 0 <= m < 60
    ensures (h * 60 + m) / 60 == h && (h * 60 + m) % 60 == m
  {
  }

  /** `Math.ceil(minutes / 60)`. */
  function CeilHours(minutes: int): (h: int)
    ensures 60 * (h - 1) < minutes <= 60 * h
  {
    (minutes + 59) / 60
  }

  /** The hours test as written: `h >= 9 && h + Math.ceil(duration / 60) <= 20`. */
  predicate WithinHoursAsWritten(hour: Option<int>, duration: int)
  {
    hour.Some? && hour.value >= GridOpenHour && hour.value + CeilHours(duration) <= GridCloseHour
  }

  /** The intended test: the slot starts at or after opening and the service ends by closing. */
  predicate WithinHours(hour: Option<int>, minute: Option<int>, duration: int)
  {
    hour.Some? && minute.Some? &&
    var start := hour.value * 60 + minute.value;
    start >= GridOpenHour * 60 && start + duration <= GridCloseHour * 60
  }

  /** `{time, start, end, withinHours}`; an Invalid Date start is `None`. */
  datatype GridSlot = GridSlot(time: string, start: Option<int>, end: Option<int>, withinHours: bool)

  /** `start.setHours(h, m, 0, 0)` on the selected day; `NaN` gives an Invalid Date. */
  function StartOn(day: int, hour: Option<int>, minute: Option<int>): Option<int>
  {
    if hour.Some? && minute.Some? then Some(DayStart(day) + hour.value * 60 + minute.value) else None
  }

  function SlotWith(day: int, duration: int, time: string, within: bool): (g: GridSlot)
    ensures g.time == time
    ensures g.start.Some? ==> g.end == Some(g.start.value + duration)
    ensures g.start.None? ==> g.end.None?
  {
    var (h, m) := HourMinute(time);
    var start := StartOn(day, h, m);
    GridSlot(time, start, if start.Some? then Some(start.value + duration) else None, within)
  }

  /** The `availableSlots.map(...)` with the test as written. */
  function GridAsWritten(day: int, duration: int, times: seq<string>): (slots: seq<GridSlot>)
    ensures |slots| == |times|
    ensures forall k :: 0 <= k < |times| ==>
      slots[k] == SlotWith(day, duration, times[k], WithinHoursAsWritten(HourMinute(times[k]).0, duration))
  {
    seq(|times|, k requires 0 <= k < |times| =>
      SlotWith(day, duration, times[k], WithinHoursAsWritten(HourMinute(times[k]).0, duration)))
  }

  /** The `availableSlots.map(...)` with the intended test. */
  function Grid(day: int, duration: int, times: seq<string>): (slots: seq<GridSlot>)
    ensures |slots| == |times|
    ensures forall k :: 0 <= k < |times| ==>
      slots[k] == SlotWith(day, duration, times[k], WithinHours(HourMinute(times[k]).0, HourMinute(times[k]).1, duration))
  {
    seq(|times|, k requires 0 <= k < |times| =>
      SlotWith(day, duration, times[k], WithinHours(HourMinute(times[k]).0, HourMinute(times[k]).1, duration)))
  }

  /** `disabled={!withinHours}`. */
  predicate Disabled(g: GridSlot)
  {
    !g.withinHours
  }

  /**
   * With the intended test, a slot read from a well-formed `HH:mm` is
   * enabled exactly when it starts at 09:00 or later and its end is no
   * later than 20:00 on the same day.
   */
  lemma GridEnabledIffInsideOpeningHours(day: int, duration: int, times: seq<string>, k: int)
    requires 0 <= k < |times| && ParseHHmm(times[k]).Some?
    ensures var g := Grid(day, duration, times)[k];
      g.start.Some? && g.end.Some? &&
      (!Disabled(g) <==> AtHour(day, GridOpenHour) <= g.start.value && g.end.value <= AtHour(day, GridCloseHour))
  {
    HourMinuteOfClock(times[k]);
  }

  /** On the hour the two tests agree: whole hours of service fit exactly when the minutes do. */
  lemma TestsAgreeOnTheHour(hour: int, duration: int)
    ensures WithinHoursAsWritten(Some(hour), duration) <==> WithinHours(Some(hour), Some(0), duration)
  {
  }

  lemma LateStartParts()
    ensures HourMinute("18:30") == (Some(18), Some(30))
  {
    assert "18:30" == "18" + ":" + "30" + "";
    TwoDigitsValue("18");
    TwoDigitsValue("30");
    HourMinuteOfParts("18:30", "18", "30", "");
  }

  /** The test as written enables 18:30 for a two-hour service, which ends at 20:30. */
  lemma AsWrittenEnablesLateStart(day: int)
    ensures var g := GridAsWritten(day, 120, ["18:30"])[0];
      !Disabled(g) && g.end == Some(AtHour(day, 20) + 30)
  {
    LateStartParts();
    assert WithinHoursAsWritten(Some(18), 120);
  }

  /** The intended test disables it. */
  lemma IntendedDisablesLateStart(day: int)
    ensures Disabled(Grid(day, 120, ["18:30"])[0])
  {
    LateStartParts();
    assert !WithinHours(Some(18), Some(30), 120);
  }
}
