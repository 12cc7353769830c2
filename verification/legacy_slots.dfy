/**
 * The older slot endpoint (pages/api/slots.js): half-hour starts from 09:00
 * while before 20:00, each free when the service ends by 20:00 and meets
 * no booking of the requested day under a three-clause overlap test.
 *
 * Bookings come from the sheet as decoded records. The day a `yyyy-MM-dd`
 * text denotes is supplied by the caller as `parseDay` (`None` for an
 * Invalid Date); a booking's start and end are its date and time joined and
 * read as one `yyyy-MM-dd HH:mm` text, so an unreadable one gives an Invalid
 * Date, which compares false against everything.
 */
module LegacySlots {
  import opened Wrappers
  import opened Text
  import opened Slots
  import opened Sheets
  import opened ServiceMaps

  const LegacyOpenHour: int := 9
  const LegacyCloseHour: int := 20
  const LegacyStepMinutes: int := 30

  const MissingParams: string := "Faltan parámetros."
  const InvalidService: string := "Servicio no válido."

  /** The query: `date` and `serviceId`, each possibly absent. */
  datatype LegacyQuery = LegacyQuery(date: Option<string>, serviceId: Option<string>)

  /** The answer: the free times, a 400 with its message, or `Thrown` when
      the sheet read rejects, which nothing catches (the server's own 500). */
  datatype LegacyResponse =
    | Listed(slots: seq<string>)
    | Rejected(status: int, error: string)
    | Thrown

  /** The `while (isBefore(cursor, closing))` loop: half-hour steps from `cursor`. */
  function HalfHourStarts(cursor: int, closing: int): (starts: seq<int>)
    decreases closing - cursor
  {
    if cursor < closing then [cursor] + HalfHourStarts(cursor + LegacyStepMinutes, closing) else []
  }

  /** The loop emits exactly the half-hour offsets of `cursor` before `closing`. */
  lemma {:induction false} HalfHourStartsExactly(cursor: int, closing: int, t: int)
    ensures t in HalfHourStarts(cursor, closing) <==>
      cursor <= t < closing && (t - cursor) % LegacyStepMinutes == 0
    decreases closing - cursor
  {
    if cursor < closing {
      HalfHourStartsExactly(cursor + LegacyStepMinutes, closing, t);
      if t != cursor && cursor <= t && (t - cursor) % LegacyStepMinutes == 0 {
        assert (t - (cursor + LegacyStepMinutes)) % LegacyStepMinutes == 0;
      }
    }
  }

  /** Consecutive starts are one step apart. */
  lemma {:induction false} HalfHourStartsStepped(cursor: int, closing: int)
    ensures forall i :: 0 <= i < |HalfHourStarts(cursor, closing)| ==>
      HalfHourStarts(cursor, closing)[i] == cursor + LegacyStepMinutes * i
    decreases closing - cursor
  {
    if cursor < closing {
      HalfHourStartsStepped(cursor + LegacyStepMinutes, closing);
    }
  }

  /** On any day the candidates are the 22 starts 09:00, 09:30, ..., 19:30. */
  lemma CandidatesOfDay(day: int)
    ensures var c := HalfHourStarts(AtHour(day, LegacyOpenHour), AtHour(day, LegacyCloseHour));
      |c| == 22 && c[0] == AtHour(day, 9) && c[21] == AtHour(day, 19) + 30 &&
      forall i :: 0 <= i < |c| ==> c[i] == AtHour(day, 9) + 30 * i
  {
    var open, close := AtHour(day, LegacyOpenHour), AtHour(day, LegacyCloseHour);
    var c := HalfHourStarts(open, close);
    HalfHourStartsStepped(open, close);
    CountHalfHours(open, close, 22);
  }

  /** From `cursor`, `n` steps fit before `closing` exactly when `closing` lies in the n-th step. */
  lemma {:induction false} CountHalfHours(cursor: int, closing: int, n: nat)
    requires cursor + LegacyStepMinutes * (n - 1) < closing <= cursor + LegacyStepMinutes * n
    ensures |HalfHourStarts(cursor, closing)| == n
    decreases n
  {
    if n > 0 {
      CountHalfHours(cursor + LegacyStepMinutes, closing, n - 1);
    }
  }

  /** An instant read from a booking, or `None` for an Invalid Date. */
  datatype BookingInstants = BookingInstants(start: Option<int>, end: Option<int>)

  /**
   * The three-clause test of lines 80-83; `slotEnd` is `None` when it is an
   * Invalid Date. A comparison with an Invalid Date is false, so an
   * unreadable booking start or end never overlaps, and an invalid slot end
   * leaves only the first clause.
   */
  predicate ThreeClauseOverlap(slotStart: int, slotEnd: Option<int>, b: BookingInstants)
  {
    b.start.Some? && b.end.Some? &&
    var bs, be := b.start.value, b.end.value;
    (slotStart >= bs && slotStart < be) ||
    (slotEnd.Some? && slotEnd.value > bs && slotEnd.value <= be) ||
    (slotEnd.Some? && slotStart <= bs && slotEnd.value >= be)
  }

  /** For non-empty intervals the three clauses are the half-open overlap test. */
  lemma ThreeClauseIsHalfOpen(slotStart: int, slotEnd: int, bs: int, be: int)
    requires slotStart < slotEnd && bs < be
    ensures ThreeClauseOverlap(slotStart, Some(slotEnd), BookingInstants(Some(bs), Some(be))) <==>
      slotStart < be && slotEnd > bs
  {
  }

  /**
   * `addMinutes(slotStart, duration)`: the looked-up value read as a number
   * of minutes. An inherited member is `NaN`, which makes the end an Invalid
   * Date (`None`).
   */
  function AddedMinutes(duration: Property<int>): (minutes: Option<int>)
    ensures minutes.Some? <==> duration.Own?
    ensures minutes.Some? ==> minutes.value == duration.value
  {
    if duration.Own? then Some(duration.value) else None
  }

  function SlotEnd(slotStart: int, minutes: Option<int>): Option<int>
  {
    if minutes.Some? then Some(slotStart + minutes.value) else None
  }

  /** `isSlotFree(slotStart)`: not after closing (an Invalid Date end never
      is) and meets no booking. */
  predicate IsSlotFree(slotStart: int, minutes: Option<int>, closing: int, bookings: seq<BookingInstants>)
  {
    var slotEnd := SlotEnd(slotStart, minutes);
    (slotEnd.None? || slotEnd.value <= closing) &&
    forall k :: 0 <= k < |bookings| ==> !ThreeClauseOverlap(slotStart, slotEnd, bookings[k])
  }

  /** With an Invalid Date end, a start is free exactly when no readable
      booking has begun by it and not yet ended. */
  lemma InvalidEndChecksStartOnly(slotStart: int, closing: int, bookings: seq<BookingInstants>)
    ensures IsSlotFree(slotStart, None, closing, bookings) <==>
      forall k :: 0 <= k < |bookings| && bookings[k].start.Some? && bookings[k].end.Some? ==>
        !(bookings[k].start.value <= slotStart < bookings[k].end.value)
  {
  }

  /** `possibleSlots.filter(isSlotFree)`. */
  function FreeStarts(starts: seq<int>, minutes: Option<int>, closing: int, bookings: seq<BookingInstants>): (free: seq<int>)
    ensures forall t :: t in free <==> t in starts && IsSlotFree(t, minutes, closing, bookings)
  {
    if |starts| == 0 then []
    else if IsSlotFree(starts[0], minutes, closing, bookings)
    then [starts[0]] + FreeStarts(starts[1..], minutes, closing, bookings)
    else FreeStarts(starts[1..], minutes, closing, bookings)
  }

  predicate StrictlyIncreasing(xs: seq<int>)
  {
    forall i, j :: 0 <= i < j < |xs| ==> xs[i] < xs[j]
  }

  /** Filtering keeps the candidates' ascending order. */
  lemma {:induction false} FreeStartsIncreasing(starts: seq<int>, duration: Option<int>, closing: int, bookings: seq<BookingInstants>)
    requires StrictlyIncreasing(starts)
    ensures StrictlyIncreasing(FreeStarts(starts, duration, closing, bookings))
  {
    if |starts| > 0 {
      var rest := FreeStarts(starts[1..], duration, closing, bookings);
      FreeStartsIncreasing(starts[1..], duration, closing, bookings);
      forall k | 0 <= k < |rest|
        ensures starts[0] < rest[k]
      {
        assert rest[k] in rest;
        var j :| 0 <= j < |starts[1..]| && starts[1..][j] == rest[k];
        assert starts[j + 1] == rest[k];
      }
    }
  }

  /** A booking on the requested day: its `date` parses to that day. */
  predicate OnDay(b: BookingRecord, parseDay: string -> Option<int>, day: int)
  {
    b.date.Some? && parseDay(b.date.value) == Some(day)
  }

  /** `allBookings.filter(...)`: the bookings on `day`. */
  function DayBookings(all: seq<BookingRecord>, parseDay: string -> Option<int>, day: int): (kept: seq<BookingRecord>)
    ensures forall b :: b in kept <==> b in all && OnDay(b, parseDay, day)
  {
    if |all| == 0 then []
    else if OnDay(all[0], parseDay, day) then [all[0]] + DayBookings(all[1..], parseDay, day)
    else DayBookings(all[1..], parseDay, day)
  }

  /** Filtering a concatenation filters each part in turn. */
  lemma {:induction false} DayBookingsAppend(a: seq<BookingRecord>, b: seq<BookingRecord>, parseDay: string -> Option<int>, day: int)
    ensures DayBookings(a + b, parseDay, day) == DayBookings(a, parseDay, day) + DayBookings(b, parseDay, day)
  {
    if |a| == 0 {
      assert a + b == b;
    } else {
      assert (a + b)[0] == a[0];
      assert (a + b)[1..] == a[1..] + b;
      DayBookingsAppend(a[1..], b, parseDay, day);
    }
  }

  /**
   * `parse(`${booking.date} ${hhmm}`, "yyyy-MM-dd HH:mm")`: the joined text
   * is read as one. For a date that is a whole `yyyy-MM-dd` field run the
   * instant is that day at the time `ParseHHmm` reads; an absent field is
   * the text "undefined", which no parse accepts.
   */
  function BookingInstant(date: Option<string>, hhmm: Option<string>, parseDay: string -> Option<int>): (t: Option<int>)
    ensures date.Some? && DateFields(date.value) ==>
      (t.Some? <==> parseDay(date.value).Some? && hhmm.Some? && ParseHHmm(hhmm.value).Some?)
    ensures date.Some? && DateFields(date.value) && t.Some? ==>
      t.value == DayStart(parseDay(date.value).value) + ParseHHmm(hhmm.value).value
  {
    assert hhmm.None? ==> LeadingDigits2(Interpolated(hhmm)) == 0;
    JoinedInstant(Interpolated(date), Interpolated(hhmm), parseDay)
  }

  function Instants(bookings: seq<BookingRecord>, parseDay: string -> Option<int>): (r: seq<BookingInstants>)
    ensures |r| == |bookings|
    ensures forall k :: 0 <= k < |r| ==>
      r[k] == BookingInstants(BookingInstant(bookings[k].date, bookings[k].start, parseDay),
                              BookingInstant(bookings[k].date, bookings[k].end, parseDay))
  {
    seq(|bookings|, k requires 0 <= k < |bookings| =>
      BookingInstants(BookingInstant(bookings[k].date, bookings[k].start, parseDay),
                      BookingInstant(bookings[k].date, bookings[k].end, parseDay)))
  }

  /** The free starts of a valid day, as instants. */
  function FreeOnDay(day: int, duration: Option<int>, bookings: seq<BookingRecord>, parseDay: string -> Option<int>): seq<int>
  {
    var closing := AtHour(day, LegacyCloseHour);
    FreeStarts(HalfHourStarts(AtHour(day, LegacyOpenHour), closing), duration, closing,
               Instants(DayBookings(bookings, parseDay, day), parseDay))
  }

  function FormatAll(ts: seq<int>): (times: seq<string>)
    ensures |times| == |ts|
    ensures forall k :: 0 <= k < |ts| ==> times[k] == FormatHHmm(ts[k])
  {
    seq(|ts|, k requires 0 <= k < |ts| => FormatHHmm(ts[k]))
  }

  /** The whole handler; `fetched` is what `getAllBookings()` gives, or the
      message it rejects with. */
  function Handle(q: LegacyQuery, fetched: Result<seq<BookingRecord>, string>, parseDay: string -> Option<int>): (r: LegacyResponse)
    ensures !Present(q.date) || !Present(q.serviceId) ==> r == Rejected(400, MissingParams)
    ensures Present(q.date) && Present(q.serviceId) && DurationByKey(q.serviceId.value).Missing? ==>
      r == Rejected(400, InvalidService)
    ensures r == Thrown <==>
      Present(q.date) && Present(q.serviceId) && !DurationByKey(q.serviceId.value).Missing? && fetched.Err?
    ensures r.Listed? <==>
      Present(q.date) && Present(q.serviceId) && !DurationByKey(q.serviceId.value).Missing? && fetched.Ok?
    ensures r.Listed? && parseDay(q.date.value).None? ==> r.slots == []
  {
    if !Present(q.date) || !Present(q.serviceId) then Rejected(400, MissingParams)
    else
      var duration := DurationByKey(q.serviceId.value);
      if duration.Missing? then Rejected(400, InvalidService)
      else
        match fetched
        case Err(_) => Thrown
        case Ok(bookings) =>
          match parseDay(q.date.value)
          case None => Listed([])
          case Some(day) => Listed(FormatAll(FreeOnDay(day, AddedMinutes(duration), bookings, parseDay)))
  }

  /** The day's bookings as instants, as `isSlotFree` reads them. */
  function DayInstants(day: int, bookings: seq<BookingRecord>, parseDay: string -> Option<int>): seq<BookingInstants>
  {
    Instants(DayBookings(bookings, parseDay, day), parseDay)
  }

  /**
   * A listed time is exactly a half-hour start from 09:00, before 20:00,
   * that is free (ends by 20:00, overlaps no booking of the day); the
   * listed starts ascend. For an inherited service key the end is an
   * Invalid Date and `IsSlotFree` reduces as `InvalidEndChecksStartOnly` says.
   */
  lemma HandleListsFreeStarts(q: LegacyQuery, bookings: seq<BookingRecord>, parseDay: string -> Option<int>, t: int)
    requires Present(q.date) && Present(q.serviceId)
    requires !DurationByKey(q.serviceId.value).Missing? && parseDay(q.date.value).Some?
    ensures var day, duration := parseDay(q.date.value).value, AddedMinutes(DurationByKey(q.serviceId.value));
      var free := FreeOnDay(day, duration, bookings, parseDay);
      Handle(q, Ok(bookings), parseDay) == Listed(FormatAll(free)) &&
      StrictlyIncreasing(free) &&
      (t in free <==>
        AtHour(day, 9) <= t < AtHour(day, 20) && (t - AtHour(day, 9)) % 30 == 0 &&
        IsSlotFree(t, duration, AtHour(day, 20), DayInstants(day, bookings, parseDay)))
  {
    var day, duration := parseDay(q.date.value).value, AddedMinutes(DurationByKey(q.serviceId.value));
    var open, closing := AtHour(day, LegacyOpenHour), AtHour(day, LegacyCloseHour);
    var c := HalfHourStarts(open, closing);
    var inst := DayInstants(day, bookings, parseDay);
    HalfHourStartsExactly(open, closing, t);
    HalfHourStartsStepped(open, closing);
    assert StrictlyIncreasing(c);
    FreeStartsIncreasing(c, duration, closing, inst);
    assert t in FreeStarts(c, duration, closing, inst) <==> t in c && IsSlotFree(t, duration, closing, inst);
  }

  /** A free start lies in the opening hours and its `HH:mm` reads back as its minute of the day. */
  lemma FreeStartReadsBack(day: int, duration: Option<int>, bookings: seq<BookingRecord>, parseDay: string -> Option<int>, t: int)
    requires t in FreeOnDay(day, duration, bookings, parseDay)
    ensures ParseHHmm(FormatHHmm(t)) == Some(t - DayStart(day))
    ensures AtHour(day, 9) <= t < AtHour(day, 20)
    ensures duration.Some? ==> t + duration.value <= AtHour(day, 20)
  {
    var open, closing := AtHour(day, LegacyOpenHour), AtHour(day, LegacyCloseHour);
    HalfHourStartsExactly(open, closing, t);
    ParseFormatHHmm(t);
    MinuteOfDay(day, t - DayStart(day));
  }

  lemma MinuteOfDay(day: int, m: int)
    requires 0 <= m < MinutesPerDay
    ensures (DayStart(day) + m) % MinutesPerDay == m
  {
  }

  /** Each listed `HH:mm` reads back as the free start's minute of the day. */
  lemma ListedTimesReadBack(day: int, duration: Option<int>, bookings: seq<BookingRecord>, parseDay: string -> Option<int>)
    ensures var free := FreeOnDay(day, duration, bookings, parseDay);
      forall k :: 0 <= k < |free| ==>
        ParseHHmm(FormatAll(free)[k]) == Some(free[k] - DayStart(day)) &&
        AtHour(day, 9) <= free[k] < AtHour(day, 20) &&
        (duration.Some? ==> free[k] + duration.value <= AtHour(day, 20))
  {
    var free := FreeOnDay(day, duration, bookings, parseDay);
    forall k | 0 <= k < |free|
      ensures ParseHHmm(FormatAll(free)[k]) == Some(free[k] - DayStart(day))
      ensures AtHour(day, 9) <= free[k] < AtHour(day, 20)
      ensures duration.Some? ==> free[k] + duration.value <= AtHour(day, 20)
    {
      assert free[k] in free;
      FreeStartReadsBack(day, duration, bookings, parseDay, free[k]);
    }
  }

  /** No booking of `others` is on `day`, so none survives the filter. */
  lemma {:induction false} DayBookingsOfOtherDays(others: seq<BookingRecord>, parseDay: string -> Option<int>, day: int)
    requires forall k :: 0 <= k < |others| ==> !OnDay(others[k], parseDay, day)
    ensures DayBookings(others, parseDay, day) == []
  {
    if |others| > 0 {
      DayBookingsOfOtherDays(others[1..], parseDay, day);
    }
  }

  /** Bookings dated on other days (or undated) leave the listed times unchanged. */
  lemma OtherDaysIgnored(q: LegacyQuery, bookings: seq<BookingRecord>, others: seq<BookingRecord>, parseDay: string -> Option<int>)
    requires Present(q.date) && parseDay(q.date.value).Some?
    requires forall k :: 0 <= k < |others| ==> !OnDay(others[k], parseDay, parseDay(q.date.value).value)
    ensures Handle(q, Ok(bookings + others), parseDay) == Handle(q, Ok(bookings), parseDay)
  {
    var day := parseDay(q.date.value).value;
    DayBookingsAppend(bookings, others, parseDay, day);
    DayBookingsOfOtherDays(others, parseDay, day);
    assert DayBookings(bookings + others, parseDay, day) == DayBookings(bookings, parseDay, day);
  }

  /** A booking kept with a one-digit hour, as date-fns reads it, still
      occupies its time. */
  lemma OneDigitBookingTimeIsRead(date: string, parseDay: string -> Option<int>)
    requires DateFields(date) && parseDay(date).Some?
    ensures BookingInstant(Some(date), Some("9:30"), parseDay) == Some(AtHour(parseDay(date).value, 9) + 30)
    ensures BookingInstant(Some(date), Some("11:30"), parseDay) == Some(AtHour(parseDay(date).value, 11) + 30)
  {
    var day := parseDay(date).value;
    ParseHHmmOneDigitHour();
    ElevenThirty();
    InstantOfReadTime(date, "9:30", parseDay, day, 570);
    InstantOfReadTime(date, "11:30", parseDay, day, 690);
    assert AtHour(day, 9) + 30 == DayStart(day) + 570 && AtHour(day, 11) + 30 == DayStart(day) + 690;
  }

  lemma ElevenThirty()
    ensures ParseHHmm("11:30") == Some(690)
  {
    ParseFormatHHmm(690);
    assert FormatHHmm(690) == "11:30";
  }

  /** A readable time on a readable plain date is that minute of that day. */
  lemma InstantOfReadTime(date: string, hhmm: string, parseDay: string -> Option<int>, day: int, minute: int)
    requires DateFields(date) && parseDay(date) == Some(day) && ParseHHmm(hhmm) == Some(minute)
    ensures BookingInstant(Some(date), Some(hhmm), parseDay) == Some(DayStart(day) + minute)
  {
  }

  /**
   * A booking whose date cell carries trailing white space is kept by the
   * day filter when `parseDay` accepts the cell, yet its start and end are
   * Invalid Dates, so it never blocks a slot.
   */
  lemma PaddedDateBookingIgnored(date: string, ws: string, b: BookingRecord, parseDay: string -> Option<int>,
                                 slotStart: int, slotEnd: Option<int>)
    requires DateFields(date) && |ws| > 0 && AllJsWhitespace(ws) && b.date == Some(date + ws)
    ensures BookingInstant(b.date, b.start, parseDay).None? && BookingInstant(b.date, b.end, parseDay).None?
    ensures !ThreeClauseOverlap(slotStart, slotEnd,
      BookingInstants(BookingInstant(b.date, b.start, parseDay), BookingInstant(b.date, b.end, parseDay)))
  {
    ParseDateTimeRefusesPaddedDate(date, ws, Interpolated(b.start), parseDay);
    ParseDateTimeRefusesPaddedDate(date, ws, Interpolated(b.end), parseDay);
    JoinedInstantIsJoinedParse(date + ws, Interpolated(b.start), parseDay);
    JoinedInstantIsJoinedParse(date + ws, Interpolated(b.end), parseDay);
  }
}
