/**
 * The availability endpoint (pages/api/availability.js): the all-day filter,
 * the hourly multi-day generator, the slot-length resolution and the error
 * hint.
 *
 * Turning date strings into local days and ISO strings into instants is
 * outside the model: the handler receives both conversions as functions
 * (`None` standing for an Invalid Date), and the clock's "today" and "in a
 * week" dates as strings.
 */
module Availability {
  import opened Wrappers
  import opened Text
  import opened Slots
  import opened GoogleCalendar

  /** The regular expression `^\d{4}-\d{2}-\d{2}$`: a bare `YYYY-MM-DD` date. */
  predicate IsDateOnly(s: string)
  {
    |s| == 10 && s[4] == '-' && s[7] == '-' &&
    IsDigit(s[0]) && IsDigit(s[1]) && IsDigit(s[2]) && IsDigit(s[3]) &&
    IsDigit(s[5]) && IsDigit(s[6]) && IsDigit(s[8]) && IsDigit(s[9])
  }

  /** Titles that make an all-day event block the day. */
  const Keywords: seq<string> := ["cerrado", "bloqueo", "bloqueado", "closed"]

  /** `keywords.some(k => t.includes(k))` over the lower-cased title. */
  predicate MentionsClosure(summary: string)
  {
    exists k :: 0 <= k < |Keywords| && Contains(ToLower(summary), Keywords[k])
  }

  /** An entry counts as all-day when its start or its end is a bare date. */
  predicate IsAllDay(ev: BusyEvent)
  {
    IsDateOnly(ev.start) || IsDateOnly(ev.end)
  }

  /** The filter's test: timed entries stay; all-day ones only when they announce a closure. */
  predicate KeepsBusy(ev: BusyEvent)
  {
    !IsAllDay(ev) || MentionsClosure(ev.summary)
  }

  /** `filterBusyAllDay(items)`. */
  function FilterBusyAllDay(items: seq<BusyEvent>): (kept: seq<BusyEvent>)
    ensures |kept| <= |items|
    ensures forall ev :: ev in kept <==> ev in items && KeepsBusy(ev)
  {
    if |items| == 0 then []
    else if KeepsBusy(items[0]) then [items[0]] + FilterBusyAllDay(items[1..])
    else FilterBusyAllDay(items[1..])
  }

  /** Filtering a concatenation filters each part in turn: order is kept. */
  lemma {:induction false} FilterBusyAllDayAppend(a: seq<BusyEvent>, b: seq<BusyEvent>)
    ensures FilterBusyAllDay(a + b) == FilterBusyAllDay(a) + FilterBusyAllDay(b)
  {
    if |a| == 0 {
      assert a + b == b;
    } else {
      assert (a + b)[0] == a[0];
      assert (a + b)[1..] == a[1..] + b;
      FilterBusyAllDayAppend(a[1..], b);
    }
  }

  /** The filter output is a subsequence of its input: it can be obtained by
      deleting entries, each kept entry in its original relative position. */
  lemma {:induction false} FilterBusyAllDayIsSubsequence(items: seq<BusyEvent>)
    ensures IsSubsequence(FilterBusyAllDay(items), items)
  {
    if |items| > 0 {
      FilterBusyAllDayIsSubsequence(items[1..]);
    }
  }

  /** `small` is `big` with some entries deleted. */
  predicate IsSubsequence<T(==)>(small: seq<T>, big: seq<T>)
    decreases |big|
  {
    if |small| == 0 then true
    else if |big| == 0 then false
    else if small[0] == big[0] then IsSubsequence(small[1..], big[1..])
    else IsSubsequence(small, big[1..])
  }

  /** With no bare-date times, nothing is filtered. */
  lemma {:induction false} FilterKeepsTimedEvents(items: seq<BusyEvent>)
    requires forall i :: 0 <= i < |items| ==> !IsAllDay(items[i])
    ensures FilterBusyAllDay(items) == items
  {
    if |items| > 0 {
      FilterKeepsTimedEvents(items[1..]);
    }
  }

  /** The calendar reader rewrites an all-day date as a midnight instant, so
      what it produces from a `date` is never a bare date. */
  lemma ResolvedDateIsNotDateOnly(t: Option<EventTime>)
    requires t.Some? && !Present(t.value.dateTime) && Present(t.value.date)
    ensures !IsDateOnly(ResolveTime(t).value)
  {
    assert |ResolveTime(t).value| == |t.value.date.value| + |MidnightUtc|;
  }

  /** The event's timed fields, where present, are not bare dates (as Google
      Calendar's `dateTime` values never are). */
  predicate TimedFieldsAreInstants(ev: CalEvent)
  {
    (ev.start.Some? && Present(ev.start.value.dateTime) ==> !IsDateOnly(ev.start.value.dateTime.value)) &&
    (ev.end.Some? && Present(ev.end.value.dateTime) ==> !IsDateOnly(ev.end.value.dateTime.value))
  }

  /** What the calendar reader makes of such an event is never all-day. */
  lemma NormalizedEventIsTimed(ev: CalEvent)
    requires TimedFieldsAreInstants(ev) && Normalize(ev).Some?
    ensures !IsAllDay(Normalize(ev).value)
  {
    if !Present(ev.start.value.dateTime) {
      ResolvedDateIsNotDateOnly(ev.start);
    }
    if !Present(ev.end.value.dateTime) {
      ResolvedDateIsNotDateOnly(ev.end);
    }
  }

  /**
   * Composed with the calendar reader, the all-day filter removes nothing:
   * every `date` was already rewritten to `YYYY-MM-DDT00:00:00Z`, so the
   * bare-date test never fires and the keyword rule is never consulted.
   */
  lemma FilterAfterNormalizeKeepsAll(items: seq<CalEvent>)
    requires forall i :: 0 <= i < |items| ==> TimedFieldsAreInstants(items[i])
    ensures FilterBusyAllDay(NormalizeEvents(items)) == NormalizeEvents(items)
  {
    var busy := NormalizeEvents(items);
    forall j | 0 <= j < |busy|
      ensures !IsAllDay(busy[j])
    {
      var b := busy[j];
      assert b in busy;
      NormalizeEventsMembers(items, b);
      var i :| 0 <= i < |items| && Normalize(items[i]) == Some(b);
      NormalizedEventIsTimed(items[i]);
    }
    FilterKeepsTimedEvents(busy);
  }

  /** A busy entry after `new Date(...)`: `None` is an Invalid Date. */
  datatype BusyInstants = BusyInstants(start: Option<int>, end: Option<int>)

  /** `slotStart < bEnd && slotEnd > bStart`; every comparison with an
      Invalid Date is false. */
  predicate HitsBusy(start: int, end: int, b: BusyInstants)
  {
    b.start.Some? && b.end.Some? && start < b.end.value && end > b.start.value
  }

  function AnyHit(start: int, end: int, busy: seq<BusyInstants>): (hit: bool)
    ensures hit <==> exists i :: 0 <= i < |busy| && HitsBusy(start, end, busy[i])
  {
    if |busy| == 0 then false else HitsBusy(start, end, busy[0]) || AnyHit(start, end, busy[1..])
  }

  /** One hourly slot: `h:00` on `day`, lasting `minutes`. */
  function HourSlot(day: int, hour: int, minutes: int, busy: seq<BusyInstants>): Slot
  {
    var start := AtHour(day, hour);
    Slot(start, start + minutes, !AnyHit(start, start + minutes, busy))
  }

  /** The inner loop: hours `hour`, `hour + 1`, ... below `closeHour` of one day. */
  function HoursFrom(day: int, hour: int, closeHour: int, minutes: int, busy: seq<BusyInstants>): (slots: seq<Slot>)
    ensures |slots| == if hour < closeHour then closeHour - hour else 0
    ensures forall k :: 0 <= k < |slots| ==> slots[k] == HourSlot(day, hour + k, minutes, busy)
    decreases closeHour - hour
  {
    if hour < closeHour then [HourSlot(day, hour, minutes, busy)] + HoursFrom(day, hour + 1, closeHour, minutes, busy)
    else []
  }

  /** The outer loop: days `day` through `lastDay`, each from `openHour`. */
  function DaysFrom(day: int, lastDay: int, openHour: int, closeHour: int, minutes: int, busy: seq<BusyInstants>): seq<Slot>
    decreases lastDay - day + 1
  {
    if day <= lastDay then
      HoursFrom(day, openHour, closeHour, minutes, busy) + DaysFrom(day + 1, lastDay, openHour, closeHour, minutes, busy)
    else []
  }

  /** The number of hours per day the generator walks. */
  function HoursPerDay(openHour: int, closeHour: int): nat
  {
    if openHour < closeHour then closeHour - openHour else 0
  }

  /** The number of days from `day` through `lastDay`. */
  function DayCount(day: int, lastDay: int): nat
  {
    if day <= lastDay then lastDay - day + 1 else 0
  }

  /** The generator emits one slot per (day, hour) pair. */
  lemma {:induction false} DaysFromCount(day: int, lastDay: int, openHour: int, closeHour: int, minutes: int, busy: seq<BusyInstants>)
    ensures |DaysFrom(day, lastDay, openHour, closeHour, minutes, busy)| == DayCount(day, lastDay) * HoursPerDay(openHour, closeHour)
    decreases lastDay - day + 1
  {
    if day <= lastDay {
      DaysFromCount(day + 1, lastDay, openHour, closeHour, minutes, busy);
      var n, h := DayCount(day + 1, lastDay), HoursPerDay(openHour, closeHour);
      assert DayCount(day, lastDay) == n + 1;
      assert (n + 1) * h == n * h + h;
    }
  }

  /** Every slot starts on the hour, on a day of the range, within the hours,
      and lasts exactly `minutes`. */
  lemma {:induction false} DaysFromSound(day: int, lastDay: int, openHour: int, closeHour: int, minutes: int, busy: seq<BusyInstants>, s: Slot)
    requires s in DaysFrom(day, lastDay, openHour, closeHour, minutes, busy)
    ensures exists d, h :: day <= d <= lastDay && openHour <= h < closeHour && s == HourSlot(d, h, minutes, busy)
    decreases lastDay - day + 1
  {
    var hours := HoursFrom(day, openHour, closeHour, minutes, busy);
    if s in hours {
      var k :| 0 <= k < |hours| && hours[k] == s;
      assert s == HourSlot(day, openHour + k, minutes, busy);
    } else {
      DaysFromSound(day + 1, lastDay, openHour, closeHour, minutes, busy, s);
    }
  }

  /** Every (day, hour) pair of the range has its slot. */
  lemma {:induction false} DaysFromComplete(day: int, lastDay: int, openHour: int, closeHour: int, minutes: int, busy: seq<BusyInstants>, d: int, h: int)
    requires day <= d <= lastDay && openHour <= h < closeHour
    ensures HourSlot(d, h, minutes, busy) in DaysFrom(day, lastDay, openHour, closeHour, minutes, busy)
    decreases lastDay - day + 1
  {
    var hours := HoursFrom(day, openHour, closeHour, minutes, busy);
    var rest := DaysFrom(day + 1, lastDay, openHour, closeHour, minutes, busy);
    assert DaysFrom(day, lastDay, openHour, closeHour, minutes, busy) == hours + rest;
    if d == day {
      assert hours[h - openHour] == HourSlot(d, h, minutes, busy);
      assert HourSlot(d, h, minutes, busy) in hours;
    } else {
      DaysFromComplete(day + 1, lastDay, openHour, closeHour, minutes, busy, d, h);
      assert HourSlot(d, h, minutes, busy) in rest;
    }
  }

  /** The generator's window once the strings are read. */
  datatype HourlyRequest = HourlyRequest(
    fromDay: Option<int>,
    toDay: Option<int>,
    openHour: Option<int>,
    closeHour: Option<int>)

  /** Both loops run at least once: every bound is readable, the first day
      is not after the last and the opening hour is before the closing one. */
  predicate Runs(r: HourlyRequest)
  {
    r.fromDay.Some? && r.toDay.Some? && r.openHour.Some? && r.closeHour.Some? &&
    r.fromDay.value <= r.toDay.value && r.openHour.value < r.closeHour.value
  }

  /** `generateTimeSlots({from, to, openHour, closeHour, slotMinutes, busy})`:
      an Invalid Date or a `NaN` hour stops both loops at once. */
  function HourlySlots(r: HourlyRequest, slotMinutes: int, busy: seq<BusyInstants>): (slots: seq<Slot>)
    ensures r.fromDay.None? || r.toDay.None? || r.openHour.None? || r.closeHour.None? ==> slots == []
    ensures r.fromDay.Some? && r.toDay.Some? && r.openHour.Some? && r.closeHour.Some? ==>
      |slots| == DayCount(r.fromDay.value, r.toDay.value) * HoursPerDay(r.openHour.value, r.closeHour.value)
    ensures |slots| > 0 <==> Runs(r)
    ensures forall s :: s in slots ==>
      s.end == s.start + slotMinutes &&
      (s.available <==> forall b :: b in busy ==> !HitsBusy(s.start, s.end, b))
  {
    if r.fromDay.Some? && r.toDay.Some? && r.openHour.Some? && r.closeHour.Some? then
      var slots := DaysFrom(r.fromDay.value, r.toDay.value, r.openHour.value, r.closeHour.value, slotMinutes, busy);
      DaysFromCount(r.fromDay.value, r.toDay.value, r.openHour.value, r.closeHour.value, slotMinutes, busy);
      forall s | s in slots
        ensures s.end == s.start + slotMinutes &&
          (s.available <==> forall b :: b in busy ==> !HitsBusy(s.start, s.end, b))
      {
        DaysFromSound(r.fromDay.value, r.toDay.value, r.openHour.value, r.closeHour.value, slotMinutes, busy, s);
      }
      slots
    else []
  }

  /**
   * The hourly slots start exactly at the instants `h:00` of a day of the
   * range with `openHour <= h < closeHour`; no end is checked against the
   * closing hour.
   */
  lemma HourlySlotsExactly(r: HourlyRequest, slotMinutes: int, busy: seq<BusyInstants>, t: int)
    requires r.fromDay.Some? && r.toDay.Some? && r.openHour.Some? && r.closeHour.Some?
    ensures (exists s :: s in HourlySlots(r, slotMinutes, busy) && s.start == t) <==>
      exists d, h :: r.fromDay.value <= d <= r.toDay.value && r.openHour.value <= h < r.closeHour.value &&
        t == AtHour(d, h)
  {
    var from, to, open, close := r.fromDay.value, r.toDay.value, r.openHour.value, r.closeHour.value;
    if d, h :| from <= d <= to && open <= h < close && t == AtHour(d, h) {
      DaysFromComplete(from, to, open, close, slotMinutes, busy, d, h);
      assert HourSlot(d, h, slotMinutes, busy).start == t;
    }
    if s :| s in HourlySlots(r, slotMinutes, busy) && s.start == t {
      DaysFromSound(from, to, open, close, slotMinutes, busy, s);
    }
  }

  /** `slots.filter(s => s.available).map(s => s.start)`. */
  function AvailableStarts(slots: seq<Slot>): (times: seq<int>)
    ensures |times| <= |slots|
    ensures forall t :: t in times <==> exists s :: s in slots && s.available && s.start == t
  {
    if |slots| == 0 then []
    else if slots[0].available then [slots[0].start] + AvailableStarts(slots[1..])
    else AvailableStarts(slots[1..])
  }

  /** Mapping a concatenation maps each part in turn: the free starts keep
      the slots' order. */
  lemma {:induction false} AvailableStartsAppend(a: seq<Slot>, b: seq<Slot>)
    ensures AvailableStarts(a + b) == AvailableStarts(a) + AvailableStarts(b)
  {
    if |a| == 0 {
      assert a + b == b;
    } else {
      assert (a + b)[0] == a[0];
      assert (a + b)[1..] == a[1..] + b;
      AvailableStartsAppend(a[1..], b);
    }
  }

  /** The free starts are, in order, the starts of the available slots: the
      slot list cut after any slot gives the free starts up to that point. */
  lemma AvailableStartsPrefix(slots: seq<Slot>, k: int)
    requires 0 <= k <= |slots|
    ensures AvailableStarts(slots) == AvailableStarts(slots[..k]) + AvailableStarts(slots[k..])
  {
    assert slots == slots[..k] + slots[k..];
    AvailableStartsAppend(slots[..k], slots[k..]);
  }

  /** `SERVICE_DURATIONS[key]`: the service lengths this endpoint knows, and
      an inherited member for the names of `Object.prototype`. */
  function ServiceDuration(key: string): (minutes: Property<int>)
    ensures minutes.Own? <==> key in {"1", "2", "3", "8"}
    ensures minutes.Inherited? <==> key in InheritedKeys
    ensures minutes.Own? ==> minutes.value in {60, 90, 120}
  {
    match key
    case "1" => Own(60)
    case "2" => Own(90)
    case "3" => Own(120)
    case "8" => Own(60)
    case _ => if key in InheritedKeys then Inherited else Missing
  }

  /** `param && Number(param)` is truthy: present, numeric and not zero. */
  predicate NonZeroNumber(param: Option<string>)
  {
    Present(param) && ParseNumber(param.value).Some? && ParseNumber(param.value).value != 0
  }

  /** The default slot length. */
  const DefaultSlotMinutes: int := 60

  /** The value `slotMinutes` holds: a number of minutes, or the inherited
      member (a function) `SERVICE_DURATIONS[serviceId]` gives for a key such
      as `constructor`. */
  datatype SlotLength = Minutes(minutes: int) | InheritedMember

  /**
   * `(override && Number(override)) || (serviceId && SERVICE_DURATIONS[serviceId]) || 60`:
   * a non-zero numeric override wins, then whatever truthy value the
   * service key finds, then 60.
   */
  function SlotMinutes(durationOverride: Option<string>, serviceId: Option<string>): (length: SlotLength)
    ensures length.Minutes? ==> length.minutes != 0
    ensures NonZeroNumber(durationOverride) ==> length == Minutes(ParseNumber(durationOverride.value).value)
    ensures !NonZeroNumber(durationOverride) && serviceId.Some? && ServiceDuration(serviceId.value).Own? ==>
      length == Minutes(ServiceDuration(serviceId.value).value)
    ensures !NonZeroNumber(durationOverride) && (serviceId.None? || ServiceDuration(serviceId.value).Missing?) ==>
      length == Minutes(DefaultSlotMinutes)
    ensures length == InheritedMember <==>
      !NonZeroNumber(durationOverride) && serviceId.Some? && serviceId.value in InheritedKeys
  {
    var fromOverride := if Present(durationOverride) then ParseNumber(durationOverride.value) else None;
    if fromOverride.Some? && fromOverride.value != 0 then Minutes(fromOverride.value)
    else if Present(serviceId) then
      match ServiceDuration(serviceId.value)
      case Own(minutes) => Minutes(minutes)
      case Inherited => InheritedMember
      case Missing => Minutes(DefaultSlotMinutes)
    else Minutes(DefaultSlotMinutes)
  }

  const KeyHint: string := "Key: Application restrictions=None; API restrictions=Google Calendar API."
  const CalendarIdHint: string := "GCAL_ID incorrecto o calendario no público."
  const GenericHint: string := "Verifica GCAL_ID / GCAL_KEY y que el calendario sea público."

  /** The hint that accompanies an error message. */
  function Hint(msg: string): (hint: string)
    ensures hint == KeyHint <==> (exists i :: OccursAt(msg, "403", i))
    ensures hint == CalendarIdHint <==> !(exists i :: OccursAt(msg, "403", i)) && (exists i :: OccursAt(msg, "404", i))
    ensures hint == GenericHint <==> !(exists i :: OccursAt(msg, "403", i)) && !(exists i :: OccursAt(msg, "404", i))
  {
    ContainsSpec(msg, "403");
    ContainsSpec(msg, "404");
    if Contains(msg, "403") then KeyHint
    else if Contains(msg, "404") then CalendarIdHint
    else GenericHint
  }

  /** A 403 from the calendar always yields the key hint, whatever the body says. */
  lemma ForbiddenGivesKeyHint(text: string, calendarId: string)
    ensures Hint(StatusMessage(HttpText(403, text), calendarId)) == KeyHint
  {
    var msg := StatusMessage(HttpText(403, text), calendarId);
    assert IntToString(403) == "403";
    ContainsSpec(msg, "403");
  }

  /** The query parameters the handler reads (`searchParams.get`). */
  datatype Query = Query(
    date: Option<string>,
    serviceId: Option<string>,
    from: Option<string>,
    to: Option<string>,
    openHour: Option<string>,
    closeHour: Option<string>,
    duration: Option<string>)

  /** `Number(param || fallback)`. */
  function HourParam(param: Option<string>, fallback: int): (hour: Option<int>)
    ensures !Present(param) ==> hour == Some(fallback)
    ensures Present(param) ==> hour == ParseNumber(param.value)
  {
    if Present(param) then ParseNumber(param.value) else Some(fallback)
  }

  /** The window `[from, to]`: a single `date`, else the given bounds, else
      today through a week from today. */
  function ResolveRange(q: Query, today: string, weekLater: string): (range: (string, string))
    ensures Present(q.date) ==> range == (q.date.value, q.date.value)
    ensures !Present(q.date) ==>
      range.0 == (if Present(q.from) then q.from.value else today) &&
      range.1 == (if Present(q.to) then q.to.value else weekLater)
  {
    if Present(q.date) then (q.date.value, q.date.value)
    else (if Present(q.from) then q.from.value else today, if Present(q.to) then q.to.value else weekLater)
  }

  /** The successful payload (the ISO spelling of instants is left out).
      `JSON.stringify` drops a `slotMinutes` that holds a function. */
  datatype AvailabilityPayload = AvailabilityPayload(
    from: string,
    to: string,
    openHour: Option<int>,
    closeHour: Option<int>,
    slotMinutes: SlotLength,
    busy: seq<BusyEvent>,
    slots: seq<Slot>,
    times: seq<int>)

  /** Every slot's start and end is a minute a `Date` can hold, so each
      `toISOString()` succeeds. */
  predicate Printable(slots: seq<Slot>)
  {
    forall s :: s in slots ==> InDateRange(s.start) && InDateRange(s.end)
  }

  /**
   * `generateTimeSlots` with the `toISOString()` calls that may throw: a
   * slot length that is an inherited member, or a start or end past the
   * range of a `Date`, makes the first such slot an Invalid Date, and
   * printing it throws "Invalid time value".
   */
  function GenerateTimeSlots(w: HourlyRequest, length: SlotLength, busy: seq<BusyInstants>): (r: Result<seq<Slot>, string>)
    ensures r.Err? ==> r.error == InvalidTimeValue
    ensures r.Err? <==> Runs(w) && (length == InheritedMember || !Printable(HourlySlots(w, length.minutes, busy)))
    ensures r.Ok? ==> r.value == if length.Minutes? then HourlySlots(w, length.minutes, busy) else []
    ensures r.Ok? ==> Printable(r.value)
  {
    match length
    case InheritedMember => if Runs(w) then Err(InvalidTimeValue) else Ok([])
    case Minutes(m) =>
      var slots := HourlySlots(w, m, busy);
      if Printable(slots) then Ok(slots) else Err(InvalidTimeValue)
  }

  /**
   * The slots are all printable exactly when the earliest start, the latest
   * start and the ends of those two slots are: every other slot lies
   * between them.
   */
  lemma PrintableIffCornersInRange(w: HourlyRequest, m: int, busy: seq<BusyInstants>)
    requires Runs(w)
    ensures var first, last := AtHour(w.fromDay.value, w.openHour.value), AtHour(w.toDay.value, w.closeHour.value - 1);
      Printable(HourlySlots(w, m, busy)) <==>
        InDateRange(first) && InDateRange(first + m) && InDateRange(last) && InDateRange(last + m)
  {
    var from, to, open, close := w.fromDay.value, w.toDay.value, w.openHour.value, w.closeHour.value;
    var slots := HourlySlots(w, m, busy);
    var first, last := AtHour(from, open), AtHour(to, close - 1);
    DaysFromComplete(from, to, open, close, m, busy, from, open);
    DaysFromComplete(from, to, open, close, m, busy, to, close - 1);
    assert HourSlot(from, open, m, busy) in slots && HourSlot(to, close - 1, m, busy) in slots;
    if InDateRange(first) && InDateRange(first + m) && InDateRange(last) && InDateRange(last + m) {
      forall s | s in slots
        ensures InDateRange(s.start) && InDateRange(s.end)
      {
        DaysFromSound(from, to, open, close, m, busy, s);
        var d, h :| from <= d <= to && open <= h < close && s == HourSlot(d, h, m, busy);
        AtHourMonotone(from, open, d, h);
        AtHourMonotone(d, h, to, close - 1);
        assert s.start == AtHour(d, h) && s.end == s.start + m;
      }
    }
  }

  lemma AtHourMonotone(d1: int, h1: int, d2: int, h2: int)
    requires d1 <= d2 && h1 <= h2
    ensures AtHour(d1, h1) <= AtHour(d2, h2)
  {
  }

  /** A slot length longer than a `Date` can span answers 500 on any window that runs. */
  lemma OverlongSlotFails(w: HourlyRequest, busy: seq<BusyInstants>)
    requires Runs(w) && InDateRange(AtHour(w.fromDay.value, w.openHour.value))
    ensures GenerateTimeSlots(w, Minutes(2 * MaxDateMinutes + 1), busy) == Err(InvalidTimeValue)
  {
    PrintableIffCornersInRange(w, 2 * MaxDateMinutes + 1, busy);
  }

  /** A status and what the handler sends. */
  datatype AvailabilityResponse =
    | Served(payload: AvailabilityPayload)
    | Failed(status: int, error: string, hint: string)

  /** The message of the `RangeError` that `toISOString()` throws on an Invalid Date. */
  const InvalidTimeValue: string := "Invalid time value"

  /** That message names neither status, so it comes with the generic hint. */
  lemma InvalidTimeValueHint()
    ensures Hint(InvalidTimeValue) == GenericHint
  {
    assert '4' !in InvalidTimeValue;
    AbsentFirstCharacter(InvalidTimeValue, "403");
    AbsentFirstCharacter(InvalidTimeValue, "404");
  }

  /** A text without the first character of `sub` does not hold `sub`. */
  lemma AbsentFirstCharacter(msg: string, sub: string)
    requires |sub| > 0 && sub[0] !in msg
    ensures !exists i :: OccursAt(msg, sub, i)
  {
    forall i | 0 <= i && i + |sub| <= |msg|
      ensures !OccursAt(msg, sub, i)
    {
      assert msg[i..i + |sub|][0] == msg[i] && msg[i] in msg;
    }
  }

  /** `new Date(b.start)`, `new Date(b.end)` for each busy entry. */
  function BusyInstantsOf(busy: seq<BusyEvent>, instant: string -> Option<int>): (instants: seq<BusyInstants>)
    ensures |instants| == |busy|
    ensures forall i :: 0 <= i < |busy| ==> instants[i] == BusyInstants(instant(busy[i].start), instant(busy[i].end))
  {
    seq(|busy|, i requires 0 <= i < |busy| => BusyInstants(instant(busy[i].start), instant(busy[i].end)))
  }

  /** The generator's window for a query. */
  function WindowOf(q: Query, today: string, weekLater: string, localDay: string -> Option<int>): HourlyRequest
  {
    var range := ResolveRange(q, today, weekLater);
    HourlyRequest(localDay(range.0), localDay(range.1), HourParam(q.openHour, 10), HourParam(q.closeHour, 19))
  }

  /**
   * `handler(req)`: `calendar` is what the calendar read gives for the
   * window (its error message when it throws), `localDay` reads a
   * `YYYY-MM-DD` string as a local day and `instant` an ISO string as an
   * instant.
   *
   * A slot length that is an inherited member makes every slot end an
   * Invalid Date, and an hour or length that carries a slot past the range
   * of a `Date` makes it one too; the first such slot's `toISOString()`
   * throws into the handler's own catch. With no slot to build the payload
   * goes out.
   */
  function Handle(q: Query, today: string, weekLater: string,
                  calendar: Result<seq<BusyEvent>, string>,
                  localDay: string -> Option<int>, instant: string -> Option<int>): (resp: AvailabilityResponse)
    ensures calendar.Err? ==>
      resp.Failed? && resp.status == 500 && resp.error == ThrownMessage(calendar.error) && resp.hint == Hint(resp.error)
    ensures calendar.Ok? ==>
      var window, length := WindowOf(q, today, weekLater, localDay), SlotMinutes(q.duration, q.serviceId);
      var busy := BusyInstantsOf(FilterBusyAllDay(calendar.value), instant);
      (resp.Failed? <==>
        Runs(window) && (length == InheritedMember || !Printable(HourlySlots(window, length.minutes, busy)))) &&
      (resp.Failed? ==> resp.status == 500 && resp.error == InvalidTimeValue && resp.hint == GenericHint)
    ensures resp.Served? ==>
      var window, length := WindowOf(q, today, weekLater, localDay), SlotMinutes(q.duration, q.serviceId);
      var busy := FilterBusyAllDay(calendar.value);
      calendar.Ok? &&
      (resp.payload.from, resp.payload.to) == ResolveRange(q, today, weekLater) &&
      resp.payload.openHour == HourParam(q.openHour, 10) &&
      resp.payload.closeHour == HourParam(q.closeHour, 19) &&
      resp.payload.slotMinutes == length &&
      resp.payload.busy == busy &&
      resp.payload.slots == (if length.Minutes? then HourlySlots(window, length.minutes, BusyInstantsOf(busy, instant)) else []) &&
      resp.payload.times == AvailableStarts(resp.payload.slots) &&
      Printable(resp.payload.slots)
  {
    match calendar
    case Err(message) =>
      var msg := ThrownMessage(message);
      Failed(500, msg, Hint(msg))
    case Ok(events) =>
      var range := ResolveRange(q, today, weekLater);
      var window := WindowOf(q, today, weekLater, localDay);
      var length := SlotMinutes(q.duration, q.serviceId);
      var busy := FilterBusyAllDay(events);
      match GenerateTimeSlots(window, length, BusyInstantsOf(busy, instant))
      case Err(msg) =>
        InvalidTimeValueHint();
        Failed(500, msg, Hint(msg))
      case Ok(slots) =>
        Served(AvailabilityPayload(range.0, range.1, window.openHour, window.closeHour, length, busy, slots, AvailableStarts(slots)))
  }

  /**
   * A served answer lists, as `times`, exactly the instants `h:00` of a day
   * of the window with `openHour <= h < closeHour` whose slot of the
   * resolved length meets no busy range kept by the all-day filter.
   */
  lemma ServedTimesAreFreeHours(q: Query, today: string, weekLater: string, events: seq<BusyEvent>,
                                localDay: string -> Option<int>, instant: string -> Option<int>, t: int)
    requires Handle(q, today, weekLater, Ok(events), localDay, instant).Served?
    ensures var p := Handle(q, today, weekLater, Ok(events), localDay, instant).payload;
      var w := WindowOf(q, today, weekLater, localDay);
      t in p.times <==>
        p.slotMinutes.Minutes? &&
        w.fromDay.Some? && w.toDay.Some? && w.openHour.Some? && w.closeHour.Some? &&
        FreeHourStart(w, p.slotMinutes.minutes, BusyInstantsOf(FilterBusyAllDay(events), instant), t)
  {
    var p := Handle(q, today, weekLater, Ok(events), localDay, instant).payload;
    var w := WindowOf(q, today, weekLater, localDay);
    if p.slotMinutes.Minutes? && w.fromDay.Some? && w.toDay.Some? && w.openHour.Some? && w.closeHour.Some? {
      FreeStartsOfHourlySlots(w, p.slotMinutes.minutes, BusyInstantsOf(FilterBusyAllDay(events), instant), t);
    }
  }

  /** `t` is `h:00` of a day of the window with `openHour <= h < closeHour`,
      and its slot of `slotMinutes` hits no busy range. */
  predicate FreeHourStart(w: HourlyRequest, slotMinutes: int, busy: seq<BusyInstants>, t: int)
    requires w.fromDay.Some? && w.toDay.Some? && w.openHour.Some? && w.closeHour.Some?
  {
    (exists d, h :: w.fromDay.value <= d <= w.toDay.value && w.openHour.value <= h < w.closeHour.value &&
      t == AtHour(d, h)) &&
    forall b :: b in busy ==> !HitsBusy(t, t + slotMinutes, b)
  }

  /** The free starts of the hourly slots are exactly the free hour starts. */
  lemma FreeStartsOfHourlySlots(w: HourlyRequest, slotMinutes: int, busy: seq<BusyInstants>, t: int)
    requires w.fromDay.Some? && w.toDay.Some? && w.openHour.Some? && w.closeHour.Some?
    ensures t in AvailableStarts(HourlySlots(w, slotMinutes, busy)) <==> FreeHourStart(w, slotMinutes, busy, t)
  {
    HourlySlotsExactly(w, slotMinutes, busy, t);
  }
}
