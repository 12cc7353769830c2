/**
 * Reading the public calendar (lib/google-calendar.js, `listPublicEvents`):
 * the configuration check, the response checks and the normalisation of
 * Google Calendar events into busy ranges.
 *
 * The HTTP request and `JSON.parse` are outside the model: the response
 * arrives as a parameter, and the parsed body as `Some` payload, or `None`
 * when the text is not JSON.
 */
module GoogleCalendar {
  import opened Wrappers
  import opened Text

  /** The `start` or `end` object of an event: an all-day `date` or a timed `dateTime`. */
  datatype EventTime = EventTime(date: Option<string>, dateTime: Option<string>)

  /** One item of the events list, with the fields the code reads. */
  datatype CalEvent = CalEvent(
    id: Option<string>,
    summary: Option<string>,
    start: Option<EventTime>,
    end: Option<EventTime>)

  /** A normalised busy entry `{start, end, id, summary}`. */
  datatype BusyEvent = BusyEvent(start: string, end: string, id: Option<string>, summary: string)

  /** The suffix that turns an all-day date into a midnight UTC instant. */
  const MidnightUtc: string := "T00:00:00Z"

  /**
   * `ev.start?.dateTime || (ev.start?.date ? date + "T00:00:00Z" : null)`,
   * and the same for `end`.
   */
  function ResolveTime(t: Option<EventTime>): (r: Option<string>)
    ensures r.Some? <==> t.Some? && (Present(t.value.dateTime) || Present(t.value.date))
    ensures r.Some? ==> r.value != ""
    ensures t.Some? && Present(t.value.dateTime) ==> r == t.value.dateTime
    ensures t.Some? && !Present(t.value.dateTime) && Present(t.value.date) ==>
      r == Some(t.value.date.value + MidnightUtc)
  {
    if t.None? then None
    else if Present(t.value.dateTime) then t.value.dateTime
    else if Present(t.value.date) then Some(t.value.date.value + MidnightUtc)
    else None
  }

  /** The busy entry of one event, or `null` when its start or end cannot be resolved. */
  function Normalize(ev: CalEvent): (b: Option<BusyEvent>)
    ensures b.Some? <==> ResolveTime(ev.start).Some? && ResolveTime(ev.end).Some?
    ensures b.Some? ==>
      b.value.start == ResolveTime(ev.start).value && b.value.end == ResolveTime(ev.end).value &&
      b.value.id == ev.id
    ensures b.Some? ==> (Present(ev.summary) ==> b.value.summary == ev.summary.value)
    ensures b.Some? ==> (!Present(ev.summary) ==> b.value.summary == "")
  {
    var s, e := ResolveTime(ev.start), ResolveTime(ev.end);
    if s.Some? && e.Some? then
      Some(BusyEvent(s.value, e.value, ev.id, if Present(ev.summary) then ev.summary.value else ""))
    else None
  }

  /** `items.map(normalize).filter(Boolean)`. */
  function NormalizeEvents(items: seq<CalEvent>): (busy: seq<BusyEvent>)
    ensures |busy| <= |items|
  {
    if |items| == 0 then []
    else
      match Normalize(items[0])
      case Some(b) => [b] + NormalizeEvents(items[1..])
      case None => NormalizeEvents(items[1..])
  }

  /** Normalising a concatenation normalises each part in turn: the output
      keeps the input's order. */
  lemma {:induction false} NormalizeEventsAppend(a: seq<CalEvent>, b: seq<CalEvent>)
    ensures NormalizeEvents(a + b) == NormalizeEvents(a) + NormalizeEvents(b)
  {
    if |a| == 0 {
      assert a + b == b;
    } else {
      assert (a + b)[0] == a[0];
      assert (a + b)[1..] == a[1..] + b;
      NormalizeEventsAppend(a[1..], b);
    }
  }

  /** An entry is in the output exactly when some event normalises to it. */
  lemma {:induction false} NormalizeEventsMembers(items: seq<CalEvent>, b: BusyEvent)
    ensures b in NormalizeEvents(items) <==> exists i :: 0 <= i < |items| && Normalize(items[i]) == Some(b)
  {
    if |items| > 0 {
      NormalizeEventsMembers(items[1..], b);
      if exists i :: 0 <= i < |items| && Normalize(items[i]) == Some(b) {
        var i :| 0 <= i < |items| && Normalize(items[i]) == Some(b);
        if i > 0 {
          assert items[1..][i - 1] == items[i];
        }
      }
      if exists i :: 0 <= i < |items[1..]| && Normalize(items[1..][i]) == Some(b) {
        var i :| 0 <= i < |items[1..]| && Normalize(items[1..][i]) == Some(b);
        assert items[i + 1] == items[1..][i];
      }
    }
  }

  /** Events whose times all resolve are all kept, one entry each. */
  lemma {:induction false} NormalizeEventsKeepsResolvable(items: seq<CalEvent>)
    requires forall i :: 0 <= i < |items| ==> Normalize(items[i]).Some?
    ensures |NormalizeEvents(items)| == |items|
    ensures forall i :: 0 <= i < |items| ==> NormalizeEvents(items)[i] == Normalize(items[i]).value
  {
    if |items| > 0 {
      NormalizeEventsKeepsResolvable(items[1..]);
      var rest := NormalizeEvents(items[1..]);
      forall i | 0 < i < |items|
        ensures NormalizeEvents(items)[i] == Normalize(items[i]).value
      {
        assert items[1..][i - 1] == items[i];
      }
    }
  }

  /** The two settings the read needs. */
  datatype CalendarEnv = CalendarEnv(apiKey: Option<string>, calendarId: Option<string>)

  /** What `fetch` returned: the status and the body text. */
  datatype HttpText = HttpText(status: int, text: string)

  /** `res.ok`: a 2xx status. */
  predicate IsOk(res: HttpText)
  {
    200 <= res.status <= 299
  }

  /** A parsed body: only its `items` field is read. */
  datatype EventsPayload = EventsPayload(items: Option<seq<CalEvent>>)

  const MissingConfigMessage: string := "Faltan NEXT_PUBLIC_GCAL_API_KEY o NEXT_PUBLIC_GCAL_CALENDAR_ID"

  /** The message thrown for a non-2xx response. */
  function StatusMessage(res: HttpText, calendarId: string): (msg: string)
    ensures OccursAt(msg, "Google Calendar " + IntToString(res.status), 0)
    ensures Contains(msg, IntToString(res.status))
  {
    var status := IntToString(res.status);
    var msg := "Google Calendar " + status + ": " + res.text + " (calendarId=" + calendarId + ")";
    assert msg[..16 + |status|] == "Google Calendar " + status;
    assert msg[16..16 + |status|] == status;
    assert OccursAt(msg, status, 16);
    ContainsSpec(msg, status);
    msg
  }

  /**
   * `listPublicEvents(...)` after the request: the busy entries, or the
   * message of the error it throws.
   */
  function ListPublicEvents(env: CalendarEnv, res: HttpText, parsed: Option<EventsPayload>): (r: Result<seq<BusyEvent>, string>)
    ensures !Present(env.apiKey) || !Present(env.calendarId) ==> r == Err(MissingConfigMessage)
    ensures Present(env.apiKey) && Present(env.calendarId) && !IsOk(res) ==>
      r.Err? && Contains(r.error, IntToString(res.status))
    ensures Present(env.apiKey) && Present(env.calendarId) && IsOk(res) ==> r.Ok?
    ensures r.Ok? && (parsed.None? || parsed.value.items.None?) ==> r.value == []
    ensures r.Ok? && parsed.Some? && parsed.value.items.Some? ==>
      r.value == NormalizeEvents(parsed.value.items.value)
  {
    if !Present(env.apiKey) || !Present(env.calendarId) then Err(MissingConfigMessage)
    else if !IsOk(res) then Err(StatusMessage(res, env.calendarId.value))
    else
      var data := if parsed.Some? then parsed.value else EventsPayload(Some([]));
      Ok(NormalizeEvents(if data.items.Some? then data.items.value else []))
  }

  /** The missing-configuration error comes before any request: the response
      and its body play no part in it. */
  lemma MissingConfigIgnoresResponse(env: CalendarEnv, res1: HttpText, parsed1: Option<EventsPayload>,
                                     res2: HttpText, parsed2: Option<EventsPayload>)
    requires !Present(env.apiKey) || !Present(env.calendarId)
    ensures ListPublicEvents(env, res1, parsed1) == ListPublicEvents(env, res2, parsed2)
  {
  }
}
