/**
 * The edge worker (api-worker/src/index.ts): path routing, the parameter
 * and configuration checks of `/api/slots`, its busy mapping, and the
 * action check of `/api/gs-check`.
 *
 * The calendar request, the configuration relay and luxon's date check are
 * outside the model: their results arrive as parameters (`relayed` is the
 * response the relay to the Apps Script would produce). The events of a
 * payload reuse the calendar event shape of lib/google-calendar.js.
 */
module Worker {
  import opened Wrappers
  import opened Text
  import opened GoogleCalendar

  /** A busy entry of the worker: `{start: dateTime ?? null, end: dateTime ?? null}`. */
  datatype WorkerBusy = WorkerBusy(start: Option<string>, end: Option<string>)

  /** A parsed response body: an `items` list and/or an `error.message`; either may be absent. */
  datatype WorkerPayload = WorkerPayload(items: Option<seq<CalEvent>>, errorMessage: Option<string>)

  /** What the calendar request returned: status, `ok`, and the body (`None` when not JSON). */
  datatype CalendarReply = CalendarReply(status: int, ok: bool, payload: Option<WorkerPayload>)

  datatype WorkerEnv = WorkerEnv(calendarId: Option<string>, apiKey: Option<string>, gasUrl: Option<string>)

  datatype WorkerBody =
    | BusyBody(busy: seq<WorkerBusy>)
    | ErrorBody(error: string)
    | NotFoundText

  datatype WorkerResponse = WorkerResponse(status: int, body: WorkerBody)

  datatype Route = SlotsRoute | ConfigRoute | NoRoute

  const DateRequired: string := "El parámetro date es obligatorio (YYYY-MM-DD)."
  const MissingCalendarConfig: string := "Faltan configuraciones de Google Calendar."
  const InvalidDate: string := "Fecha inválida"
  const CalendarFailed: string := "Error obteniendo eventos del calendario."
  const MissingGasUrl: string := "GAS_WEBAPP_URL no está configurada en el worker."
  const UnsupportedAction: string := "Acción no soportada. Usa action=getConfig."

  /** The `switch (url.pathname)` of `fetch`. */
  function RouteOf(path: string): (r: Route)
    ensures r == SlotsRoute <==> path == "/api/slots"
    ensures r == ConfigRoute <==> path == "/api/gs-check"
  {
    if path == "/api/slots" then SlotsRoute
    else if path == "/api/gs-check" then ConfigRoute
    else NoRoute
  }

  /** `!event.start?.date`: the event is not an all-day one. */
  predicate IsTimed(ev: CalEvent)
  {
    ev.start.None? || !Present(ev.start.value.date)
  }

  /** `event.start?.dateTime ?? null`: only a missing value becomes `null`; an empty text is kept. */
  function DateTimeOrNull(t: Option<EventTime>): (r: Option<string>)
    ensures t.None? ==> r.None?
    ensures t.Some? ==> r == t.value.dateTime
  {
    if t.Some? then t.value.dateTime else None
  }

  function ToWorkerBusy(ev: CalEvent): WorkerBusy
  {
    WorkerBusy(DateTimeOrNull(ev.start), DateTimeOrNull(ev.end))
  }

  /** `.filter(event => !event.start?.date)`. */
  function TimedEvents(items: seq<CalEvent>): (kept: seq<CalEvent>)
    ensures forall ev :: ev in kept <==> ev in items && IsTimed(ev)
  {
    if |items| == 0 then []
    else if IsTimed(items[0]) then [items[0]] + TimedEvents(items[1..])
    else TimedEvents(items[1..])
  }

  /** The busy list: every timed event mapped, in order. */
  function BusyOf(items: seq<CalEvent>): (busy: seq<WorkerBusy>)
    ensures |busy| == |TimedEvents(items)|
    ensures forall i :: 0 <= i < |busy| ==> busy[i] == ToWorkerBusy(TimedEvents(items)[i])
  {
    var kept := TimedEvents(items);
    seq(|kept|, i requires 0 <= i < |kept| => ToWorkerBusy(kept[i]))
  }

  /** Filtering a concatenation filters each part in turn. */
  lemma {:induction false} TimedEventsAppend(a: seq<CalEvent>, b: seq<CalEvent>)
    ensures TimedEvents(a + b) == TimedEvents(a) + TimedEvents(b)
  {
    if |a| == 0 {
      assert a + b == b;
    } else {
      assert (a + b)[0] == a[0];
      assert (a + b)[1..] == a[1..] + b;
      TimedEventsAppend(a[1..], b);
    }
  }

  /** An all-day event contributes nothing, whatever its summary says. */
  lemma AllDayEventDropped(before: seq<CalEvent>, ev: CalEvent, after: seq<CalEvent>)
    requires ev.start.Some? && Present(ev.start.value.date)
    ensures BusyOf(before + [ev] + after) == BusyOf(before + after)
  {
    TimedEventsAppend(before + [ev], after);
    TimedEventsAppend(before, [ev]);
    TimedEventsAppend(before, after);
    assert TimedEvents([ev]) == [];
  }

  /**
   * `handleSlots`: the date check, the configuration check, luxon's date
   * check (`dateValid`), the response check, then the busy mapping.
   */
  function HandleSlots(date: Option<string>, env: WorkerEnv, dateValid: bool, reply: CalendarReply): (r: WorkerResponse)
    ensures !Present(date) ==> r == WorkerResponse(400, ErrorBody(DateRequired))
    ensures Present(date) && (!Present(env.calendarId) || !Present(env.apiKey)) ==>
      r == WorkerResponse(500, ErrorBody(MissingCalendarConfig))
    ensures Present(date) && Present(env.calendarId) && Present(env.apiKey) && !dateValid ==>
      r == WorkerResponse(500, ErrorBody(InvalidDate))
    ensures r.body.BusyBody? <==>
      Present(date) && Present(env.calendarId) && Present(env.apiKey) && dateValid && reply.ok && reply.payload.Some?
    ensures r.body.BusyBody? ==> r.status == 200
    ensures r.body.BusyBody? && reply.payload.value.items.None? ==> r.body.busy == []
    ensures r.body.BusyBody? && reply.payload.value.items.Some? ==> r.body.busy == BusyOf(reply.payload.value.items.value)
    ensures (Present(date) && Present(env.calendarId) && Present(env.apiKey) && dateValid &&
             !(reply.ok && reply.payload.Some?)) ==>
      r.status == reply.status && r.body.ErrorBody?
    ensures (Present(date) && Present(env.calendarId) && Present(env.apiKey) && dateValid && !reply.ok &&
             reply.payload.Some? && Present(reply.payload.value.errorMessage)) ==>
      r == WorkerResponse(reply.status, ErrorBody(reply.payload.value.errorMessage.value))
    ensures (Present(date) && Present(env.calendarId) && Present(env.apiKey) && dateValid &&
             (reply.payload.None? || (!reply.ok && !Present(reply.payload.value.errorMessage)))) ==>
      r == WorkerResponse(reply.status, ErrorBody(CalendarFailed))
  {
    if !Present(date) then WorkerResponse(400, ErrorBody(DateRequired))
    else if !Present(env.calendarId) || !Present(env.apiKey) then WorkerResponse(500, ErrorBody(MissingCalendarConfig))
    else if !dateValid then WorkerResponse(500, ErrorBody(InvalidDate))
    else if !reply.ok || reply.payload.None? then
      var message :=
        if reply.payload.Some? && Present(reply.payload.value.errorMessage)
        then reply.payload.value.errorMessage.value else CalendarFailed;
      WorkerResponse(reply.status, ErrorBody(message))
    else
      var items := if reply.payload.value.items.Some? then reply.payload.value.items.value else [];
      WorkerResponse(200, BusyBody(BusyOf(items)))
  }

  /** `handleConfig`: only `action=getConfig` with a configured script URL reaches the relay. */
  function HandleConfig(action: Option<string>, env: WorkerEnv, relayed: WorkerResponse): (r: WorkerResponse)
    ensures action != Some("getConfig") ==> r == WorkerResponse(400, ErrorBody(UnsupportedAction))
    ensures action == Some("getConfig") && !Present(env.gasUrl) ==> r == WorkerResponse(500, ErrorBody(MissingGasUrl))
    ensures action == Some("getConfig") && Present(env.gasUrl) ==> r == relayed
  {
    if action == Some("getConfig") then
      if !Present(env.gasUrl) then WorkerResponse(500, ErrorBody(MissingGasUrl))
      else relayed
    else WorkerResponse(400, ErrorBody(UnsupportedAction))
  }

  /** The worker's `fetch`: dispatch on the path, 404 elsewhere. */
  function Fetch(path: string, date: Option<string>, action: Option<string>, env: WorkerEnv,
                 dateValid: bool, reply: CalendarReply, relayed: WorkerResponse): (r: WorkerResponse)
    ensures path == "/api/slots" ==> r == HandleSlots(date, env, dateValid, reply)
    ensures path == "/api/gs-check" ==> r == HandleConfig(action, env, relayed)
    ensures path != "/api/slots" && path != "/api/gs-check" ==> r == WorkerResponse(404, NotFoundText)
  {
    match RouteOf(path)
    case SlotsRoute => HandleSlots(date, env, dateValid, reply)
    case ConfigRoute => HandleConfig(action, env, relayed)
    case NoRoute => WorkerResponse(404, NotFoundText)
  }

  /**
   * The worker and lib/google-calendar.js disagree on all-day events: the
   * worker drops an event whose start is a date, while the library keeps
   * it as a busy range from midnight UTC.
   */
  lemma AllDayPoliciesDiffer(ev: CalEvent)
    requires ev.start.Some? && Present(ev.start.value.date) && !Present(ev.start.value.dateTime)
    requires ev.end.Some? && Present(ev.end.value.date)
    ensures BusyOf([ev]) == []
    ensures Normalize(ev).Some? && Normalize(ev).value.start == ev.start.value.date.value + MidnightUtc
  {
    assert TimedEvents([ev]) == [];
  }

  /** On an event timed at both ends, with no `date` at the start, both read the same start and end. */
  lemma TimedPoliciesAgree(ev: CalEvent)
    requires ev.start.Some? && !Present(ev.start.value.date) && Present(ev.start.value.dateTime)
    requires ev.end.Some? && Present(ev.end.value.dateTime)
    ensures BusyOf([ev]) == [WorkerBusy(ev.start.value.dateTime, ev.end.value.dateTime)]
    ensures Normalize(ev).Some?
    ensures Some(Normalize(ev).value.start) == ev.start.value.dateTime
    ensures Some(Normalize(ev).value.end) == ev.end.value.dateTime
  {
    assert TimedEvents([ev]) == [ev];
  }
}
