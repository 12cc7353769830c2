/**
 * Saving a booking (pages/api/book.js): the method and field checks, the
 * duration lookup, the end-time arithmetic, then the sheet write and the
 * confirmation e-mail, in that order.
 *
 * The sheet append and the e-mail send are outside the model: whether each
 * succeeds arrives as a parameter. The day a `yyyy-MM-dd` text denotes is
 * supplied by the caller as `parseDay`.
 */
module Book {
  import opened Wrappers
  import opened Text
  import opened Slots
  import opened Sheets
  import opened ServiceMaps

  /** The `client` object of the body; each field may be missing. */
  datatype ClientFields = ClientFields(name: Option<string>, email: Option<string>, phone: Option<string>)

  /** The request: its HTTP method and the body fields the handler reads. */
  datatype BookRequest = BookRequest(
    httpMethod: string,
    serviceId: JsValue,
    date: Option<string>,
    start: Option<string>,
    client: Option<ClientFields>)

  /** The confirmation e-mail: recipient, service name and the start and end shown. */
  datatype Confirmation = Confirmation(to: string, serviceName: string, start: string, end: string)

  /**
   * What the handler does: `Answered` with the status and error (`None` for
   * `{success: true}`), the row it appended and the e-mail it tried to send;
   * `Thrown` when `format` throws on an Invalid Date before any write (an
   * unreadable start, or an end `addMinutes` computed from an inherited
   * member), which the server answers with a 500 of its own.
   */
  datatype BookOutcome =
    | Answered(status: int, error: Option<string>, appended: Option<NewBooking>, mailed: Option<Confirmation>)
    | Thrown

  const MethodNotAllowed: string := "Método no permitido."
  const IncompleteData: string := "Datos incompletos."
  const InvalidService: string := "Servicio no válido."
  const NotSaved: string := "No se pudo guardar la cita."

  /** `!serviceId || !date || !start || !client?.name || !client?.email || !client?.phone` is false. */
  predicate Complete(req: BookRequest)
  {
    Truthy(req.serviceId) && Present(req.date) && Present(req.start) && req.client.Some? &&
    Present(req.client.value.name) && Present(req.client.value.email) && Present(req.client.value.phone)
  }

  /** For a date that is a whole `yyyy-MM-dd` field run, the start exists
      exactly when the date names a day and `ParseHHmm` reads `start`, and is
      that day at that time. */
  lemma StartOfDateFields(date: string, start: string, parseDay: string -> Option<int>)
    requires DateFields(date)
    ensures JoinedInstant(date, start, parseDay).Some? <==> parseDay(date).Some? && ParseHHmm(start).Some?
    ensures JoinedInstant(date, start, parseDay).Some? ==>
      JoinedInstant(date, start, parseDay).value == DayStart(parseDay(date).value) + ParseHHmm(start).value
  {
  }

  /** A date with trailing white space makes the start an Invalid Date. */
  lemma PaddedDateHasNoStart(date: string, ws: string, start: string, parseDay: string -> Option<int>)
    requires DateFields(date) && |ws| > 0 && AllJsWhitespace(ws)
    ensures JoinedInstant(date + ws, start, parseDay).None?
  {
    ParseDateTimeRefusesPaddedDate(date, ws, start, parseDay);
    JoinedInstantIsJoinedParse(date + ws, start, parseDay);
  }

  /** `format(addMinutes(startDateTime, duration), "HH:mm")`. */
  function EndText(startInstant: int, duration: int): (end: string)
    ensures ParseHHmm(end) == Some((startInstant + duration) % MinutesPerDay)
  {
    ParseFormatHHmm(startInstant + duration);
    FormatHHmm(startInstant + duration)
  }

  /** The end read back is the start's minute of the day plus the duration, wrapped at midnight. */
  lemma EndWrapsAtMidnight(day: int, minute: int, duration: int)
    requires 0 <= minute < MinutesPerDay
    ensures ParseHHmm(EndText(DayStart(day) + minute, duration)) == Some((minute + duration) % MinutesPerDay)
  {
    assert DayStart(day) + minute + duration == (minute + duration) + day * MinutesPerDay;
    ShiftByWholeDays(minute + duration, day);
  }

  lemma ShiftByWholeDays(m: int, day: int)
    ensures (m + day * MinutesPerDay) % MinutesPerDay == m % MinutesPerDay
  {
  }

  function Handle(req: BookRequest, parseDay: string -> Option<int>, sheetWritten: bool, mailSent: bool): (r: BookOutcome)
    ensures req.httpMethod != "POST" ==> r == Answered(405, Some(MethodNotAllowed), None, None)
    ensures req.httpMethod == "POST" && !Complete(req) ==> r == Answered(400, Some(IncompleteData), None, None)
    ensures req.httpMethod == "POST" && Complete(req) && DurationByKey(ToJsString(req.serviceId)).Missing? ==>
      r == Answered(400, Some(InvalidService), None, None)
    ensures r == Thrown <==>
      req.httpMethod == "POST" && Complete(req) &&
      (DurationByKey(ToJsString(req.serviceId)).Inherited? ||
       (DurationByKey(ToJsString(req.serviceId)).Own? && JoinedInstant(req.date.value, req.start.value, parseDay).None?))
    ensures r.Answered? && r.status != 200 ==> r.mailed.None?
    ensures r.Answered? && r.appended.Some? ==>
      req.date.Some? && req.start.Some? && DurationByKey(ToJsString(req.serviceId)).Own? &&
      JoinedInstant(req.date.value, req.start.value, parseDay).Some? &&
      r.appended.value.end == EndText(JoinedInstant(req.date.value, req.start.value, parseDay).value,
                                      DurationByKey(ToJsString(req.serviceId)).value)
    ensures r.Answered? && r.status == 200 ==> r.appended.Some? && r.mailed.Some? && r.error.None?
  {
    if req.httpMethod != "POST" then Answered(405, Some(MethodNotAllowed), None, None)
    else if !Complete(req) then Answered(400, Some(IncompleteData), None, None)
    else
      match DurationByKey(ToJsString(req.serviceId))
      case Missing => Answered(400, Some(InvalidService), None, None)
      case Inherited => Thrown
      case Own(duration) =>
        var date, start, client := req.date.value, req.start.value, req.client.value;
        match JoinedInstant(date, start, parseDay)
        case None => Thrown
        case Some(t) =>
          var end := EndText(t, duration);
          var row := NewBooking(req.serviceId, date, start, end, client.name.value, client.phone.value, client.email.value);
          if !sheetWritten then Answered(500, Some(NotSaved), Some(row), None)
          else
            var name := NameByKey(ToJsString(req.serviceId)).value;
            Answered(200, None, Some(row), Some(Confirmation(client.email.value, name, FormatHHmm(t), end)))
  }

  /** A failed sheet write answers 500 and sends no e-mail. */
  lemma SheetFailureSendsNoMail(req: BookRequest, parseDay: string -> Option<int>, mailSent: bool)
    requires req.httpMethod == "POST" && Complete(req)
    requires DurationByKey(ToJsString(req.serviceId)).Own?
    requires JoinedInstant(req.date.value, req.start.value, parseDay).Some?
    ensures var r := Handle(req, parseDay, false, mailSent);
      r.Answered? && r.status == 500 && r.error == Some(NotSaved) && r.mailed.None? && r.appended.Some?
  {
  }

  /** Once the row is written the answer is the same 200 whether or not the e-mail goes out. */
  lemma MailFailureStillSucceeds(req: BookRequest, parseDay: string -> Option<int>)
    requires req.httpMethod == "POST" && Complete(req)
    requires DurationByKey(ToJsString(req.serviceId)).Own?
    requires JoinedInstant(req.date.value, req.start.value, parseDay).Some?
    ensures Handle(req, parseDay, true, false) == Handle(req, parseDay, true, true)
    ensures Handle(req, parseDay, true, false).Answered? && Handle(req, parseDay, true, false).status == 200
  {
  }

  /** A numeric service id is accepted exactly when it is a catalogue id 1..8. */
  lemma NumericIdAcceptedIffCatalogued(n: int)
    ensures DurationByKey(ToJsString(Num(n))).Own? <==> 1 <= n <= 8
    ensures !DurationByKey(ToJsString(Num(n))).Inherited?
  {
    MapKeysAreCatalogueIds(IntToString(n));
    if DurationByKey(IntToString(n)).Own? {
      var m :| 1 <= m <= 8 && IntToString(n) == IntToString(m);
      IntToStringInjective(n, m);
    }
  }

  /** The row an accepted booking appends: the body's fields and the computed end. */
  lemma AcceptedRow(req: BookRequest, parseDay: string -> Option<int>, mailSent: bool)
    requires req.httpMethod == "POST" && Complete(req)
    requires DurationByKey(ToJsString(req.serviceId)).Own?
    requires JoinedInstant(req.date.value, req.start.value, parseDay).Some?
    ensures Handle(req, parseDay, true, mailSent).Answered?
    ensures Handle(req, parseDay, true, mailSent).appended == Some(NewBooking(
      req.serviceId, req.date.value, req.start.value,
      EndText(JoinedInstant(req.date.value, req.start.value, parseDay).value, DurationByKey(ToJsString(req.serviceId)).value),
      req.client.value.name.value, req.client.value.phone.value, req.client.value.email.value))
  {
  }

  /**
   * The row written for an accepted booking carries the body's fields and
   * reads back with the service id `Number` gives it.
   */
  lemma WrittenRowReadsBack(req: BookRequest, parseDay: string -> Option<int>, mailSent: bool, timestamp: string)
    requires req.httpMethod == "POST" && Complete(req)
    requires DurationByKey(ToJsString(req.serviceId)).Own?
    requires JoinedInstant(req.date.value, req.start.value, parseDay).Some?
    ensures var r := Handle(req, parseDay, true, mailSent);
      var rec := DecodeRow(EncodeRow(r.appended.value, timestamp));
      rec.date == req.date && rec.start == req.start &&
      rec.name == req.client.value.name && rec.email == req.client.value.email &&
      rec.phone == req.client.value.phone &&
      rec.serviceId == ParseNumber(ToJsString(req.serviceId)) && rec.end == Some(r.appended.value.end)
  {
    AcceptedRow(req, parseDay, mailSent);
    DecodeEncodeRow(Handle(req, parseDay, true, mailSent).appended.value, timestamp);
  }

  /** Its end is the start's clock time plus the service's duration, wrapped at midnight. */
  lemma WrittenEndWrapsAtMidnight(req: BookRequest, parseDay: string -> Option<int>, mailSent: bool)
    requires req.httpMethod == "POST" && Complete(req)
    requires DurationByKey(ToJsString(req.serviceId)).Own?
    requires JoinedInstant(req.date.value, req.start.value, parseDay).Some?
    ensures var r := Handle(req, parseDay, true, mailSent);
      r.Answered? && r.appended.Some? &&
      ParseHHmm(r.appended.value.end) ==
        Some((JoinedInstant(req.date.value, req.start.value, parseDay).value % MinutesPerDay +
              DurationByKey(ToJsString(req.serviceId)).value) % MinutesPerDay)
  {
    AcceptedRow(req, parseDay, mailSent);
    EndOfInstant(JoinedInstant(req.date.value, req.start.value, parseDay).value, DurationByKey(ToJsString(req.serviceId)).value);
  }

  /** On a plain date that clock time is the body's own start field, read back. */
  lemma WrittenEndOnPlainDate(req: BookRequest, parseDay: string -> Option<int>, mailSent: bool)
    requires req.httpMethod == "POST" && Complete(req)
    requires DurationByKey(ToJsString(req.serviceId)).Own?
    requires JoinedInstant(req.date.value, req.start.value, parseDay).Some? && DateFields(req.date.value)
    ensures ParseHHmm(req.start.value).Some?
    ensures ParseHHmm(Handle(req, parseDay, true, mailSent).appended.value.end) ==
      Some((ParseHHmm(req.start.value).value + DurationByKey(ToJsString(req.serviceId)).value) % MinutesPerDay)
  {
    WrittenEndWrapsAtMidnight(req, parseDay, mailSent);
    MinuteOfPlainStart(req.date.value, req.start.value, parseDay);
  }

  /** On a plain date, the start's minute of the day is the clock time `ParseHHmm` reads. */
  lemma MinuteOfPlainStart(date: string, start: string, parseDay: string -> Option<int>)
    requires DateFields(date) && JoinedInstant(date, start, parseDay).Some?
    ensures ParseHHmm(start).Some?
    ensures JoinedInstant(date, start, parseDay).value % MinutesPerDay == ParseHHmm(start).value
  {
    StartOfPlainDate(date, start, parseDay);
    MinuteOfStart(parseDay(date).value, ParseHHmm(start).value);
  }

  /** On a plain date, a readable start is the read minute of the read day. */
  lemma StartOfPlainDate(date: string, start: string, parseDay: string -> Option<int>)
    requires DateFields(date) && JoinedInstant(date, start, parseDay).Some?
    ensures parseDay(date).Some? && ParseHHmm(start).Some? && 0 <= ParseHHmm(start).value < MinutesPerDay
    ensures JoinedInstant(date, start, parseDay).value == DayStart(parseDay(date).value) + ParseHHmm(start).value
  {
  }

  /** The end read back is the start's minute of the day plus the duration, wrapped at midnight. */
  lemma EndOfInstant(t: int, duration: int)
    ensures ParseHHmm(EndText(t, duration)) == Some((t % MinutesPerDay + duration) % MinutesPerDay)
  {
    ModOfSum(t, duration);
  }

  lemma ModOfSum(t: int, d: int)
    ensures (t + d) % MinutesPerDay == (t % MinutesPerDay + d) % MinutesPerDay
  {
    var q, r := t / MinutesPerDay, t % MinutesPerDay;
    assert t + d == (r + d) + q * MinutesPerDay;
    ShiftByWholeDays(r + d, q);
  }

  lemma MinuteOfStart(day: int, minute: int)
    requires 0 <= minute < MinutesPerDay
    ensures (DayStart(day) + minute) % MinutesPerDay == minute
  {
  }
}
