# Vanessa Nails Studio booking engine, modelled in Dafny

Vanessa Nails Studio's web app lets a client pick a service from a fixed
catalogue of eight nail services, then a day and a free half-hour start,
and then book it. Busy time comes from a public Google Calendar. Bookings
are rows of a Google Sheet. This project models the booking engine:

- the catalogue and its duration and name maps;
- the slot generator `generateTimeSlots` and its end rules (strict, or
  overflow past closing);
- the booking page's decision to extend a normal day to 21:00, and the
  times it shows;
- the calendar read and its normalisation of events into busy ranges;
- the hourly availability endpoint with its all-day filter and error hint;
- the legacy sheet-based slots endpoint;
- the booking endpoint: field checks, end-time arithmetic, sheet row,
  e-mail;
- the sheet row encoding and decoding;
- the orphan-cleanup endpoint;
- the edge worker's routing, slot and configuration handlers;
- the business-day rule;
- the client form's validation, the e-mail autocomplete hook, and the
  time-slot grid's opening-hours test.

Instants are whole minutes on one local timeline: day `d` starts at minute
`d * 1440`, and the `HH:mm` of an instant `t` is `t % 1440`. Conversions
the code delegates to date libraries become parameters, for example:

- `parseDay` is the day a `yyyy-MM-dd` text denotes;
- `localMinute` is the local instant of a calendar `dateTime`;
- `instant` is `new Date(text)`.

JavaScript's `Number`, truthiness and `String` on the values involved are
modelled in `Text`. `Number` is modelled on integer texts; `None` stands
for `NaN`. Looking a key up in an object literal (`map[serviceId]`) has
three outcomes (`Text.Property`): an own value, a member inherited from
`Object.prototype` for keys such as `constructor` or `toString` (a truthy
function), or `undefined`. date-fns' `HH:mm` parsing accepts one- or
two-digit fields and trailing white space (`Text.ParseHHmm`); a date and a
time joined by a space are read as one text (`Text.ParseDateTime`, through
`Text.JoinedInstant`), so a date
with trailing white space makes the joined text unreadable. A `Date` holds
instants up to 8.64e15 ms from the epoch (`Text.InDateRange`); past that it
is an Invalid Date, whose `toISOString` throws.

One file per source unit, one module each:

- `wrappers.dfy`: `Option` and `Result`.
- `text.dfy`: digits, `Number`, `String`, `includes`, `HH:mm` formatting and
  parsing, and the joined `yyyy-MM-dd HH:mm` reading.
- `slots.dfy`: lib/slots.js.
- `services.dfy`: lib/services.js and the sorted list the flow shows.
- `calendar_config.dfy`: lib/calendarConfig.js.
- `google_calendar.dfy`: lib/google-calendar.js.
- `availability.dfy`: pages/api/availability.js.
- `sheets.dfy`: lib/sheets.js.
- `service_maps.dfy`: the duration and name maps of pages/api/book.js and
  pages/api/slots.js.
- `legacy_slots.dfy`: pages/api/slots.js.
- `book.dfy`: pages/api/book.js.
- `cleanup.dfy`: pages/api/cleanup.js.
- `worker.dfy`: api-worker/src/index.ts.
- `booking_flow.dfy`: components/BookingFlow.js.
- `booking_form.dfy`: components/BookingForm.js.
- `client_autocomplete.dfy`: lib/useClientAutocomplete.js.
- `time_slot_grid.dfy`: components/components/TimeSlotGrid.js.

Where the code and the documentation disagree, the model follows the code:

- lib/calendarConfig.js documents Saturday and Sunday switches and a list
  of enabled Sunday ordinals. The function instead closes a day when its
  code (`SUN<n>`/`SAT<n>`, with `n = ceil(dayOfMonth / 7)`) appears in a
  list of disabled codes. The model follows the function. As written,
  a weekday's code is `""`, so a list containing `""` closes every weekday.
- pages/index.js configures the normal page with `closeHour: 21` and
  overflow already on. The "extend to 21:00" branch of `fetchSlots`
  therefore changes nothing on that page
  (`BookingFlow.NormalPageExtensionIsNoOp`).

## Model

| member | source | states |
|---|---|---|
| Slots.GenerateTimeSlots | lib/slots.js:10-69 | every slot ends `duration` after its start and starts at or after opening; under the strict rule it ends by closing, under the overflow rule it starts before closing; with no busy ranges every slot is free; a duration longer than the window gives no slots; on the current day only slots after now remain; on another day the list is exactly the loop's proposals |
| Slots.AnyOverlap | lib/slots.js:48-49 | a slot conflicts exactly when some busy range overlaps it half-open (`start < b.end && end > b.start`) |
| Slots.Candidates | lib/slots.js:39-44 | the loop proposes starts from the cursor one step apart, each passing the guard, and stops at the first start that fails it |
| Slots.ProposalMembers | lib/slots.js:44-58 | each pushed slot passes the guard and is marked available exactly when no busy range overlaps it; a failing first guard pushes nothing |
| Slots.StartingAfter | lib/slots.js:65-68 | the same-day filter keeps exactly the slots that start after now, never adding any |
| Slots.StartingAfterIsSuffix | lib/slots.js:65-68 | on the increasing list the filter keeps a suffix, so it drops only the earliest slots |
| Slots.ProposalsWalkFromOpen | lib/slots.js:35-58 | the proposals start at the opening minute and walk forward by exactly the step |
| Slots.GeneratedSlotsStepped | lib/slots.js:35-69 | the returned slots are increasing and one step apart, and off the current day the first is at opening |
| Slots.GeneratedStartsExactly | lib/slots.js:39-69 | a minute is a returned start exactly when it lies on the step grid from opening, passes the end rule, and (on the current day) is after now |
| Slots.LastGeneratedSlotClosesGrid | lib/slots.js:39-58 | one step past the last returned slot fails the end rule |
| Services.CatalogueWellFormed | lib/services.js:8-17 | eight services with ids 1..8 in order, hence unique, each lasting a positive multiple of 30 minutes |
| Services.Find | lib/services.js:8-17 | `find` by id returns a service from the list carrying that id exactly when one exists |
| Services.FindReturnsFirst | lib/services.js:8-17 | `find` returns the first service with the id |
| Services.Lookup | lib/services.js:8-17 | a catalogue entry exists exactly for the ids 1..8 and is the entry in that position |
| Services.SortByDurationSortsAndPermutes | components/BookingFlow.js:13 | the sort by `a.duration - b.duration` yields the same services in non-decreasing duration |
| Services.SortedCatalogueOrder | components/BookingFlow.js:13 | the list the flow shows is 8, 1, 6, 7, 2, 3, 4, 5: equal durations keep catalogue order |
| CalendarConfig.WindowsAbut | lib/calendarConfig.js:8-9 | the normal window 10-18 closes where the extra window 18-20 opens, both in half-hour steps |
| CalendarConfig.WeekNumberIsOrdinal | lib/calendarConfig.js:19 | `ceil(day / 7)` is the 1..5 ordinal of the weekday within its month |
| CalendarConfig.DayCodeShape | lib/calendarConfig.js:18-25 | Sundays get `SUN<n>`, Saturdays `SAT<n>`, weekdays the empty code |
| CalendarConfig.SundayCodeNamesItsWeek | lib/calendarConfig.js:21-22 | a Sunday's code names exactly its own week of the month |
| CalendarConfig.SecondSundayDisabled | lib/calendarConfig.js:17-27 | disabling `SUN2` closes exactly the Sundays on the 8th to the 14th |
| CalendarConfig.WeekdaysAllowedUnlessEmptyCodeListed | lib/calendarConfig.js:20-26 | a weekday is closed only when the list contains the empty code |
| CalendarConfig.MoreDisabledCodesAllowFewerDays | lib/calendarConfig.js:26 | adding codes to the list never reopens a day |
| GoogleCalendar.ResolveTime | lib/google-calendar.js:60-61 | a time resolves to its `dateTime` if truthy, else to its `date` at midnight UTC, else to nothing |
| GoogleCalendar.Normalize | lib/google-calendar.js:59-63 | an event becomes a busy entry exactly when both its start and end resolve, and its summary defaults to `""` |
| GoogleCalendar.NormalizeEventsMembers | lib/google-calendar.js:58-64 | an entry is in the busy list exactly when some event normalises to it |
| GoogleCalendar.NormalizeEventsKeepsResolvable | lib/google-calendar.js:58-64 | when every event resolves, each event gives one entry, in order |
| GoogleCalendar.StatusMessage | lib/google-calendar.js:47-49 | the error for a failed response starts with `Google Calendar <status>` |
| GoogleCalendar.ListPublicEvents | lib/google-calendar.js:11-67 | missing key or calendar id fails before any request; a non-2xx status fails with its status message; otherwise the result is the normalised items, and an unparsable body or absent `items` gives no busy entries |
| GoogleCalendar.MissingConfigIgnoresResponse | lib/google-calendar.js:15-17 | with configuration missing, the response has no bearing on the outcome |
| Availability.FilterBusyAllDay | pages/api/availability.js:16-26 | an entry is kept exactly when it is not all-day or its lower-cased summary mentions a closure keyword |
| Availability.FilterBusyAllDayIsSubsequence | pages/api/availability.js:16-26 | the filter keeps entries in their original order |
| Availability.FilterAfterNormalizeKeepsAll | pages/api/availability.js:95-98 | no entry the calendar reader produces is all-day, since it rewrites an all-day `date` as a midnight instant; so on its output the filter keeps every entry, all-day events included |
| Availability.HourlySlots | pages/api/availability.js:29-55 | every hourly slot starts on the hour between open and close on a day of the range, lasts `slotMinutes`, and is free exactly when it hits no busy range; there is at least one slot exactly when both loops run |
| Availability.HourlySlotsExactly | pages/api/availability.js:34-52 | a minute starts a slot exactly when it is `h:00` of a day in the range with `openHour <= h < closeHour` |
| Availability.GenerateTimeSlots | pages/api/availability.js:29-55 | generation throws "Invalid time value" exactly when the loops run and the slot length is an inherited member or some slot's start or end lies past the range of a `Date`; otherwise it gives the hourly slots, all printable |
| Availability.PrintableIffCornersInRange | pages/api/availability.js:34-49 | every slot is printable exactly when the first slot of the first day and the last slot of the last day start and end inside the range of a `Date` |
| Availability.OverlongSlotFails | pages/api/availability.js:36-49 | a slot length longer than a `Date` can span makes generation throw on any running window |
| Availability.DaysFromCount | pages/api/availability.js:34-35 | the generator yields one slot per day and hour |
| Availability.AvailableStarts | pages/api/availability.js:106 | the `times` list holds exactly the starts of free slots |
| Availability.AvailableStartsAppend | pages/api/availability.js:106 | the free starts of two slot lists joined are the free starts of each, joined: the slots' order is kept |
| Availability.AvailableStartsPrefix | pages/api/availability.js:106 | cutting the slot list anywhere cuts the free starts at the matching place |
| Availability.ServiceDuration | pages/api/availability.js:13 | only services 1, 2, 3 and 8 have a duration (60, 90, 120, 60); the names of `Object.prototype` find an inherited member; every other key finds nothing |
| Availability.SlotMinutes | pages/api/availability.js:88-92 | a non-zero numeric `duration` wins; otherwise the service's duration; an inherited name gives the inherited member (not a number); otherwise 60 |
| Availability.Hint | pages/api/availability.js:127-131 | a message containing 403 gets the key hint, else one containing 404 gets the calendar-id hint, else the generic hint |
| Availability.ForbiddenGivesKeyHint | pages/api/availability.js:127-131 | a 403 calendar failure always gets the key hint |
| Availability.HourParam | pages/api/availability.js:71-72 | a missing or empty hour parameter falls back to the default; otherwise it is read as a number |
| Availability.ResolveRange | pages/api/availability.js:78-85 | `date` fixes both ends of the range; otherwise `from`/`to` default to today and a week later |
| Availability.Handle | pages/api/availability.js:57-137 | a calendar failure answers 500 with its message and that message's hint; when the loops run, an inherited slot length or a slot past the range of a `Date` answers 500 "Invalid time value" with the generic hint, and nothing else does; otherwise 200 with the range, the hours as read, the slot length, the filtered busy list, the hourly slots over the filtered busy ranges (none for an inherited length), all printable, and their free starts |
| Availability.InvalidTimeValueHint | pages/api/availability.js:127-131 | the message of an Invalid Date's `toISOString` gets the generic hint |
| Availability.ServedTimesAreFreeHours | pages/api/availability.js:29-113 | a served `times` list holds exactly the `h:00` instants of the window's days and hours whose slot of the resolved length meets no kept busy range |
| Sheets.EncodeRow | lib/sheets.js:46-58 | the appended row has the eight columns service, date, start, end, name, phone, email, timestamp |
| Sheets.DecodeRow | lib/sheets.js:30-39 | each record field is the cell of its column, `undefined` past the end, and the service id is `Number(row[0])` |
| Sheets.DecodeRows | lib/sheets.js:29-39 | no `values` gives no records; otherwise one record per row, in order |
| Sheets.DecodeEncodeRow | lib/sheets.js:29-58 | reading back an appended row recovers every field of the booking and the timestamp |
| Sheets.EncodeDecodeRow | lib/sheets.js:29-58 | re-encoding a decoded eight-cell row with a numeric first cell gives the row back |
| ServiceMaps.DurationByKey | pages/api/book.js:28-38 | durations exist exactly for the keys "1".."8" and are positive; the names of `Object.prototype` find an inherited member; every other key finds nothing |
| ServiceMaps.NameByKey | pages/api/book.js:65-75 | names exist exactly for the keys "1".."8" and are non-empty; inherited names find an inherited member |
| ServiceMaps.MapKeysAreCatalogueIds | pages/api/slots.js:23-33 | the own keys are exactly the spellings of the ids 1..8, and both maps find something for the same keys |
| ServiceMaps.MapsMatchCatalogue | pages/api/book.js:28-37 | for each catalogue id, the endpoint maps give the catalogue's duration and name |
| LegacySlots.HalfHourStartsExactly | pages/api/slots.js:57-66 | the loop emits exactly the half-hour offsets of opening that fall before closing |
| LegacySlots.CandidatesOfDay | pages/api/slots.js:53-66 | on any day the candidates are the 22 starts 09:00 to 19:30 |
| LegacySlots.ThreeClauseIsHalfOpen | pages/api/slots.js:80-83 | for non-empty ranges the three-clause test is the half-open overlap test |
| LegacySlots.AddedMinutes | pages/api/slots.js:70 | `addMinutes` gives a valid end exactly for an own duration, and then adds that duration |
| LegacySlots.InvalidEndChecksStartOnly | pages/api/slots.js:69-86 | with an Invalid Date end (an inherited service key), a start is free exactly when no readable booking has begun by it and not yet ended |
| LegacySlots.BookingInstant | pages/api/slots.js:76-77 | a booking time is read from the date and the time joined by a space; for a date made only of date fields it is read exactly when the date names a day and `ParseHHmm` accepts the time, at that minute of that day |
| LegacySlots.OneDigitBookingTimeIsRead | pages/api/slots.js:76-77 | a booking on a plain date kept as "9:30"-"11:30" is read as 09:30 to 11:30 of its day |
| LegacySlots.PaddedDateBookingIgnored | pages/api/slots.js:47-84 | a booking whose date carries trailing white space has no readable start or end, so it overlaps no slot, although the day filter may keep it |
| LegacySlots.FreeStarts | pages/api/slots.js:69-90 | a start is listed exactly when it is a candidate that ends by closing and meets no booking of the day |
| LegacySlots.FreeStartsIncreasing | pages/api/slots.js:90 | the listed starts stay in ascending order |
| LegacySlots.DayBookings | pages/api/slots.js:46-50 | exactly the bookings whose date parses to the requested day are kept |
| LegacySlots.Handle | pages/api/slots.js:16-93 | a missing `date` or `serviceId` answers 400; a key the map finds nothing for answers 400; otherwise, inherited names included, a failed `getAllBookings` is an uncaught throw and a successful one lists the free times, none for an unreadable date |
| LegacySlots.HandleListsFreeStarts | pages/api/slots.js:46-92 | after a successful read, a time is listed exactly when it is the `HH:mm` of a free candidate start of the day, each booking read from its date and time joined; the listed starts ascend |
| LegacySlots.ListedTimesReadBack | pages/api/slots.js:90 | every listed `HH:mm` reads back as its start's minute of the day, from 09:00 and before 20:00, and with an own duration the service ends by 20:00 |
| LegacySlots.OtherDaysIgnored | pages/api/slots.js:47-50 | bookings on other days do not change the listed times |
| Book.StartOfDateFields | pages/api/book.js:44 | the start is read from the date and the start joined by a space; for a date made only of date fields it exists exactly when the date names a day and `ParseHHmm` accepts the start, and is that minute of that day |
| Book.PaddedDateHasNoStart | pages/api/book.js:44 | a date with trailing white space gives no start, so the handler throws |
| Book.EndText | pages/api/book.js:45-46 | the end text reads back as the start plus the duration, wrapped at midnight |
| Book.EndWrapsAtMidnight | pages/api/book.js:44-46 | the end depends only on the start's minute of the day and the duration, modulo a day |
| Book.Handle | pages/api/book.js:17-103 | non-POST answers 405; a missing field answers 400; a key the map finds nothing for answers 400; the handler throws exactly for an inherited key or an unreadable start; no mail goes out unless the answer is 200; an appended row's end is the computed end; a 200 always has both a row and a mail |
| Book.SheetFailureSendsNoMail | pages/api/book.js:49-62 | a failed sheet write answers 500 and sends no e-mail |
| Book.MailFailureStillSucceeds | pages/api/book.js:95-102 | once the row is written, the answer is the same 200 whether or not the mail goes out |
| Book.NumericIdAcceptedIffCatalogued | pages/api/book.js:38-41 | a numeric service id is accepted exactly when it is 1..8, and never finds an inherited member |
| Book.AcceptedRow | pages/api/book.js:49-58 | an accepted booking appends the body's service, date, start, name, phone and email with the computed end |
| Book.WrittenRowReadsBack | pages/api/book.js:49-58 | the appended row, read back through `getAllBookings`, gives back the booking's fields |
| Book.WrittenEndWrapsAtMidnight | pages/api/book.js:43-46 | the stored end is the start instant's clock time plus the service's duration, modulo 24 hours |
| Book.WrittenEndOnPlainDate | pages/api/book.js:43-46 | on a plain date that clock time is the start text as `ParseHHmm` reads it, so the stored end is the start field plus the duration, modulo 24 hours |
| Cleanup.AuthorizedIffBearer | pages/api/cleanup.js:13-17 | a request passes the key check exactly when no key is set or the header is `Bearer <key>` |
| Cleanup.Guard | pages/api/cleanup.js:8-17 | non-POST answers 405; a failed key check answers 401; otherwise the handler proceeds |
| Cleanup.ValidIffNumericId | pages/api/cleanup.js:27-29 | a row is valid exactly when its first cell is present, non-empty and numeric (headers "ID"/"id" are not) |
| Cleanup.GroupByDatePartitions | pages/api/cleanup.js:34-41 | grouping throws "bookingsByDate[date].push is not a function" exactly when some row's date names an inherited member; otherwise it gives one group per distinct date, holding exactly that date's rows in order |
| Cleanup.EachRowInOneGroup | pages/api/cleanup.js:34-41 | in a grouping that did not throw, each valid row is in the group of its own date and in no other |
| Cleanup.CalendarSlots | pages/api/cleanup.js:56-63 | the set holds exactly the `HH:mm` of the starts of events that have a `dateTime` |
| Cleanup.OrphansExactly | pages/api/cleanup.js:67-83 | when a report is made, an orphan is reported exactly for a valid row whose start is not among its date's calendar starts, with that row's id, date, start, name and position |
| Cleanup.Analyse | pages/api/cleanup.js:34-119 | the analysis fails with the `push` TypeError exactly when a valid row's date names an inherited member; otherwise it reports, and the cleaned count is the orphan count when cleanup is requested, else 0 |
| Cleanup.HandleRows | pages/api/cleanup.js:6-122 | the guard's refusal, a read failure as 500, or the analysis of the rows (itself a 500 for an inherited date) |
| Cleanup.HandleRecords | pages/api/cleanup.js:23-29 | the handler fed the records `getAllBookings` returns, refusing and failing like `HandleRows` |
| Cleanup.AsWrittenFindsNoOrphans | pages/api/cleanup.js:27-29 | as written, no record passes the validity filter, so the report is always empty |
| Cleanup.AsWrittenMissesOrphan | pages/api/cleanup.js:27-83 | a 10:00 booking on a date without events is an orphan as a raw row but is missed through `getAllBookings` |
| Cleanup.InheritedDateFails | pages/api/cleanup.js:35-41 | one valid row dated "constructor" makes the run answer 500 with the `push` TypeError |
| Worker.RouteOf | api-worker/src/index.ts:33-40 | `/api/slots` and `/api/gs-check` are routed to their handlers; any other path is not |
| Worker.Fetch | api-worker/src/index.ts:29-41 | the two paths reach their handlers and every other path answers 404 |
| Worker.TimedEvents | api-worker/src/index.ts:106 | exactly the events without an all-day start date are kept |
| Worker.BusyOf | api-worker/src/index.ts:105-110 | one busy entry per kept event, in order, with its start and end `dateTime` or null |
| Worker.AllDayEventDropped | api-worker/src/index.ts:105-110 | an all-day event contributes nothing to the busy list |
| Worker.HandleSlots | api-worker/src/index.ts:79-116 | no date answers 400; missing configuration answers 500; an invalid date answers 500; a failed or unparsable response passes its status on, with the Google error message when the body carries one and the default message otherwise; otherwise 200 with the busy list |
| Worker.HandleConfig | api-worker/src/index.ts:45-75 | only `action=getConfig` with a configured script URL reaches the relay; no URL answers 500, any other action 400 |
| Worker.AllDayPoliciesDiffer | api-worker/src/index.ts:105-110 | the worker drops an all-day event that lib/google-calendar.js keeps as a midnight-UTC busy range |
| Worker.TimedPoliciesAgree | api-worker/src/index.ts:105-110 | on an event timed at both ends, the worker and the library read the same start and end |
| BookingFlow.HasExtraCupos | components/BookingFlow.js:92-93 | the day has extra bookings exactly when some busy range starts at 18:00 or later |
| BookingFlow.EffectiveWindow | components/BookingFlow.js:86-119 | the extra page, or a day with extra bookings, keeps the configured window; otherwise the window extends to 21:00 with overflow exactly when the last strict tentative slot is taken |
| BookingFlow.ExtensionMeansLastStrictSlotTaken | components/BookingFlow.js:97-118 | an extension happens only when the last strict slot exists and is overlapped by a busy range |
| BookingFlow.AvailableSlots | components/BookingFlow.js:132-133 | exactly the available slots are kept, in order |
| BookingFlow.Times | components/BookingFlow.js:134 | each shown time reads back as its slot's minute of the day |
| BookingFlow.FindByKeyInPermutation | components/BookingFlow.js:13-75 | on the sorted list, `find` by `String(id)` finds the catalogue entry exactly for the keys "1".."8" |
| BookingFlow.FlowService | components/BookingFlow.js:74-75 | the selected service is found exactly when `String(serviceId)` spells a catalogue id, and is that entry |
| BookingFlow.ShownTimes | components/BookingFlow.js:122-134 | the times shown are the `HH:mm` of the free slots of the final generation with the effective window |
| BookingFlow.FetchSlots | components/BookingFlow.js:69-143 | an unknown service shows `Servicio no encontrado.`; a failed read shows an error and no times; otherwise no error and the shown times |
| BookingFlow.ShownTimesInOrder | components/BookingFlow.js:122-134 | the shown slots walk the day in increasing order |
| BookingFlow.NormalPageExtensionIsNoOp | components/BookingFlow.js:90-119 | on the normal page (already 21:00 with overflow) the window never changes |
| BookingFlow.Apply | components/BookingFlow.js:152-205 | choosing a service resets date and time and goes to step 2; a date resets the time and goes to step 3; a time goes to step 4; a step button moves to its step and keeps every choice; the reset after a booking returns to the initial state |
| BookingFlow.RunKeepsConsistent | components/BookingFlow.js:152-488 | along any sequence of clicks on what the page offers, the step stays between 1 and 4, a catalogue service is chosen from step 2 on, a date from step 3 on and a time on step 4 |
| BookingFlow.ClickKeepsConsistent | components/BookingFlow.js:243-488 | an offered click keeps the flow consistent and moves to its target step; any other leaves the state unchanged |
| BookingFlow.RunSnoc | components/BookingFlow.js:152-168 | a run followed by one more click is the run of the longer sequence |
| BookingFlow.ConsistentServiceIsFound | components/BookingFlow.js:74-75 | from step 2 on, the selected service is found in the sorted list, as the catalogue entry of its id |
| BookingFlow.BackThenContinue | components/BookingFlow.js:366-488 | "back" from the form then "continue" returns to the same state, and going back to the dates keeps the chosen date |
| BookingForm.IsValidEmailMatchesPattern | components/BookingForm.js:16-17 | the form's e-mail scan accepts exactly the strings matching `^[^\s@]+@[^\s@]+\.[^\s@]+$` |
| Text.FirstIndex | components/BookingForm.js:16 | finds the first occurrence of a character, or reports that there is none |
| BookingForm.Initial | components/BookingForm.js:4-7 | each field starts from `initialData` or `""`, with no error |
| BookingForm.Submit | components/BookingForm.js:9-23 | an empty field shows "Todos los campos son obligatorios."; a bad e-mail shows "Ingresa un email válido."; the fields are handed on, with the error cleared, exactly when all are filled and the e-mail matches |
| BookingForm.ErrorClearedIffSubmitted | components/BookingForm.js:11-22 | the error is empty exactly when the fields were handed on |
| BookingForm.ValidEmailShape | components/BookingForm.js:16 | an accepted e-mail has exactly one `@`, with something before it, and no white space |
| ClientAutocomplete.Merge | lib/useClientAutocomplete.js:19-23 | a truthy name or phone from the lookup replaces the field; everything else is kept |
| ClientAutocomplete.OnEmailBlur | lib/useClientAutocomplete.js:8-28 | a lookup happens exactly when the address holds `@`; otherwise nothing changes; after a lookup `isFetching` is cleared, a found client is merged, and a throw or empty answer keeps the info |
| ClientAutocomplete.LooksUpIffHasAt | lib/useClientAutocomplete.js:10 | `!email \|\| !email.includes('@')` is false exactly when the address holds `@` |
| ClientAutocomplete.BlurTwiceIsBlurOnce | lib/useClientAutocomplete.js:18-24 | a second blur with the same answer changes nothing more |
| TimeSlotGrid.JoinSplit | components/components/TimeSlotGrid.js:25 | joining the pieces of `split(":")` gives the text back |
| TimeSlotGrid.HourMinuteOfClock | components/components/TimeSlotGrid.js:25 | every text `ParseHHmm` accepts, one-digit fields and trailing white space included, splits into its hour and minute |
| TimeSlotGrid.SlotWith | components/components/TimeSlotGrid.js:24-32 | each button's end is its start plus the duration, and an unparsable time gives no start and no end |
| TimeSlotGrid.GridAsWritten | components/components/TimeSlotGrid.js:24-33 | one button per offered time, enabled by the hour-only test as written |
| TimeSlotGrid.Grid | components/components/TimeSlotGrid.js:24-33 | one button per offered time, enabled by the intended test that the service ends by 20:00 |
| TimeSlotGrid.GridEnabledIffInsideOpeningHours | components/components/TimeSlotGrid.js:29-44 | with the intended test a button is enabled exactly when it starts at 09:00 or later and ends by 20:00 |
| TimeSlotGrid.TestsAgreeOnTheHour | components/components/TimeSlotGrid.js:30-31 | for starts on the hour, the written test and the intended test agree |
| TimeSlotGrid.AsWrittenEnablesLateStart | components/components/TimeSlotGrid.js:30-31 | as written, 18:30 is enabled for a two-hour service that ends at 20:30 |
| TimeSlotGrid.IntendedDisablesLateStart | components/components/TimeSlotGrid.js:29-31 | the intended test disables that button |
| Text.ParseNumberOfIntToString | lib/sheets.js:31-49 | `Number(String(n))` is `n` for every integer |
| Text.ParseFormatHHmm | pages/api/book.js:46 | a formatted `HH:mm` reads back as the instant's minute of the day |
| Text.FormatParseHHmm | pages/api/book.js:44 | formatting a parsed text gives it back exactly when it is in the two-digit `HH:mm` form |
| Text.ParseHHmmSpec | pages/api/book.js:44 | the parser accepts exactly one or two hour digits, a colon, one or two minute digits and trailing white space, hour below 24 and minute below 60, and reads that hour and minute |
| Text.ParseHHmmOfParts | pages/api/book.js:44 | every text of that shape is read as its hour and minute |
| Text.PartsOfParseHHmm | pages/api/book.js:44 | every accepted text has that shape |
| Text.ParseHHmmOneDigitHour | pages/api/book.js:44 | "9:30" is read as 09:30 |
| Text.ParseHHmmOneDigitMinute | pages/api/book.js:44 | "09:5" is read as 09:05 |
| Text.ParseHHmmTrailingSpace | pages/api/book.js:44 | "09:30 " is read as 09:30 |
| Text.ParseHHmmRefusesHour | pages/api/book.js:44 | "24:00" and "123:00" are refused |
| Text.ParseHHmmRefusesTail | pages/api/book.js:44 | "09:305" and "09:30h" are refused |
| Text.ParseHHmmRefusesLeadingSpace | pages/api/book.js:44 | " 09:30" is refused |
| Text.ParseNumberOfDigitsThenSpace | components/components/TimeSlotGrid.js:25 | `Number` of digits followed by white space is the digits' value |
| Text.ContainsSpec | pages/api/availability.js:24 | `includes` holds exactly when the substring occurs at some position |
| Text.ParseDateTimeSound | pages/api/book.js:44 | a text is read exactly when the part before its first space is a whole date field run naming a day and the rest is a clock time; the instant is then that day at that minute |
| Text.JoinedInstantIsJoinedParse | pages/api/slots.js:76-77 | reading a plain date and a time field by field agrees, on every input, with parsing the text they make joined by a space |
| Text.ParseDateTimeOfJoin | pages/api/slots.js:76-77 | a date of date fields joined to a time by a space reads as that minute of that day exactly when both parts are readable |
| Text.ParseDateTimeRefusesPaddedDate | pages/api/slots.js:76-77 | a date followed by white space, joined to any time, is an Invalid Date |
| Text.PaddedDateExample | pages/api/book.js:44 | "2024-05-01  10:00" (two spaces) is an Invalid Date |

## Left out

- Time zones and daylight saving: every conversion between text and instants goes through `parseDay`, `localMinute` and `instant` parameters, or is local minute arithmetic. The instants `toISOString` prints and luxon's zone handling are not modelled.
- Network and storage: `fetch`, the Google Calendar request, the Sheets API client and its credentials (lib/sheets.js:10-18), and the e-mail transport (`sendEmail`). Their outcomes are parameters: `res`/`parsed`, `reply`, `relayed`, `sheetWritten`, `mailSent`, `fetched`, `lookup`.
- `getCalendarEvents`, imported by pages/api/cleanup.js, is not defined in lib/google-calendar.js and is not part of this model; the events of a date are the parameter `eventsOn`.
- The clock: "now", today and a week later are parameters.
- React rendering, confetti, window size, and the `nextDays` list of BookingFlow.js.
- The reading of the disabled-day codes (components/BookingFlow.js:53-67) is a request to the worker. Its result is the `disabled` list `CalendarConfig.IsAllowedBusinessDay` takes.
- `handleClientInfoChange` (components/BookingFlow.js:170-172) is a plain field update.
- `handleSubmitBooking` (components/BookingFlow.js:174-211) only posts the choices to pages/api/book.js, which is modelled as `Book.Handle`, and resets the flow after a success.
- Worker.HandleConfig: the relay to the Apps Script (api-worker/src/index.ts:54-71) is one parameter `relayed`; its 502 and error-forwarding branches are not modelled.
- Worker.HandleSlots: the catch-all 500 for a throw inside the request (api-worker/src/index.ts:113-115) other than "Fecha inválida" is not modelled.
- Book.Handle: `format` throws on an Invalid Date, which happens for a start `ParseHHmm` refuses and for a service key that finds an inherited member (`addMinutes` of a function is an Invalid Date). The model returns `Thrown`; the server's own 500 for an uncaught error is not modelled further.
- Text.ParseDateTime: the date part is named by `parseDay`, the same reading `parse(date, "yyyy-MM-dd")` gives; the calendar rules behind it (month lengths, the year field) are that parameter's.
- The `debug` fields `slots_count`, `available_count` and `sample` (pages/api/availability.js:115-119) are not in `AvailabilityPayload`; they are the lengths of `slots` and `times` and the first eight `times`.
- Cleanup.HandleRows: the deletion loop only counts (the delete call is commented out in the source), so `cleanedCount` is the orphan count. `row` is the 0-based index of the row plus one, which is what `indexOf` gives on distinct rows.
- BookingFlow.Offered: every day button counts as offered on step 2; which days are disabled (past days and `CalendarConfig.IsAllowedBusinessDay`) is not part of the click model.
- BookingFlow.RunKeepsConsistent: it no longer states that a back step clears later choices, because the `setStep` buttons (components/BookingFlow.js:318, 366, 374, 488) keep them; it states what the page relies on instead.
- Cleanup.OrphansExactly: `Object.entries` orders integer-like keys first. Groups here are in first-appearance order, so only the membership of the report is stated, not its order.
- Slots.GenerateTimeSlots: `stepMinutes` must be positive (the callers pass 30); a zero step never ends the loop in the source.
- Availability.GenerateTimeSlots: the range of a `Date` (8.64e15 ms from the epoch) is checked on local minutes, not on UTC, so the zone offset at the very edge of the range is not modelled; the memory and time a huge window takes are not modelled either.
- Availability.HourlySlots: the hour loop runs over whole-number hours; a non-integer `openHour` from the query is not modelled (`Number` is modelled on integers only).
- Text.ParseNumber: decimal, hexadecimal and exponent forms of `Number` are not modelled.
- Query parameters given several times (arrays in Next.js) are not modelled.
- The concurrency between two clients booking the same slot is not modelled; nothing in the source guards against it.
- Reminders, the service worker, push subscriptions and the other pages and helpers are outside the booking engine.

## Findings

| source | as written | input that shows it | evidently intended | confidence | as-written member | corrected member |
|---|---|---|---|---|---|---|
| pages/api/cleanup.js:27-29, 36, 69-70 | rows from `getAllBookings` are objects with named fields, but the handler reads `row[0]`, `booking[1]` and `booking[2]`, all `undefined`, so no row is ever valid | one sheet row `["1", "2024-05-01", "10:00"]` and no calendar events that day: no orphan is reported | read the raw rows (or `serviceId`, `date`, `start`), so that this booking is reported as an orphan | high; not executed | Cleanup.HandleRecords, Cleanup.AsWrittenFindsNoOrphans, Cleanup.AsWrittenMissesOrphan | Cleanup.HandleRows, Cleanup.OrphansExactly |
| components/components/TimeSlotGrid.js:30-31 | the hours test uses only the hour and rounds the duration up to whole hours | "18:30" with a 120-minute service: `18 + 2 <= 20`, so the button is enabled, yet the service ends at 20:30 | the service ends by closing, as the code's own comment says | high; not executed | TimeSlotGrid.GridAsWritten, TimeSlotGrid.AsWrittenEnablesLateStart | TimeSlotGrid.Grid, TimeSlotGrid.GridEnabledIffInsideOpeningHours, TimeSlotGrid.IntendedDisablesLateStart |
