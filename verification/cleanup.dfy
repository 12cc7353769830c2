/**
 * Orphan detection (pages/api/cleanup.js): the method and key guard, the
 * filter of valid rows, the grouping of rows by date, the set of calendar
 * start times of each date, and the orphan report.
 *
 * The handler indexes each booking by position (`row[0]` is the id,
 * `row[1]` the date, `row[2]` the start, `row[4]` the name), that is, as a
 * raw sheet row. `HandleRows` runs it on raw rows. `HandleRecords` runs it
 * on what `getAllBookings` actually returns, objects with named fields, on
 * which every positional read is `undefined`.
 *
 * `getCalendarEvents`, which the handler imports, is not defined in
 * lib/google-calendar.js and is not part of this model: the events of each
 * date arrive as the parameter `eventsOn`. Converting an event's
 * `dateTime` to a local instant is the parameter `localMinute`.
 */
module Cleanup {
  import opened Wrappers
  import opened Text
  import opened Sheets
  import opened GoogleCalendar

  /** The request: method, `authorization` header, and whether `body.cleanup === true`. */
  datatype CleanupRequest = CleanupRequest(httpMethod: string, authorization: Option<string>, cleanupRequested: bool)

  /** One entry of `orphanedBookings`; `row` is `allBookings.indexOf(booking) + 1`. */
  datatype Orphan = Orphan(id: Option<string>, date: string, time: Option<string>, name: string, row: int)

  datatype CleanupResponse =
    | Refused(status: int, error: string)
    | Report(orphans: seq<Orphan>, cleanedCount: int)
    | Failed(message: string)

  const MethodNotAllowed: string := "Método no permitido. Use POST."
  const Unauthorized: string := "No autorizado. Se requiere clave API."
  const UnknownName: string := "Desconocido"
  /** The `TypeError` thrown by `bookingsByDate[date].push(booking)` when the
      date names an inherited member: the member is truthy, so no array is
      put in its place, and it has no `push`. */
  const PushNotAFunction: string := "bookingsByDate[date].push is not a function"

  /** `!CLEANUP_API_KEY || (authHeader && authHeader === "Bearer " + key)`. */
  predicate Authorized(key: Option<string>, header: Option<string>)
  {
    !Present(key) || (Present(header) && header.value == "Bearer " + key.value)
  }

  /** With a key set, only the exact header `Bearer <key>` passes; the
      separate missing-header check adds nothing. */
  lemma AuthorizedIffBearer(key: Option<string>, header: Option<string>)
    ensures Authorized(key, header) <==> !Present(key) || header == Some("Bearer " + key.value)
  {
  }

  /** The method and key guard, before anything is read. */
  function Guard(req: CleanupRequest, key: Option<string>): (refused: Option<CleanupResponse>)
    ensures req.httpMethod != "POST" ==> refused == Some(Refused(405, MethodNotAllowed))
    ensures req.httpMethod == "POST" && !Authorized(key, req.authorization) ==> refused == Some(Refused(401, Unauthorized))
    ensures refused.None? <==> req.httpMethod == "POST" && Authorized(key, req.authorization)
  {
    if req.httpMethod != "POST" then Some(Refused(405, MethodNotAllowed))
    else if !Authorized(key, req.authorization) then Some(Refused(401, Unauthorized))
    else None
  }

  /** `row[0] !== 'ID' && row[0] !== 'id' && row[0] && !isNaN(row[0])` on the first cell. */
  predicate ValidFirstCell(cell: Option<string>)
  {
    cell.Some? && cell.value != "ID" && cell.value != "id" && cell.value != "" && ParseNumber(cell.value).Some?
  }

  lemma HeaderIsNotANumber()
    ensures ParseNumber("ID").None? && ParseNumber("id").None?
  {
    assert Trim("ID") == "ID" by { TrimUnpadded("ID"); }
    assert Trim("id") == "id" by { TrimUnpadded("id"); }
  }

  /** A row is valid exactly when its first cell is a non-empty number: the header checks are subsumed. */
  lemma ValidIffNumericId(cell: Option<string>)
    ensures ValidFirstCell(cell) <==> cell.Some? && cell.value != "" && ParseNumber(cell.value).Some?
  {
    HeaderIsNotANumber();
  }

  /** A row with its position in `allBookings`. */
  datatype Entry = Entry(index: nat, row: Row)

  function Entries(rows: seq<Row>): (es: seq<Entry>)
    ensures |es| == |rows|
    ensures forall i :: 0 <= i < |es| ==> es[i] == Entry(i, rows[i])
  {
    seq(|rows|, i requires 0 <= i < |rows| => Entry(i, rows[i]))
  }

  /** `allBookings.filter(...)`. */
  function ValidEntries(es: seq<Entry>): (kept: seq<Entry>)
    ensures forall e :: e in kept <==> e in es && ValidFirstCell(Cell(e.row, 0))
  {
    if |es| == 0 then []
    else if ValidFirstCell(Cell(es[0].row, 0)) then [es[0]] + ValidEntries(es[1..])
    else ValidEntries(es[1..])
  }

  /** The object key `booking[1]` files a row under; an absent date is the key "undefined". */
  function DateKey(e: Entry): string
  {
    Interpolated(Cell(e.row, 1))
  }

  datatype Group = Group(key: string, entries: seq<Entry>)

  /** One `forEach` step: push onto the row's group, opening it at the end when new. */
  function PushEntry(groups: seq<Group>, e: Entry): seq<Group>
  {
    if |groups| == 0 then [Group(DateKey(e), [e])]
    else if groups[0].key == DateKey(e) then [Group(groups[0].key, groups[0].entries + [e])] + groups[1..]
    else [groups[0]] + PushEntry(groups[1..], e)
  }

  /**
   * One `forEach` step on `bookingsByDate`: an own date key is pushed onto;
   * an inherited one (`constructor`, `toString`, ...) is already truthy, so
   * `push` is looked up on a function and the step throws, ending the loop.
   */
  function GroupStep(acc: Result<seq<Group>, string>, e: Entry): Result<seq<Group>, string>
  {
    if acc.Err? then acc
    else if DateKey(e) in InheritedKeys then Err(PushNotAFunction)
    else Ok(PushEntry(acc.value, e))
  }

  /** `bookingsByDate` after the `forEach`, as its entries in insertion order, or the error it threw. */
  function GroupByDate(es: seq<Entry>): Result<seq<Group>, string>
  {
    if |es| == 0 then Ok([]) else GroupStep(GroupByDate(es[..|es| - 1]), es[|es| - 1])
  }

  /** The reference definition of a group: the rows with that date, in order. */
  function WithKey(es: seq<Entry>, key: string): (kept: seq<Entry>)
    ensures forall e :: e in kept <==> e in es && DateKey(e) == key
  {
    if |es| == 0 then []
    else if DateKey(es[0]) == key then [es[0]] + WithKey(es[1..], key)
    else WithKey(es[1..], key)
  }

  function GroupKeys(groups: seq<Group>): (keys: seq<string>)
    ensures |keys| == |groups|
    ensures forall i :: 0 <= i < |groups| ==> keys[i] == groups[i].key
  {
    seq(|groups|, i requires 0 <= i < |groups| => groups[i].key)
  }

  function KeysOf(es: seq<Entry>): (keys: seq<string>)
    ensures |keys| == |es|
    ensures forall i :: 0 <= i < |es| ==> keys[i] == DateKey(es[i])
  {
    seq(|es|, i requires 0 <= i < |es| => DateKey(es[i]))
  }

  predicate DistinctKeys(groups: seq<Group>)
  {
    forall i, j :: 0 <= i < j < |groups| ==> groups[i].key != groups[j].key
  }

  /**
   * `groups` partitions `es` by date: one group per date that occurs, no
   * date twice, and each group holds exactly that date's rows in order.
   */
  ghost predicate PartitionsByDate(groups: seq<Group>, es: seq<Entry>)
  {
    DistinctKeys(groups) &&
    (forall i :: 0 <= i < |groups| ==> groups[i].entries == WithKey(es, groups[i].key)) &&
    (forall k :: k in GroupKeys(groups) <==> k in KeysOf(es))
  }

  lemma {:induction false} WithKeyAppend(es: seq<Entry>, e: Entry, key: string)
    ensures WithKey(es + [e], key) == WithKey(es, key) + (if DateKey(e) == key then [e] else [])
  {
    if |es| == 0 {
      assert es + [e] == [e];
    } else {
      assert (es + [e])[0] == es[0];
      assert (es + [e])[1..] == es[1..] + [e];
      WithKeyAppend(es[1..], e, key);
    }
  }

  lemma {:induction false} WithKeyAbsent(es: seq<Entry>, key: string)
    requires key !in KeysOf(es)
    ensures WithKey(es, key) == []
  {
    if |es| > 0 {
      assert KeysOf(es)[0] == DateKey(es[0]);
      assert forall i :: 0 <= i < |es[1..]| ==> KeysOf(es[1..])[i] == KeysOf(es)[i + 1];
      WithKeyAbsent(es[1..], key);
    }
  }

  lemma GroupKeysCons(g: Group, groups: seq<Group>)
    ensures GroupKeys([g] + groups) == [g.key] + GroupKeys(groups)
  {
  }

  /** Pushing keeps the keys and adds the row's date at the end when it is new. */
  lemma {:induction false} PushEntryKeys(groups: seq<Group>, e: Entry)
    ensures GroupKeys(PushEntry(groups, e)) ==
      if DateKey(e) in GroupKeys(groups) then GroupKeys(groups) else GroupKeys(groups) + [DateKey(e)]
  {
    if |groups| > 0 && groups[0].key != DateKey(e) {
      var rest := PushEntry(groups[1..], e);
      PushEntryKeys(groups[1..], e);
      assert groups == [groups[0]] + groups[1..];
      GroupKeysCons(groups[0], groups[1..]);
      GroupKeysCons(groups[0], rest);
      assert DateKey(e) in GroupKeys(groups) <==> DateKey(e) in GroupKeys(groups[1..]);
    } else if |groups| > 0 {
      assert GroupKeys(PushEntry(groups, e)) == GroupKeys(groups);
    }
  }

  /** With distinct keys, pushing appends the row to its date's group and to no other. */
  lemma {:induction false} PushEntryEntries(groups: seq<Group>, e: Entry, i: int)
    requires DistinctKeys(groups)
    requires 0 <= i < |PushEntry(groups, e)|
    ensures |PushEntry(groups, e)| == |groups| || |PushEntry(groups, e)| == |groups| + 1
    ensures i < |groups| ==> PushEntry(groups, e)[i].key == groups[i].key
    ensures PushEntry(groups, e)[i].entries ==
      (if i < |groups| then groups[i].entries else []) +
      (if PushEntry(groups, e)[i].key == DateKey(e) then [e] else [])
  {
    PushEntryKeys(groups, e);
    if |groups| > 0 && groups[0].key != DateKey(e) && i > 0 {
      PushEntryEntries(groups[1..], e, i - 1);
    }
  }

  /** One push keeps the partition, now of the rows with `e` appended. */
  lemma PushKeepsPartition(groups: seq<Group>, es: seq<Entry>, e: Entry)
    requires PartitionsByDate(groups, es)
    ensures PartitionsByDate(PushEntry(groups, e), es + [e])
  {
    var next := PushEntry(groups, e);
    PushEntryKeys(groups, e);
    assert KeysOf(es + [e]) == KeysOf(es) + [DateKey(e)];
    forall i, j | 0 <= i < j < |next|
      ensures next[i].key != next[j].key
    {
      assert GroupKeys(next)[i] == next[i].key && GroupKeys(next)[j] == next[j].key;
      if j >= |groups| {
        assert GroupKeys(groups)[i] == next[i].key;
      }
    }
    forall i | 0 <= i < |next|
      ensures next[i].entries == WithKey(es + [e], next[i].key)
    {
      PushEntryEntries(groups, e, i);
      WithKeyAppend(es, e, next[i].key);
      if i >= |groups| {
        assert next[i].key == GroupKeys(next)[i] == DateKey(e);
        assert DateKey(e) !in GroupKeys(groups);
        WithKeyAbsent(es, next[i].key);
      }
    }
  }

  /**
   * The `forEach` grouping throws exactly when some row's date names an
   * inherited member, and otherwise partitions the rows by date.
   */
  lemma {:induction false} GroupByDatePartitions(es: seq<Entry>)
    ensures GroupByDate(es).Err? <==> exists e :: e in es && DateKey(e) in InheritedKeys
    ensures GroupByDate(es).Err? ==> GroupByDate(es).error == PushNotAFunction
    ensures GroupByDate(es).Ok? ==> PartitionsByDate(GroupByDate(es).value, es)
  {
    if |es| > 0 {
      var init, last := es[..|es| - 1], es[|es| - 1];
      assert es == init + [last];
      assert forall e :: e in es <==> e in init || e == last;
      GroupByDatePartitions(init);
      if GroupByDate(init).Ok? && DateKey(last) !in InheritedKeys {
        PushKeepsPartition(GroupByDate(init).value, init, last);
      }
    }
  }

  /** In a partition by date, every row lies in exactly one group, the group of its date. */
  lemma EachRowInOneGroup(groups: seq<Group>, es: seq<Entry>, e: Entry)
    requires e in es
    requires PartitionsByDate(groups, es)
    ensures exists i :: 0 <= i < |groups| && groups[i].key == DateKey(e) && e in groups[i].entries
    ensures forall i :: 0 <= i < |groups| && e in groups[i].entries ==> groups[i].key == DateKey(e)
  {
    var j :| 0 <= j < |es| && es[j] == e;
    assert DateKey(e) in KeysOf(es) by { assert KeysOf(es)[j] == DateKey(e); }
    var i :| 0 <= i < |groups| && GroupKeys(groups)[i] == DateKey(e);
    assert groups[i].entries == WithKey(es, groups[i].key);
    assert e in groups[i].entries;
  }

  /** The local `HH:mm` of an event's start; an Invalid Date prints "NaN:NaN". */
  function ClockText(t: Option<int>): (s: string)
    ensures t.Some? ==> ParseHHmm(s) == Some(t.value % MinutesPerDay)
  {
    if t.Some? then
      ParseFormatHHmm(t.value);
      FormatHHmm(t.value)
    else "NaN:NaN"
  }

  predicate HasStartDateTime(ev: CalEvent)
  {
    ev.start.Some? && Present(ev.start.value.dateTime)
  }

  /** `calendarSlots`: the start times of the date's timed events. */
  function CalendarSlots(events: seq<CalEvent>, localMinute: string -> Option<int>): (slots: set<string>)
    ensures forall s :: s in slots <==>
      exists ev :: ev in events && HasStartDateTime(ev) && s == ClockText(localMinute(ev.start.value.dateTime.value))
  {
    set ev | ev in events && HasStartDateTime(ev) :: ClockText(localMinute(ev.start.value.dateTime.value))
  }

  /** `!calendarSlots.has(booking[2])`: a missing start is never in the set. */
  predicate IsOrphan(e: Entry, slots: set<string>)
  {
    var time := Cell(e.row, 2);
    time.None? || time.value !in slots
  }

  function OrphanOf(key: string, e: Entry): Orphan
  {
    var name := Cell(e.row, 4);
    Orphan(Cell(e.row, 0), key, Cell(e.row, 2), if Present(name) then name.value else UnknownName, e.index + 1)
  }

  function GroupOrphans(key: string, es: seq<Entry>, slots: set<string>): (orphans: seq<Orphan>)
    ensures forall o :: o in orphans <==> exists e :: e in es && IsOrphan(e, slots) && o == OrphanOf(key, e)
  {
    if |es| == 0 then []
    else
      var rest := GroupOrphans(key, es[1..], slots);
      assert forall e :: e in es <==> e == es[0] || e in es[1..];
      if IsOrphan(es[0], slots) then [OrphanOf(key, es[0])] + rest else rest
  }

  /** The loop over `Object.entries(bookingsByDate)`. */
  function AllOrphans(groups: seq<Group>, eventsOn: string -> seq<CalEvent>, localMinute: string -> Option<int>): seq<Orphan>
  {
    if |groups| == 0 then []
    else GroupOrphans(groups[0].key, groups[0].entries, CalendarSlots(eventsOn(groups[0].key), localMinute)) +
         AllOrphans(groups[1..], eventsOn, localMinute)
  }

  lemma {:induction false} AllOrphansMembers(groups: seq<Group>, eventsOn: string -> seq<CalEvent>, localMinute: string -> Option<int>, o: Orphan)
    ensures o in AllOrphans(groups, eventsOn, localMinute) <==>
      exists i, e :: 0 <= i < |groups| && e in groups[i].entries &&
        IsOrphan(e, CalendarSlots(eventsOn(groups[i].key), localMinute)) && o == OrphanOf(groups[i].key, e)
  {
    if |groups| > 0 {
      AllOrphansMembers(groups[1..], eventsOn, localMinute, o);
      if (exists i, e :: 0 <= i < |groups| && e in groups[i].entries &&
            IsOrphan(e, CalendarSlots(eventsOn(groups[i].key), localMinute)) && o == OrphanOf(groups[i].key, e))
      {
        var i, e :| 0 <= i < |groups| && e in groups[i].entries &&
          IsOrphan(e, CalendarSlots(eventsOn(groups[i].key), localMinute)) && o == OrphanOf(groups[i].key, e);
        if i > 0 {
          assert groups[1..][i - 1] == groups[i];
        }
      }
      if o in AllOrphans(groups[1..], eventsOn, localMinute) {
        var i, e :| 0 <= i < |groups[1..]| && e in groups[1..][i].entries &&
          IsOrphan(e, CalendarSlots(eventsOn(groups[1..][i].key), localMinute)) && o == OrphanOf(groups[1..][i].key, e);
        assert groups[i + 1] == groups[1..][i];
      }
    }
  }

  /**
   * The report the handler builds from the rows it read, or the 500 of the
   * `catch` when grouping threw.
   */
  function Analyse(rows: seq<Row>, cleanupRequested: bool, eventsOn: string -> seq<CalEvent>, localMinute: string -> Option<int>): (r: CleanupResponse)
    ensures r.Failed? <==> exists e :: e in ValidEntries(Entries(rows)) && DateKey(e) in InheritedKeys
    ensures r.Failed? ==> r.message == PushNotAFunction
    ensures !r.Refused?
    ensures r.Report? ==> r.cleanedCount == if cleanupRequested then |r.orphans| else 0
  {
    var valid := ValidEntries(Entries(rows));
    GroupByDatePartitions(valid);
    match GroupByDate(valid)
    case Err(msg) => Failed(msg)
    case Ok(groups) =>
      var orphans := AllOrphans(groups, eventsOn, localMinute);
      Report(orphans, if cleanupRequested then |orphans| else 0)
  }

  /**
   * An orphan is reported exactly for a valid row whose start is not a
   * start time of its date's calendar events; it carries that row's id,
   * date, start and position.
   */
  lemma OrphansExactly(rows: seq<Row>, cleanupRequested: bool, eventsOn: string -> seq<CalEvent>, localMinute: string -> Option<int>, o: Orphan)
    ensures Analyse(rows, cleanupRequested, eventsOn, localMinute).Report? ==>
      (o in Analyse(rows, cleanupRequested, eventsOn, localMinute).orphans <==>
        exists e :: e in ValidEntries(Entries(rows)) &&
          IsOrphan(e, CalendarSlots(eventsOn(DateKey(e)), localMinute)) && o == OrphanOf(DateKey(e), e))
  {
    var valid := ValidEntries(Entries(rows));
    GroupByDatePartitions(valid);
    if GroupByDate(valid).Err? {
      return;
    }
    var groups := GroupByDate(valid).value;
    AllOrphansMembers(groups, eventsOn, localMinute, o);
    if exists e :: e in valid && IsOrphan(e, CalendarSlots(eventsOn(DateKey(e)), localMinute)) && o == OrphanOf(DateKey(e), e) {
      var e :| e in valid && IsOrphan(e, CalendarSlots(eventsOn(DateKey(e)), localMinute)) && o == OrphanOf(DateKey(e), e);
      EachRowInOneGroup(groups, valid, e);
      var i :| 0 <= i < |groups| && groups[i].key == DateKey(e) && e in groups[i].entries;
    }
    if o in AllOrphans(groups, eventsOn, localMinute) {
      var i, e :| 0 <= i < |groups| && e in groups[i].entries &&
        IsOrphan(e, CalendarSlots(eventsOn(groups[i].key), localMinute)) && o == OrphanOf(groups[i].key, e);
      EachRowInOneGroup(groups, valid, e);
    }
  }

  /** The handler on raw sheet rows (`fetched` is the read, or the message it threw). */
  function HandleRows(req: CleanupRequest, key: Option<string>, fetched: Result<seq<Row>, string>,
                      eventsOn: string -> seq<CalEvent>, localMinute: string -> Option<int>): (r: CleanupResponse)
    ensures Guard(req, key).Some? ==> r == Guard(req, key).value
    ensures Guard(req, key).None? && fetched.Err? ==> r == Failed(fetched.error)
    ensures Guard(req, key).None? && fetched.Ok? ==>
      r == Analyse(fetched.value, req.cleanupRequested, eventsOn, localMinute)
  {
    if Guard(req, key).Some? then Guard(req, key).value
    else if fetched.Err? then Failed(fetched.error)
    else Analyse(fetched.value, req.cleanupRequested, eventsOn, localMinute)
  }

  /** A record read by position: an object has no property "0", "1", ..., so every cell is `undefined`. */
  function PositionalView(rec: BookingRecord): (row: Row)
    ensures forall k: nat :: Cell(row, k).None?
  {
    []
  }

  /** The handler as written, on the records `getAllBookings` returns. */
  function HandleRecords(req: CleanupRequest, key: Option<string>, fetched: Result<seq<BookingRecord>, string>,
                         eventsOn: string -> seq<CalEvent>, localMinute: string -> Option<int>): (r: CleanupResponse)
    ensures Guard(req, key).Some? ==> r == Guard(req, key).value
    ensures Guard(req, key).None? && fetched.Err? ==> r == Failed(fetched.error)
  {
    var rows := match fetched
      case Ok(records) => Ok(seq(|records|, i requires 0 <= i < |records| => PositionalView(records[i])))
      case Err(msg) => Err(msg);
    HandleRows(req, key, rows, eventsOn, localMinute)
  }

  lemma {:induction false} NoValidEntries(es: seq<Entry>)
    requires forall i :: 0 <= i < |es| ==> es[i].row == []
    ensures ValidEntries(es) == []
  {
    if |es| > 0 {
      NoValidEntries(es[1..]);
    }
  }

  /** As written, no record is ever valid, so the report is always empty. */
  lemma AsWrittenFindsNoOrphans(req: CleanupRequest, key: Option<string>, records: seq<BookingRecord>,
                                eventsOn: string -> seq<CalEvent>, localMinute: string -> Option<int>)
    requires Guard(req, key).None?
    ensures HandleRecords(req, key, Ok(records), eventsOn, localMinute) == Report([], 0)
  {
    var rows := seq(|records|, i requires 0 <= i < |records| => PositionalView(records[i]));
    NoValidEntries(Entries(rows));
    assert GroupByDate([]) == Ok([]);
  }

  /** A valid row dated "constructor" makes the whole run answer 500 with the `TypeError`. */
  lemma InheritedDateFails(eventsOn: string -> seq<CalEvent>, localMinute: string -> Option<int>)
    ensures var row := ["1", "constructor", "10:00"];
      HandleRows(CleanupRequest("POST", None, false), None, Ok([row]), eventsOn, localMinute) == Failed(PushNotAFunction)
  {
    var row: Row := ["1", "constructor", "10:00"];
    var e := Entry(0, row);
    assert ParseNumber("1") == Some(1) by { ParseNumberOfIntToString(1); assert IntToString(1) == "1"; }
    assert Entries([row]) == [e];
    assert ValidEntries([e]) == [e];
    assert DateKey(e) in InheritedKeys;
  }

  /**
   * A booking at 10:00 on a date with no calendar events: on the raw row
   * it is reported as an orphan; read back through `getAllBookings` it is not.
   */
  lemma AsWrittenMissesOrphan(eventsOn: string -> seq<CalEvent>, localMinute: string -> Option<int>)
    requires eventsOn("2024-05-01") == []
    ensures var row := ["1", "2024-05-01", "10:00"];
      var req := CleanupRequest("POST", None, false);
      |HandleRows(req, None, Ok([row]), eventsOn, localMinute).orphans| == 1 &&
      HandleRecords(req, None, Ok(DecodeRows(Some([row]))), eventsOn, localMinute).orphans == []
  {
    var row: Row := ["1", "2024-05-01", "10:00"];
    var req := CleanupRequest("POST", None, false);
    var e := Entry(0, row);
    assert ParseNumber("1") == Some(1) by { ParseNumberOfIntToString(1); assert IntToString(1) == "1"; }
    assert Entries([row]) == [e];
    assert ValidEntries([e]) == [e];
    assert "2024-05-01" !in InheritedKeys;
    assert GroupByDate([e]) == Ok([Group("2024-05-01", [e])]);
    assert CalendarSlots(eventsOn("2024-05-01"), localMinute) == {};
    assert GroupOrphans("2024-05-01", [e], {}) == [OrphanOf("2024-05-01", e)];
    assert AllOrphans([Group("2024-05-01", [e])], eventsOn, localMinute) == [OrphanOf("2024-05-01", e)];
    AsWrittenFindsNoOrphans(req, None, DecodeRows(Some([row])), eventsOn, localMinute);
  }
}
