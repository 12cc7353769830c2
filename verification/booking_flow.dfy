/**
 * The slot-fetching decision of the booking page (components/BookingFlow.js,
 * `fetchSlots`) and its step transitions.
 *
 * For the chosen service and day the flow reads the busy ranges once, decides
 * whether the normal day should be extended to 21:00 with overflow, generates
 * the slots with that window and shows the `HH:mm` of the free ones.
 */
module BookingFlow {
  import opened Wrappers
  import opened Text
  import opened Slots
  import opened Services

  /** The `config` prop a page hands to the flow. */
  datatype FlowConfig = FlowConfig(
    isExtra: bool,
    openHour: int,
    closeHour: int,
    allowOverflowEnd: bool,
    daysToShow: int)

  /** pages/index.js: the normal page, already open until 21:00 with overflow. */
  const NormalConfig: FlowConfig := FlowConfig(false, 10, 21, true, 21)

  /** pages/extra-cupos.js: the evening "extra cupos" page. */
  const ExtraConfig: FlowConfig := FlowConfig(true, 18, 20, true, 35)

  /** The flow always proposes starts every half hour. */
  const FlowStepMinutes: int := 30

  /** Busy ranges starting at or after this hour are evening extra bookings. */
  const ExtraCuposHour: int := 18

  /** The closing hour an extended normal day moves to. */
  const ExtendedCloseHour: int := 21

  /** The closing hour and end rule the final generation uses. */
  datatype DayWindow = DayWindow(closeHour: int, allowOverflowEnd: bool)

  function ConfiguredWindow(cfg: FlowConfig): DayWindow
  {
    DayWindow(cfg.closeHour, cfg.allowOverflowEnd)
  }

  /** Whether some busy range starts at or after 18:00 of `day`. */
  function HasExtraCupos(busy: seq<Busy>, day: int): (found: bool)
    ensures found <==> exists i :: 0 <= i < |busy| && busy[i].start >= AtHour(day, ExtraCuposHour)
  {
    if |busy| == 0 then false
    else busy[0].start >= AtHour(day, ExtraCuposHour) || HasExtraCupos(busy[1..], day)
  }

  /** The tentative request: the configured hours under the strict end rule. */
  function TentativeRequest(cfg: FlowConfig, day: int, duration: int): SlotRequest
  {
    SlotRequest(day, cfg.openHour, cfg.closeHour, FlowStepMinutes, duration, false)
  }

  /** Whether the last tentative slot exists and is taken. */
  predicate LastTentativeTaken(cfg: FlowConfig, day: int, duration: int, busy: seq<Busy>, now: int)
  {
    var tentative := GenerateTimeSlots(TentativeRequest(cfg, day, duration), busy, now);
    |tentative| > 0 && !tentative[|tentative| - 1].available
  }

  /**
   * The window-extension rule: only on the normal page, only when no evening
   * booking exists, and only when the last strict slot of the day is taken,
   * does the day close at 21:00 with overflow; otherwise the configuration
   * stands.
   */
  function EffectiveWindow(cfg: FlowConfig, day: int, duration: int, busy: seq<Busy>, now: int): (w: DayWindow)
    ensures cfg.isExtra ==> w == ConfiguredWindow(cfg)
    ensures HasExtraCupos(busy, day) ==> w == ConfiguredWindow(cfg)
    ensures !cfg.isExtra && !HasExtraCupos(busy, day) ==>
      (w == DayWindow(ExtendedCloseHour, true) <==>
        LastTentativeTaken(cfg, day, duration, busy, now) || ConfiguredWindow(cfg) == DayWindow(ExtendedCloseHour, true))
    ensures w == ConfiguredWindow(cfg) || w == DayWindow(ExtendedCloseHour, true)
    ensures ConfiguredWindow(cfg) == DayWindow(ExtendedCloseHour, true) ==> w == ConfiguredWindow(cfg)
  {
    if !cfg.isExtra && !HasExtraCupos(busy, day) && LastTentativeTaken(cfg, day, duration, busy, now) then
      DayWindow(ExtendedCloseHour, true)
    else
      ConfiguredWindow(cfg)
  }

  /**
   * When the day is extended, the slot that triggered it is the last
   * half-hour start that still ends by the configured close, and some busy
   * range overlaps it.
   */
  lemma ExtensionMeansLastStrictSlotTaken(cfg: FlowConfig, day: int, duration: int, busy: seq<Busy>, now: int)
    requires !cfg.isExtra && !HasExtraCupos(busy, day) && LastTentativeTaken(cfg, day, duration, busy, now)
    ensures var r := TentativeRequest(cfg, day, duration);
      exists t :: OnGrid(r, t) && t + duration <= CloseAt(r) && t + FlowStepMinutes + duration > CloseAt(r) &&
        (IsSameDay(r, now) ==> t > now) &&
        (exists b :: b in busy && Overlaps(t, t + duration, b))
  {
    var r := TentativeRequest(cfg, day, duration);
    var g := GenerateTimeSlots(r, busy, now);
    var last := g[|g| - 1];
    LastGeneratedSlotClosesGrid(r, busy, now);
    assert last in g;
    assert !last.available;
    assert last.end == last.start + duration;
    var t := last.start;
    assert OnGrid(r, t) && t + duration <= CloseAt(r) && t + FlowStepMinutes + duration > CloseAt(r);
    assert IsSameDay(r, now) ==> t > now;
    assert exists b :: b in busy && Overlaps(t, t + duration, b);
  }

  /** The request of the final generation. */
  function FinalRequest(cfg: FlowConfig, day: int, duration: int, w: DayWindow): SlotRequest
  {
    SlotRequest(day, cfg.openHour, w.closeHour, FlowStepMinutes, duration, w.allowOverflowEnd)
  }

  /** The free slots, in order. */
  function AvailableSlots(slots: seq<Slot>): (free: seq<Slot>)
    ensures |free| <= |slots|
    ensures forall s :: s in free <==> s in slots && s.available
  {
    if |slots| == 0 then []
    else if slots[0].available then [slots[0]] + AvailableSlots(slots[1..])
    else AvailableSlots(slots[1..])
  }

  /** Keeping the free slots of a list with none taken keeps the list. */
  lemma {:induction false} AvailableSlotsOfFree(slots: seq<Slot>)
    requires forall i :: 0 <= i < |slots| ==> slots[i].available
    ensures AvailableSlots(slots) == slots
  {
    if |slots| > 0 {
      AvailableSlotsOfFree(slots[1..]);
    }
  }

  /** Filtering keeps the relative order: it is a subsequence of the input. */
  lemma {:induction false} AvailableSlotsKeepOrder(slots: seq<Slot>)
    requires Increasing(slots)
    ensures Increasing(AvailableSlots(slots))
  {
    if |slots| > 0 {
      var tail := slots[1..];
      assert Increasing(tail);
      AvailableSlotsKeepOrder(tail);
      var rest := AvailableSlots(tail);
      forall j | 0 <= j < |rest|
        ensures slots[0].start < rest[j].start
      {
        assert rest[j] in tail;
      }
    }
  }

  /** The `HH:mm` label of each slot start. */
  function Times(slots: seq<Slot>): (times: seq<string>)
    ensures |times| == |slots|
    ensures forall k :: 0 <= k < |slots| ==> ParseHHmm(times[k]) == Some(slots[k].start % MinutesPerDay)
  {
    var times := seq(|slots|, k requires 0 <= k < |slots| => FormatHHmm(slots[k].start));
    assert forall k :: 0 <= k < |slots| ==> ParseHHmm(times[k]) == Some(slots[k].start % MinutesPerDay) by {
      forall k | 0 <= k < |slots|
        ensures ParseHHmm(times[k]) == Some(slots[k].start % MinutesPerDay)
      {
        ParseFormatHHmm(slots[k].start);
      }
    }
    times
  }

  /** What the flow shows: the free times, or an error and no times. */
  datatype SlotsView = SlotsView(times: seq<string>, error: Option<string>)

  const ServiceNotFound: string := "Servicio no encontrado."

  /** `services.find(s => String(s.id) === key)`. */
  function FindByKey(services: seq<Service>, key: string): (found: Option<Service>)
    ensures found.Some? <==> exists s :: s in services && IntToString(s.id) == key
    ensures found.Some? ==> found.value in services && IntToString(found.value.id) == key
  {
    if |services| == 0 then None
    else if IntToString(services[0].id) == key then Some(services[0])
    else FindByKey(services[1..], key)
  }

  /**
   * Any ordering of the catalogue (the sorted copy among them) answers
   * exactly the keys that spell an id 1..8 in decimal ("1", not "01" nor
   * " 1"), with the service of that id.
   */
  lemma FindByKeyInPermutation(services: seq<Service>, key: string)
    requires multiset(services) == multiset(Catalogue)
    ensures FindByKey(services, key).Some? <==> exists n :: 1 <= n <= 8 && key == IntToString(n)
    ensures forall n :: 1 <= n <= 8 && key == IntToString(n) ==> FindByKey(services, key) == Lookup(n)
  {
    if FindByKey(services, key).Some? {
      FoundServiceIsNamed(services, key);
    }
    forall n | 1 <= n <= 8 && key == IntToString(n)
      ensures FindByKey(services, key) == Lookup(n)
    {
      NamedServiceIsFound(services, key, n);
    }
  }

  /** What a lookup in a reordered catalogue finds carries the id the key spells. */
  lemma FoundServiceIsNamed(services: seq<Service>, key: string)
    requires multiset(services) == multiset(Catalogue)
    requires FindByKey(services, key).Some?
    ensures var s := FindByKey(services, key).value;
      1 <= s.id <= 8 && key == IntToString(s.id) && Lookup(s.id) == Some(s)
  {
    var s := FindByKey(services, key).value;
    PermutationMembers(services);
    CatalogueMember(s);
  }

  /** A key that spells a catalogue id finds that id's service. */
  lemma NamedServiceIsFound(services: seq<Service>, key: string, n: int)
    requires multiset(services) == multiset(Catalogue)
    requires 1 <= n <= 8 && key == IntToString(n)
    ensures FindByKey(services, key) == Lookup(n)
  {
    PermutationMembers(services);
    assert Catalogue[n - 1] in services && IntToString(Catalogue[n - 1].id) == key by {
      CatalogueWellFormed();
    }
    FoundServiceIsNamed(services, key);
    IntToStringInjective(FindByKey(services, key).value.id, n);
  }

  /** A reordering of the catalogue holds exactly the catalogue's services. */
  lemma PermutationMembers(services: seq<Service>)
    requires multiset(services) == multiset(Catalogue)
    ensures forall s :: s in services <==> s in Catalogue
  {
    assert forall s :: s in services <==> s in multiset(services);
    assert forall s :: s in Catalogue <==> s in multiset(Catalogue);
  }

  /** A catalogue service sits at the position its id names. */
  lemma CatalogueMember(s: Service)
    requires s in Catalogue
    ensures 1 <= s.id <= 8 && Lookup(s.id) == Some(s)
  {
    var i :| 0 <= i < |Catalogue| && Catalogue[i] == s;
    assert s.id == i + 1 by {
      CatalogueWellFormed();
    }
    assert Lookup(i + 1) == Some(Catalogue[i]);
  }

  /** The service the flow looks up for a selected id in its sorted list. */
  function FlowService(serviceId: JsValue): (found: Option<Service>)
    ensures found.Some? <==> exists n :: 1 <= n <= 8 && ToJsString(serviceId) == IntToString(n)
    ensures forall n :: 1 <= n <= 8 && ToJsString(serviceId) == IntToString(n) ==> found == Lookup(n)
  {
    var sorted := SortedCatalogue();
    FindByKeyInPermutation(sorted, ToJsString(serviceId));
    FindByKey(sorted, ToJsString(serviceId))
  }

  /**
   * The times shown for a successful read: the `k`-th reads back as the clock
   * time of the `k`-th free slot of the final generation.
   */
  function ShownTimes(cfg: FlowConfig, day: int, duration: int, busy: seq<Busy>, now: int): (times: seq<string>)
    ensures var w := EffectiveWindow(cfg, day, duration, busy, now);
      var free := AvailableSlots(GenerateTimeSlots(FinalRequest(cfg, day, duration, w), busy, now));
      |times| == |free| &&
      forall k :: 0 <= k < |times| ==> ParseHHmm(times[k]) == Some(free[k].start % MinutesPerDay)
  {
    var w := EffectiveWindow(cfg, day, duration, busy, now);
    Times(AvailableSlots(GenerateTimeSlots(FinalRequest(cfg, day, duration, w), busy, now)))
  }

  /**
   * `fetchSlots(date, serviceId)`: `fetched` is the outcome of reading the
   * day's busy ranges (an error message when the calendar read throws).
   */
  function FetchSlots(cfg: FlowConfig, serviceId: JsValue, day: int, fetched: Result<seq<Busy>, string>, now: int): (v: SlotsView)
    ensures FlowService(serviceId).None? ==> v == SlotsView([], Some(ServiceNotFound))
    ensures fetched.Err? ==> v.times == [] && v.error.Some?
    ensures v.error.None? <==> FlowService(serviceId).Some? && fetched.Ok?
    ensures v.error.None? ==>
      v.times == ShownTimes(cfg, day, FlowService(serviceId).value.duration, fetched.value, now)
  {
    match FlowService(serviceId)
    case None => SlotsView([], Some(ServiceNotFound))
    case Some(service) =>
      match fetched
      case Err(message) => SlotsView([], Some(ThrownMessage(message)))
      case Ok(busy) =>
        SlotsView(ShownTimes(cfg, day, service.duration, busy, now), None)
  }

  /**
   * The shown times are in generation order: the free slots behind them
   * start strictly later one after another, and with no busy range every
   * generated slot is shown.
   */
  lemma ShownTimesInOrder(cfg: FlowConfig, day: int, duration: int, busy: seq<Busy>, now: int)
    ensures var w := EffectiveWindow(cfg, day, duration, busy, now);
      var slots := GenerateTimeSlots(FinalRequest(cfg, day, duration, w), busy, now);
      Increasing(AvailableSlots(slots)) && (busy == [] ==> AvailableSlots(slots) == slots)
  {
    var w := EffectiveWindow(cfg, day, duration, busy, now);
    var r := FinalRequest(cfg, day, duration, w);
    var slots := GenerateTimeSlots(r, busy, now);
    GeneratedSlotsStepped(r, busy, now);
    AvailableSlotsKeepOrder(slots);
    if busy == [] {
      AvailableSlotsOfFree(slots);
    }
  }

  /**
   * On the normal page (already 21:00 with overflow) the extension rule
   * changes nothing: the shown times are those of one plain generation.
   */
  lemma NormalPageExtensionIsNoOp(day: int, duration: int, busy: seq<Busy>, now: int)
    ensures EffectiveWindow(NormalConfig, day, duration, busy, now) == DayWindow(21, true)
    ensures ShownTimes(NormalConfig, day, duration, busy, now) ==
      Times(AvailableSlots(GenerateTimeSlots(SlotRequest(day, 10, 21, 30, duration, true), busy, now)))
  {
  }

  /** The flow's progress: the step shown and what has been chosen so far. */
  datatype FlowState = FlowState(step: int, service: JsValue, date: Option<int>, time: string)

  /** Nothing chosen yet, step 1. */
  const InitialState: FlowState := FlowState(1, Str(""), None, "")

  /**
   * What the client does: a choice on the current step, a step button
   * (`setStep(n)` alone, keeping every choice), or the reset three seconds
   * after a confirmed booking.
   */
  datatype FlowEvent =
    | ChooseService(id: JsValue)
    | ChooseDate(day: int)
    | ChooseTime(time: string)
    | GoToStep(target: int)
    | BookingDone

  /** `handleServiceSelect`, `handleDateSelect`, `handleTimeSelect`, the
      `setStep` buttons and the reset after a success. */
  function Apply(st: FlowState, e: FlowEvent): (next: FlowState)
    ensures e.ChooseService? ==> next == FlowState(2, e.id, None, "")
    ensures e.ChooseDate? ==> next == st.(step := 3, date := Some(e.day), time := "")
    ensures e.ChooseTime? ==> next == st.(step := 4, time := e.time)
    ensures e.GoToStep? ==> next.step == e.target && next.service == st.service && next.date == st.date && next.time == st.time
    ensures e.BookingDone? ==> next == InitialState
  {
    match e
    case ChooseService(id) => FlowState(2, id, None, "")
    case ChooseDate(d) => FlowState(3, st.service, Some(d), "")
    case ChooseTime(t) => FlowState(4, st.service, st.date, t)
    case GoToStep(n) => st.(step := n)
    case BookingDone => InitialState
  }

  /**
   * Whether the page offers the action on the current step: the service
   * cards (ids 1..8) on step 1, the day buttons on step 2, the slot labels
   * (never empty) on step 3 once a date is chosen, "back to services" on
   * step 2, "back to dates" and, with a time chosen, "continue" on step 3,
   * "back" and the booking form on step 4.
   */
  predicate Offered(st: FlowState, e: FlowEvent)
  {
    match e
    case ChooseService(id) => st.step == 1 && id.Num? && 1 <= id.n <= 8
    case ChooseDate(_) => st.step == 2
    case ChooseTime(t) => st.step == 3 && st.date.Some? && t != ""
    case GoToStep(n) =>
      (st.step == 2 && n == 1) || (st.step == 3 && n == 2) ||
      (st.step == 3 && n == 4 && st.time != "") || (st.step == 4 && n == 3)
    case BookingDone => st.step == 4
  }

  /** The step an action leads to. */
  function TargetStep(e: FlowEvent): int
  {
    match e
    case ChooseService(_) => 2
    case ChooseDate(_) => 3
    case ChooseTime(_) => 4
    case GoToStep(n) => n
    case BookingDone => 1
  }

  /** A click: what the page offers takes effect; anything else is not on screen. */
  function Click(st: FlowState, e: FlowEvent): FlowState
  {
    if Offered(st, e) then Apply(st, e) else st
  }

  function Run(st: FlowState, events: seq<FlowEvent>): FlowState
    decreases |events|
  {
    if |events| == 0 then st else Run(Click(st, events[0]), events[1..])
  }

  /**
   * What the page relies on: a step between 1 and 4, a catalogue service
   * from step 2 on, a date from step 3 on, a time on step 4. The back
   * buttons keep later choices, so an earlier step may still hold them.
   */
  predicate Consistent(st: FlowState)
  {
    1 <= st.step <= 4 &&
    (st.step >= 2 ==> st.service.Num? && 1 <= st.service.n <= 8) &&
    (st.step >= 3 ==> st.date.Some?) &&
    (st.step == 4 ==> st.time != "")
  }

  lemma InitialStateConsistent()
    ensures Consistent(InitialState)
  {
  }

  /** Every click keeps the flow consistent; an offered one moves to its
      target step, any other leaves the state as it is. */
  lemma ClickKeepsConsistent(st: FlowState, e: FlowEvent)
    requires Consistent(st)
    ensures Consistent(Click(st, e))
    ensures Offered(st, e) ==> Click(st, e).step == TargetStep(e)
    ensures !Offered(st, e) ==> Click(st, e) == st
  {
  }

  /** Running a sequence then one more click is one more step of the run. */
  lemma {:induction false} RunSnoc(st: FlowState, events: seq<FlowEvent>, e: FlowEvent)
    decreases |events|
    ensures Run(st, events + [e]) == Click(Run(st, events), e)
  {
    if |events| == 0 {
      assert Run(Click(st, e), []) == Click(st, e);
    } else {
      assert (events + [e])[0] == events[0];
      assert (events + [e])[1..] == events[1..] + [e];
      RunSnoc(Click(st, events[0]), events[1..], e);
    }
  }

  /** Any sequence of clicks keeps the flow consistent. */
  lemma {:induction false} RunKeepsConsistent(st: FlowState, events: seq<FlowEvent>)
    requires Consistent(st)
    decreases |events|
    ensures Consistent(Run(st, events))
  {
    if |events| > 0 {
      ClickKeepsConsistent(st, events[0]);
      RunKeepsConsistent(Click(st, events[0]), events[1..]);
    }
  }

  /** From step 2 on, the selected service is one the flow finds. */
  lemma ConsistentServiceIsFound(st: FlowState)
    requires Consistent(st) && st.step >= 2
    ensures FlowService(st.service) == Lookup(st.service.n)
  {
  }

  /**
   * The back buttons keep every choice: "back" from the form, then
   * "continue", returns to the very same state, and from step 3 "back to
   * dates" still holds the date.
   */
  lemma BackThenContinue(st: FlowState)
    requires Consistent(st) && st.step == 4
    ensures Run(st, [GoToStep(3), GoToStep(4)]) == st
    ensures Click(Click(st, GoToStep(3)), GoToStep(2)).date == st.date
  {
    var back := Click(st, GoToStep(3));
    assert back == st.(step := 3);
    assert Run(st, [GoToStep(3), GoToStep(4)]) == Run(back, [GoToStep(4)]);
    assert Click(back, GoToStep(4)) == st;
  }
}
