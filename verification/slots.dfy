/**
 * The day-slot generator of lib/slots.js (`generateTimeSlots`).
 *
 * Every instant is a count of minutes on the salon's local timeline, with
 * day `d` starting at minute `d * 1440`. Start times are proposed from the
 * opening hour at a fixed step until the end rule stops the walk; each slot
 * is marked available when it overlaps no busy range; when the requested
 * day is today, slots that do not start after "now" are hidden.
 */
module Slots {
  import opened Text

  /** A busy range taken from the calendar, read as the half-open `[start, end)`. */
  datatype Busy = Busy(start: int, end: int)

  /** A proposed appointment: its start, its end, and whether it is free. */
  datatype Slot = Slot(start: int, end: int, available: bool)

  /** The arguments of `generateTimeSlots` other than the busy list. */
  datatype SlotRequest = SlotRequest(
    day: int,
    openHour: int,
    closeHour: int,
    stepMinutes: int,
    durationMinutes: int,
    allowOverflowEnd: bool)

  /** The local minute `hour:00` on `day` (JavaScript's `new Date(Y, M, D, hour)`,
      which rolls hours past 23 over into the next day). */
  function AtHour(day: int, hour: int): int { DayStart(day) + hour * MinutesPerHour }

  function OpenAt(r: SlotRequest): int { AtHour(r.day, r.openHour) }

  function CloseAt(r: SlotRequest): int { AtHour(r.day, r.closeHour) }

  /** The half-open overlap test `start < b.end && end > b.start`. */
  predicate Overlaps(start: int, end: int, b: Busy)
  {
    start < b.end && end > b.start
  }

  /** `busy.some(b => overlaps)`. */
  function AnyOverlap(start: int, end: int, busy: seq<Busy>): (r: bool)
    ensures r <==> exists i :: 0 <= i < |busy| && Overlaps(start, end, busy[i])
  {
    if |busy| == 0 then false
    else Overlaps(start, end, busy[0]) || AnyOverlap(start, end, busy[1..])
  }

  /** The loop guard `canPropose`: under the overflow rule a slot need only
      start before closing; under the strict rule it must also end by then. */
  predicate CanPropose(r: SlotRequest, start: int)
  {
    if r.allowOverflowEnd then start < CloseAt(r)
    else start + r.durationMinutes <= CloseAt(r)
  }

  /** The last start the guard admits, plus one under the overflow rule. */
  function StopBound(r: SlotRequest): int
  {
    if r.allowOverflowEnd then CloseAt(r) else CloseAt(r) - r.durationMinutes + 1
  }

  /** The start times the loop proposes from `cursor` on. */
  function Candidates(r: SlotRequest, cursor: int): (starts: seq<int>)
    requires r.stepMinutes > 0
    ensures |starts| > 0 ==> starts[0] == cursor
    ensures forall k :: 0 <= k < |starts| - 1 ==> starts[k + 1] == starts[k] + r.stepMinutes
    ensures forall k :: 0 <= k < |starts| ==> cursor <= starts[k] && CanPropose(r, starts[k])
    ensures !CanPropose(r, cursor + |starts| * r.stepMinutes)
    decreases StopBound(r) - cursor
  {
    if CanPropose(r, cursor) then
      var rest := Candidates(r, cursor + r.stepMinutes);
      assert cursor + r.stepMinutes + |rest| * r.stepMinutes == cursor + (1 + |rest|) * r.stepMinutes;
      [cursor] + rest
    else []
  }

  /** One proposed slot: its end and its availability against `busy`. */
  function MakeSlot(r: SlotRequest, busy: seq<Busy>, start: int): Slot
  {
    var end := start + r.durationMinutes;
    Slot(start, end, !AnyOverlap(start, end, busy))
  }

  /** Every slot the loop pushes, before the same-day filter. */
  function Proposals(r: SlotRequest, busy: seq<Busy>): (slots: seq<Slot>)
    requires r.stepMinutes > 0
  {
    var starts := Candidates(r, OpenAt(r));
    seq(|starts|, i requires 0 <= i < |starts| => MakeSlot(r, busy, starts[i]))
  }

  /** `slots.filter(s => new Date(s.start) > now)`. */
  function StartingAfter(slots: seq<Slot>, now: int): (kept: seq<Slot>)
    ensures |kept| <= |slots|
    ensures forall s :: s in kept <==> s in slots && s.start > now
  {
    if |slots| == 0 then []
    else if slots[0].start > now then [slots[0]] + StartingAfter(slots[1..], now)
    else StartingAfter(slots[1..], now)
  }

  /** Whether the requested day is the local day of "now". */
  predicate IsSameDay(r: SlotRequest, now: int)
  {
    DayOf(now) == r.day
  }

  /**
   * `generateTimeSlots(...)`: `now` is the current instant rounded down to the
   * minute (for whole-minute starts `start > now` is unchanged by the rounding).
   */
  function GenerateTimeSlots(r: SlotRequest, busy: seq<Busy>, now: int): (slots: seq<Slot>)
    requires r.stepMinutes > 0
    ensures forall s :: s in slots ==> s.end == s.start + r.durationMinutes
    ensures forall s :: s in slots ==>
      (s.available <==> forall b :: b in busy ==> !Overlaps(s.start, s.end, b))
    ensures !r.allowOverflowEnd ==> forall s :: s in slots ==> s.end <= CloseAt(r)
    ensures r.allowOverflowEnd ==> forall s :: s in slots ==> s.start < CloseAt(r)
    ensures forall s :: s in slots ==> OpenAt(r) <= s.start
    ensures busy == [] ==> forall s :: s in slots ==> s.available
    ensures !r.allowOverflowEnd && r.durationMinutes > CloseAt(r) - OpenAt(r) ==> slots == []
    ensures IsSameDay(r, now) ==> forall s :: s in slots ==> s.start > now
    ensures !IsSameDay(r, now) ==> slots == Proposals(r, busy)
  {
    var proposed := Proposals(r, busy);
    ProposalMembers(r, busy);
    if IsSameDay(r, now) then StartingAfter(proposed, now) else proposed
  }

  /** Each proposed slot starts where the guard admits it and is flagged against every busy range. */
  lemma ProposalMembers(r: SlotRequest, busy: seq<Busy>)
    requires r.stepMinutes > 0
    ensures forall s :: s in Proposals(r, busy) ==>
      s.end == s.start + r.durationMinutes && OpenAt(r) <= s.start && CanPropose(r, s.start) &&
      (s.available <==> forall b :: b in busy ==> !Overlaps(s.start, s.end, b))
    ensures !CanPropose(r, OpenAt(r)) ==> Proposals(r, busy) == []
  {
    var starts := Candidates(r, OpenAt(r));
    forall s | s in Proposals(r, busy)
      ensures s.end == s.start + r.durationMinutes && OpenAt(r) <= s.start && CanPropose(r, s.start)
      ensures s.available <==> forall b :: b in busy ==> !Overlaps(s.start, s.end, b)
    {
      var i :| 0 <= i < |starts| && Proposals(r, busy)[i] == s;
      assert s == MakeSlot(r, busy, starts[i]);
      assert (forall b :: b in busy ==> !Overlaps(s.start, s.end, b)) <==>
        !exists j :: 0 <= j < |busy| && Overlaps(s.start, s.end, busy[j]);
    }
  }

  /** Slot starts strictly increase along the list. */
  predicate Increasing(slots: seq<Slot>)
  {
    forall i, j :: 0 <= i < j < |slots| ==> slots[i].start < slots[j].start
  }

  /** Consecutive slot starts differ by exactly `step`. */
  predicate Stepped(slots: seq<Slot>, step: int)
  {
    forall i :: 0 <= i < |slots| - 1 ==> slots[i + 1].start == slots[i].start + step
  }

  /** A list that walks by a positive step is increasing. */
  lemma {:induction false} SteppedIsIncreasing(slots: seq<Slot>, step: int)
    requires step > 0 && Stepped(slots, step)
    ensures Increasing(slots)
  {
    if |slots| > 1 {
      var tail := slots[1..];
      assert Stepped(tail, step);
      SteppedIsIncreasing(tail, step);
      forall j | 1 <= j < |slots|
        ensures slots[0].start < slots[j].start
      {
        if j > 1 {
          assert tail[0].start < tail[j - 1].start;
        }
      }
    }
  }

  /** The `k`-th proposed start is `k` steps after `cursor`. */
  lemma {:induction false} CandidateClosedForm(r: SlotRequest, cursor: int, k: nat)
    requires r.stepMinutes > 0 && k < |Candidates(r, cursor)|
    ensures Candidates(r, cursor)[k] == cursor + k * r.stepMinutes
    decreases k
  {
    if k > 0 {
      var starts := Candidates(r, cursor);
      CandidateClosedForm(r, cursor, k - 1);
      assert starts[k] == starts[k - 1] + r.stepMinutes;
      assert (k - 1) * r.stepMinutes + r.stepMinutes == k * r.stepMinutes;
    }
  }

  /** A grid point `k` steps after `cursor` that passes the guard is proposed. */
  lemma {:induction false} CandidatesReachGridPoint(r: SlotRequest, cursor: int, k: nat)
    requires r.stepMinutes > 0 && CanPropose(r, cursor + k * r.stepMinutes)
    ensures k < |Candidates(r, cursor)|
    decreases k
  {
    CanProposeDownward(r, cursor, cursor + k * r.stepMinutes);
    if k > 0 {
      assert cursor + r.stepMinutes + (k - 1) * r.stepMinutes == cursor + k * r.stepMinutes;
      CandidatesReachGridPoint(r, cursor + r.stepMinutes, k - 1);
    }
  }

  /** The unfiltered list starts at the opening minute and walks by the step. */
  lemma ProposalsWalkFromOpen(r: SlotRequest, busy: seq<Busy>)
    requires r.stepMinutes > 0
    ensures |Proposals(r, busy)| > 0 ==> Proposals(r, busy)[0].start == OpenAt(r)
    ensures Stepped(Proposals(r, busy), r.stepMinutes)
    ensures Increasing(Proposals(r, busy))
  {
    SteppedIsIncreasing(Proposals(r, busy), r.stepMinutes);
  }

  /** Filtering keeps everything when every slot is after `now`. */
  lemma {:induction false} StartingAfterKeepsAll(slots: seq<Slot>, now: int)
    requires forall i :: 0 <= i < |slots| ==> slots[i].start > now
    ensures StartingAfter(slots, now) == slots
  {
    if |slots| > 0 {
      StartingAfterKeepsAll(slots[1..], now);
    }
  }

  /** On an increasing list, keeping the slots after `now` keeps a suffix. */
  lemma {:induction false} StartingAfterIsSuffix(slots: seq<Slot>, now: int)
    requires Increasing(slots)
    ensures StartingAfter(slots, now) == slots[|slots| - |StartingAfter(slots, now)|..]
  {
    if |slots| > 0 {
      if slots[0].start > now {
        StartingAfterKeepsAll(slots, now);
      } else {
        var tail := slots[1..];
        assert Increasing(tail);
        StartingAfterIsSuffix(tail, now);
        var m := |StartingAfter(tail, now)|;
        assert tail[|tail| - m..] == slots[|slots| - m..];
      }
    }
  }

  /** What `generateTimeSlots` returns walks the day in step order. */
  lemma GeneratedSlotsStepped(r: SlotRequest, busy: seq<Busy>, now: int)
    requires r.stepMinutes > 0
    ensures Increasing(GenerateTimeSlots(r, busy, now))
    ensures Stepped(GenerateTimeSlots(r, busy, now), r.stepMinutes)
    ensures !IsSameDay(r, now) && |GenerateTimeSlots(r, busy, now)| > 0 ==>
      GenerateTimeSlots(r, busy, now)[0].start == OpenAt(r)
  {
    var p := Proposals(r, busy);
    ProposalsWalkFromOpen(r, busy);
    if IsSameDay(r, now) {
      StartingAfterIsSuffix(p, now);
    }
  }

  /** The guard only gets harder to pass as the start moves later. */
  lemma CanProposeDownward(r: SlotRequest, early: int, late: int)
    requires early <= late && CanPropose(r, late)
    ensures CanPropose(r, early)
  {
  }

  /** Where a start sits on the step grid from the opening minute. */
  predicate OnGrid(r: SlotRequest, t: int)
    requires r.stepMinutes > 0
  {
    OpenAt(r) <= t && (t - OpenAt(r)) % r.stepMinutes == 0
  }

  /** Every start `generateTimeSlots` returns is on the grid, passes the end
      rule, and on the current day lies after `now`. */
  lemma GeneratedStartsSound(r: SlotRequest, busy: seq<Busy>, now: int, s: Slot)
    requires r.stepMinutes > 0
    requires s in GenerateTimeSlots(r, busy, now)
    ensures OnGrid(r, s.start) && CanPropose(r, s.start)
    ensures IsSameDay(r, now) ==> s.start > now
  {
    var p := Proposals(r, busy);
    assert s in p;
    var i :| 0 <= i < |p| && p[i] == s;
    assert s.start == Candidates(r, OpenAt(r))[i];
    assert s.start - OpenAt(r) == i * r.stepMinutes by {
      CandidateClosedForm(r, OpenAt(r), i);
    }
    MultipleHasNoRemainder(i, r.stepMinutes);
  }

  lemma MultipleHasNoRemainder(i: int, step: int)
    requires step > 0
    ensures (i * step) % step == 0
  {
    var d, m := (i * step) / step, (i * step) % step;
    assert (i - d) * step == m;
    ProductAwayFromZero(i - d, step);
  }

  lemma ProductAwayFromZero(a: int, step: int)
    requires step > 0
    ensures a >= 1 ==> a * step >= step
    ensures a <= -1 ==> a * step <= -step
  {
  }

  /** Every grid minute that passes the end rule and, on the current day,
      lies after `now` is the start of a returned slot. */
  lemma GeneratedStartsComplete(r: SlotRequest, busy: seq<Busy>, now: int, t: int)
    requires r.stepMinutes > 0
    requires OnGrid(r, t) && CanPropose(r, t)
    requires IsSameDay(r, now) ==> t > now
    ensures exists s :: s in GenerateTimeSlots(r, busy, now) && s.start == t
  {
    var open, step := OpenAt(r), r.stepMinutes;
    var p := Proposals(r, busy);
    var k := (t - open) / step;
    assert t == open + k * step;
    CandidatesReachGridPoint(r, open, k);
    CandidateClosedForm(r, open, k);
    assert p[k].start == t && p[k] in p;
  }

  /**
   * The starts `generateTimeSlots` returns are exactly the minutes on the
   * step grid from the opening hour that pass the end rule and, on the
   * current day, lie after `now`.
   */
  lemma GeneratedStartsExactly(r: SlotRequest, busy: seq<Busy>, now: int, t: int)
    requires r.stepMinutes > 0
    ensures (exists s :: s in GenerateTimeSlots(r, busy, now) && s.start == t)
      <==> OnGrid(r, t) && CanPropose(r, t) && (IsSameDay(r, now) ==> t > now)
  {
    if OnGrid(r, t) && CanPropose(r, t) && (IsSameDay(r, now) ==> t > now) {
      GeneratedStartsComplete(r, busy, now, t);
    }
    if s :| s in GenerateTimeSlots(r, busy, now) && s.start == t {
      GeneratedStartsSound(r, busy, now, s);
    }
  }

  /**
   * The last slot returned is the last grid point the end rule admits: one
   * more step would fail the guard. (The booking flow reads this slot to
   * decide whether to extend the day.)
   */
  lemma LastGeneratedSlotClosesGrid(r: SlotRequest, busy: seq<Busy>, now: int)
    requires r.stepMinutes > 0 && |GenerateTimeSlots(r, busy, now)| > 0
    ensures var g := GenerateTimeSlots(r, busy, now);
      OnGrid(r, g[|g| - 1].start) && CanPropose(r, g[|g| - 1].start) &&
      !CanPropose(r, g[|g| - 1].start + r.stepMinutes)
  {
    var g := GenerateTimeSlots(r, busy, now);
    LastGeneratedIsLastProposal(r, busy, now);
    LastProposalClosesGrid(r, busy);
    GeneratedStartsSound(r, busy, now, g[|g| - 1]);
  }

  /** The same-day filter drops a prefix, so the last slot survives it. */
  lemma LastGeneratedIsLastProposal(r: SlotRequest, busy: seq<Busy>, now: int)
    requires r.stepMinutes > 0 && |GenerateTimeSlots(r, busy, now)| > 0
    ensures var p, g := Proposals(r, busy), GenerateTimeSlots(r, busy, now);
      |p| > 0 && g[|g| - 1] == p[|p| - 1]
  {
    var p := Proposals(r, busy);
    if IsSameDay(r, now) {
      ProposalsWalkFromOpen(r, busy);
      StartingAfterIsSuffix(p, now);
    }
  }

  /** One step past the last proposal fails the guard. */
  lemma LastProposalClosesGrid(r: SlotRequest, busy: seq<Busy>)
    requires r.stepMinutes > 0 && |Proposals(r, busy)| > 0
    ensures var p := Proposals(r, busy); !CanPropose(r, p[|p| - 1].start + r.stepMinutes)
  {
    var n := |Proposals(r, busy)|;
    CandidateClosedForm(r, OpenAt(r), n - 1);
    assert (n - 1) * r.stepMinutes + r.stepMinutes == n * r.stepMinutes;
  }
}
