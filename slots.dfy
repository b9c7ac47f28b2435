/**
 * The availability-slot engine of the slot controller: booked appointments
 * become half-open busy intervals, and the day's working window is walked in
 * 30-minute steps, keeping each start that fits, is not past and overlaps no
 * busy interval. The database reads and the clock are parameters here.
 */
module Slots {
  import opened Wrappers
  import opened TimeFormat
  import opened Schedule

  /** Distance between successive candidate starts, in minutes. */
  const Step: nat := 30

  datatype Status = Pending | Confirmed | Cancelled

  /** An appointment of the provider on the requested date. `serviceDuration`
      is `None` when its service reference does not resolve. */
  datatype Appointment = Appointment(slotTime: string, serviceDuration: Option<int>, status: Status)

  /** The half-open minute range `[start, end)`. */
  datatype Interval = Interval(start: int, end: int)

  // ---------------------------------------------------------------------
  // Busy intervals
  // ---------------------------------------------------------------------

  /** Appointments that occupy the provider: not cancelled, with a known service. */
  predicate Blocking(a: Appointment) {
    a.status != Cancelled && a.serviceDuration.Some?
  }

  /** Every appointment whose time is ever read has a readable time. */
  predicate WellFormedBookings(appts: seq<Appointment>) {
    forall j :: 0 <= j < |appts| ==> Blocking(appts[j]) ==> IsTimeString(appts[j].slotTime)
  }

  /** The minutes a blocking appointment occupies: they begin at the hour and
      minute written in its slot time and last as long as its service. */
  function BookedInterval(a: Appointment): (b: Interval)
    requires Blocking(a) && IsTimeString(a.slotTime)
    ensures b.end - b.start == a.serviceDuration.value
  {
    var start := GetMinutes(a.slotTime);
    Interval(start, start + a.serviceDuration.value)
  }

  /** `b` is the interval of some blocking appointment in `appts`. */
  predicate IsBookedBy(appts: seq<Appointment>, b: Interval)
    requires WellFormedBookings(appts)
  {
    exists j :: 0 <= j < |appts| && Blocking(appts[j]) && b == BookedInterval(appts[j])
  }

  /** The busy intervals of a day: exactly the intervals of the blocking
      appointments, so cancelled appointments and those without a resolvable
      service contribute nothing. */
  function BuildBusy(appts: seq<Appointment>): (busy: seq<Interval>)
    requires WellFormedBookings(appts)
    ensures forall b :: b in busy <==> IsBookedBy(appts, b)
  {
    if appts == [] then []
    else
      var tail := appts[1..];
      var rest := BuildBusy(tail);
      var head := if Blocking(appts[0]) then [BookedInterval(appts[0])] else [];
      assert forall b :: IsBookedBy(appts, b) <==> b in head || IsBookedBy(tail, b) by {
        forall b
          ensures IsBookedBy(appts, b) <==> b in head || IsBookedBy(tail, b)
        {
          IsBookedByCons(appts, b);
        }
      }
      head + rest
  }

  /** The first appointment books `b`, or one of the others does. */
  lemma IsBookedByCons(appts: seq<Appointment>, b: Interval)
    requires WellFormedBookings(appts) && appts != []
    ensures WellFormedBookings(appts[1..])
    ensures IsBookedBy(appts, b) <==>
            (Blocking(appts[0]) && b == BookedInterval(appts[0])) || IsBookedBy(appts[1..], b)
  {
    var tail := appts[1..];
    assert forall k :: 0 <= k < |tail| ==> tail[k] == appts[k + 1];
    if IsBookedBy(appts, b) {
      var j :| 0 <= j < |appts| && Blocking(appts[j]) && b == BookedInterval(appts[j]);
      if j > 0 {
        assert tail[j - 1] == appts[j];
      }
    }
  }

  /** Standard half-open overlap; touching at an endpoint is not overlap. */
  predicate Overlaps(slotStart: int, slotEnd: int, b: Interval) {
    slotStart < b.end && slotEnd > b.start
  }

  predicate IsBlocked(slotStart: int, slotEnd: int, busy: seq<Interval>) {
    exists i :: 0 <= i < |busy| && Overlaps(slotStart, slotEnd, busy[i])
  }

  /** The test run for one appointment against one candidate: `false` for a
      missing service, otherwise overlap with the appointment's minutes. A
      slot that ends where the booking starts or starts where it ends does not
      overlap; a slot that covers the start of a booking of positive length
      does. */
  function AppointmentOverlaps(a: Appointment, slotStart: int, slotEnd: int): (r: bool)
    requires a.serviceDuration.Some? ==> IsTimeString(a.slotTime)
    ensures a.serviceDuration.None? ==> !r
    ensures a.serviceDuration.Some? ==>
              (slotEnd <= GetMinutes(a.slotTime) || GetMinutes(a.slotTime) + a.serviceDuration.value <= slotStart ==> !r)
    ensures a.serviceDuration.Some? && a.serviceDuration.value > 0 ==>
              (slotStart <= GetMinutes(a.slotTime) < slotEnd ==> r)
  {
    match a.serviceDuration
    case None => false
    case Some(duration) =>
      var apptStart := GetMinutes(a.slotTime);
      var apptEnd := apptStart + duration;
      slotStart < apptEnd && slotEnd > apptStart
  }

  /** A slot is blocked by the busy intervals exactly when some non-cancelled
      appointment's own overlap test says so; unresolvable and cancelled
      appointments never block. */
  lemma BusyMatchesAppointments(appts: seq<Appointment>, slotStart: int, slotEnd: int)
    requires WellFormedBookings(appts)
    ensures IsBlocked(slotStart, slotEnd, BuildBusy(appts)) <==>
            exists j :: 0 <= j < |appts| && appts[j].status != Cancelled
                        && AppointmentOverlaps(appts[j], slotStart, slotEnd)
  {
    var busy := BuildBusy(appts);
    if IsBlocked(slotStart, slotEnd, busy) {
      var i :| 0 <= i < |busy| && Overlaps(slotStart, slotEnd, busy[i]);
      assert busy[i] in busy;
      var j :| 0 <= j < |appts| && Blocking(appts[j]) && busy[i] == BookedInterval(appts[j]);
      assert AppointmentOverlaps(appts[j], slotStart, slotEnd);
    }
    if exists j :: 0 <= j < |appts| && appts[j].status != Cancelled
                   && AppointmentOverlaps(appts[j], slotStart, slotEnd) {
      var j :| 0 <= j < |appts| && appts[j].status != Cancelled
               && AppointmentOverlaps(appts[j], slotStart, slotEnd);
      var b := BookedInterval(appts[j]);
      assert IsBookedBy(appts, b);
      var i :| 0 <= i < |busy| && busy[i] == b;
      assert Overlaps(slotStart, slotEnd, busy[i]);
    }
  }

  // ---------------------------------------------------------------------
  // Slot generation
  // ---------------------------------------------------------------------

  /** On today's date a start at or before the current minute is past. */
  predicate IsPast(slotStart: int, isToday: bool, nowMinutes: int) {
    isToday && slotStart <= nowMinutes
  }

  /** `x` is `origin + Step * k` for some `k >= 0`. */
  predicate OnGrid(origin: int, x: int) {
    origin <= x && (x - origin) % Step == 0
  }

  /** A start the engine offers: on the grid from the window's start, the
      whole service fits before the window's end, not past, not blocked. */
  predicate Offerable(origin: int, endMinutes: int, duration: int, busy: seq<Interval>,
                      isToday: bool, nowMinutes: int, x: int) {
    OnGrid(origin, x) && x + duration <= endMinutes
    && !IsPast(x, isToday, nowMinutes) && !IsBlocked(x, x + duration, busy)
  }

  lemma OnGridStep(origin: int, x: int)
    ensures OnGrid(origin + Step, x) ==> OnGrid(origin, x)
    ensures OnGrid(origin, x) && x != origin ==> OnGrid(origin + Step, x)
  {
  }

  /** The starts the walk from `cursor` emits, in emission order: each one
      offerable, strictly ascending. */
  function SlotsFrom(cursor: nat, endMinutes: int, duration: int, busy: seq<Interval>,
                     isToday: bool, nowMinutes: int): (r: seq<nat>)
    ensures forall i :: 0 <= i < |r| ==> Offerable(cursor, endMinutes, duration, busy, isToday, nowMinutes, r[i])
    ensures forall i, j :: 0 <= i < j < |r| ==> r[i] < r[j]
    decreases endMinutes - duration - cursor
  {
    if cursor + duration > endMinutes then []
    else
      var rest := SlotsFrom(cursor + Step, endMinutes, duration, busy, isToday, nowMinutes);
      assert forall x :: OnGrid(cursor + Step, x) ==> OnGrid(cursor, x) && cursor < x by {
        forall x ensures OnGrid(cursor + Step, x) ==> OnGrid(cursor, x) && cursor < x {
          OnGridStep(cursor, x);
        }
      }
      if IsPast(cursor, isToday, nowMinutes) || IsBlocked(cursor, cursor + duration, busy) then rest
      else [cursor] + rest
  }

  /** Completeness: every offerable start is emitted. */
  lemma {:induction false} SlotsFromComplete(cursor: nat, endMinutes: int, duration: int, busy: seq<Interval>,
                                            isToday: bool, nowMinutes: int, x: int)
    requires Offerable(cursor, endMinutes, duration, busy, isToday, nowMinutes, x)
    ensures x in SlotsFrom(cursor, endMinutes, duration, busy, isToday, nowMinutes)
    decreases x - cursor
  {
    if x != cursor {
      OnGridStep(cursor, x);
      SlotsFromComplete(cursor + Step, endMinutes, duration, busy, isToday, nowMinutes, x);
    }
  }

  /** The emitted starts are exactly the offerable ones. */
  lemma SlotsMembership(start: nat, endMinutes: int, duration: int, busy: seq<Interval>,
                        isToday: bool, nowMinutes: int, x: int)
    ensures x in SlotsFrom(start, endMinutes, duration, busy, isToday, nowMinutes)
            <==> Offerable(start, endMinutes, duration, busy, isToday, nowMinutes, x)
  {
    if Offerable(start, endMinutes, duration, busy, isToday, nowMinutes, x) {
      SlotsFromComplete(start, endMinutes, duration, busy, isToday, nowMinutes, x);
    }
  }

  /** A grid start that only touches busy intervals (ending where one begins
      or starting where one ends) is still offered. */
  lemma TouchingSlotOffered(start: nat, endMinutes: int, duration: int, busy: seq<Interval>,
                            isToday: bool, nowMinutes: int, x: int)
    requires OnGrid(start, x) && x + duration <= endMinutes && !IsPast(x, isToday, nowMinutes)
    requires forall i :: 0 <= i < |busy| ==> x + duration <= busy[i].start || busy[i].end <= x
    ensures x in SlotsFrom(start, endMinutes, duration, busy, isToday, nowMinutes)
  {
    SlotsFromComplete(start, endMinutes, duration, busy, isToday, nowMinutes, x);
  }

  /** With nothing booked and no past cut-off the walk emits every fitting
      grid point: floor((end - start - duration) / 30) + 1 of them, or none. */
  lemma {:induction false} UnobstructedCount(start: nat, endMinutes: int, duration: int, nowMinutes: int)
    ensures |SlotsFrom(start, endMinutes, duration, [], false, nowMinutes)| ==
            if endMinutes - start - duration >= 0 then (endMinutes - start - duration) / Step + 1 else 0
    decreases endMinutes - duration - start
  {
    if start + duration <= endMinutes {
      UnobstructedCount(start + Step, endMinutes, duration, nowMinutes);
    }
  }

  /** The emitted starts as the texts the engine returns. */
  function SlotTexts(starts: seq<nat>): (texts: seq<string>)
    ensures |texts| == |starts|
    ensures forall i :: 0 <= i < |texts| ==> texts[i] == FormatTime(starts[i])
  {
    if starts == [] then [] else SlotTexts(starts[..|starts| - 1]) + [FormatTime(starts[|starts| - 1])]
  }

  /** Each returned text reads back as the start it was written from, so the
      texts are as ascending as the starts. */
  lemma SlotTextsRead(starts: seq<nat>)
    requires forall i, j :: 0 <= i < j < |starts| ==> starts[i] < starts[j]
    ensures forall i :: 0 <= i < |starts| ==>
              IsTimeString(SlotTexts(starts)[i]) && GetMinutes(SlotTexts(starts)[i]) == starts[i]
    ensures forall i, j :: 0 <= i < j < |starts| ==>
              GetMinutes(SlotTexts(starts)[i]) < GetMinutes(SlotTexts(starts)[j])
  {
    forall i | 0 <= i < |starts|
      ensures IsTimeString(SlotTexts(starts)[i]) && GetMinutes(SlotTexts(starts)[i]) == starts[i]
    {
      FormatTimeRoundTrip(starts[i]);
    }
  }

  /** On today's date nothing at or before the current minute is offered, the
      current minute itself included. */
  lemma PastSlotsExcluded(start: nat, endMinutes: int, duration: int, busy: seq<Interval>, nowMinutes: int)
    ensures forall x :: x in SlotsFrom(start, endMinutes, duration, busy, true, nowMinutes) ==> x > nowMinutes
  {
  }

  /** A window of 09:00-12:00 with nothing booked offers the six half-hours. */
  lemma ScenarioOpenMorning()
    ensures SlotsFrom(540, 720, 30, [], false, 0) == [540, 570, 600, 630, 660, 690]
  {
  }

  /** An hour from 09:00 as the texts the engine returns. */
  lemma ScenarioHourTexts()
    ensures var t := SlotTexts(SlotsFrom(540, 600, 30, [], false, 0));
            |t| == 2 && t[0] == "09:00" && t[1] == "09:30"
  {
    HourStarts();
    FormatTimeOf(9, 0, "09", "00");
    FormatTimeOf(9, 30, "09", "30");
  }

  lemma HourStarts()
    ensures SlotsFrom(540, 600, 30, [], false, 0) == [540, 570]
  {
  }

  /** A pending 30-minute booking at 10:00 becomes the busy interval
      [600, 630); a cancelled one at 09:00 contributes nothing. */
  lemma ScenarioBusy()
    ensures var appts := [Appointment("10:00", Some(30), Pending), Appointment("09:00", Some(60), Cancelled)];
            WellFormedBookings(appts) && BuildBusy(appts) == [Interval(600, 630)]
  {
    var appts := [Appointment("10:00", Some(30), Pending), Appointment("09:00", Some(60), Cancelled)];
    assert "10:00" == "10" + [Colon] + "00";
    assert Number("10") == 10 by { assert "10"[..1] == "1"; }
    assert Number("00") == 0 by { assert "00"[..1] == "0"; }
    GetMinutesOfParts("10", "00");
    assert WellFormedBookings(appts);
    assert BuildBusy(appts[1..]) == [];
  }

  /** Those two appointments take just the 10:00 start out of the morning. */
  lemma ScenarioOneBooking()
    ensures var appts := [Appointment("10:00", Some(30), Pending), Appointment("09:00", Some(60), Cancelled)];
            WellFormedBookings(appts)
            && SlotsFrom(540, 720, 30, BuildBusy(appts), false, 0) == [540, 570, 630, 660, 690]
  {
    ScenarioBusy();
    MorningAroundBooking();
  }

  lemma MorningAroundBooking()
    ensures SlotsFrom(540, 720, 30, [Interval(600, 630)], false, 0) == [540, 570, 630, 660, 690]
  {
    var busy := [Interval(600, 630)];
    assert Overlaps(600, 630, busy[0]);
    assert SlotsFrom(600, 720, 30, busy, false, 0) == SlotsFrom(630, 720, 30, busy, false, 0);
  }

  /** A day whose start equals its end still offers its start to a service of
      no length: nothing rejects a zero duration. */
  lemma ScenarioZeroDuration()
    ensures SlotsFrom(540, 540, 0, [], false, 0) == [540]
  {
  }

  /** A negative duration lets starts after the window's end through the
      guard: only `start + duration <= end` is checked. */
  lemma ScenarioNegativeDuration()
    ensures SlotsFrom(540, 540, -60, [], false, 0) == [540, 570, 600]
  {
  }

  /** A window shorter than the service offers nothing, whatever is booked. */
  lemma NoRoomNoSlots(start: nat, endMinutes: int, duration: int, busy: seq<Interval>,
                      isToday: bool, nowMinutes: int)
    requires start + duration > endMinutes
    ensures SlotsFrom(start, endMinutes, duration, busy, isToday, nowMinutes) == []
  {
  }

  /** A 45-minute service in 09:00-10:00: 09:30 would end at 10:15, so only 09:00. */
  lemma ScenarioLongService()
    ensures SlotsFrom(540, 600, 45, [], false, 0) == [540]
  {
  }

  /** Today at 10:15 in a 09:00-18:00 window: 09:00 to 10:00 are past, 10:30 is the first offer. */
  lemma ScenarioToday()
    ensures var r := SlotsFrom(540, 1080, 30, [], true, 615); |r| > 0 && r[0] == 630
  {
    assert SlotsFrom(540, 1080, 30, [], true, 615) == SlotsFrom(570, 1080, 30, [], true, 615);
    assert SlotsFrom(570, 1080, 30, [], true, 615) == SlotsFrom(600, 1080, 30, [], true, 615);
    assert SlotsFrom(600, 1080, 30, [], true, 615) == SlotsFrom(630, 1080, 30, [], true, 615);
    SlotsFromUnfold(630, 1080, 30, [], true, 615);
  }

  /** The slot generation loop over a working window. */
  method Generate(window: DaySchedule, duration: int, busy: seq<Interval>, isToday: bool, nowMinutes: int)
    returns (slots: seq<string>)
    requires IsTimeString(window.startTime) && IsTimeString(window.endTime)
    ensures var r := SlotsFrom(GetMinutes(window.startTime), GetMinutes(window.endTime), duration, busy, isToday, nowMinutes);
            slots == SlotTexts(r)
  {
    var currentMinutes := GetMinutes(window.startTime);
    var endMinutes := GetMinutes(window.endTime);
    ghost var all := SlotsFrom(currentMinutes, endMinutes, duration, busy, isToday, nowMinutes);
    ghost var emitted: seq<nat> := [];
    slots := [];
    while currentMinutes + duration <= endMinutes
      invariant emitted + SlotsFrom(currentMinutes, endMinutes, duration, busy, isToday, nowMinutes) == all
      invariant slots == SlotTexts(emitted)
      decreases endMinutes - duration - currentMinutes
    {
      var slotStart := currentMinutes;
      var slotEnd := currentMinutes + duration;
      GenerateStep(currentMinutes, endMinutes, duration, busy, isToday, nowMinutes, emitted, all);
      if isToday && slotStart <= nowMinutes {
        currentMinutes := currentMinutes + Step;
        continue;
      }
      var isOverlapping := IsBlocked(slotStart, slotEnd, busy);
      if !isOverlapping {
        slots := slots + [FormatTime(slotStart)];
        emitted := emitted + [slotStart];
      }
      currentMinutes := currentMinutes + Step;
    }
    assert emitted + [] == emitted;
  }

  /** One turn of the loop: the candidate at `cursor` is skipped or appended,
      and the walk goes on from `cursor + Step` towards the same result. */
  lemma GenerateStep(cursor: nat, endMinutes: int, duration: int, busy: seq<Interval>,
                     isToday: bool, nowMinutes: int, emitted: seq<nat>, all: seq<nat>)
    requires cursor + duration <= endMinutes
    requires emitted + SlotsFrom(cursor, endMinutes, duration, busy, isToday, nowMinutes) == all
    ensures var next := SlotsFrom(cursor + Step, endMinutes, duration, busy, isToday, nowMinutes);
            if IsPast(cursor, isToday, nowMinutes) || IsBlocked(cursor, cursor + duration, busy)
            then emitted + next == all
            else (emitted + [cursor]) + next == all
                 && SlotTexts(emitted + [cursor]) == SlotTexts(emitted) + [FormatTime(cursor)]
  {
    var next := SlotsFrom(cursor + Step, endMinutes, duration, busy, isToday, nowMinutes);
    SlotsFromUnfold(cursor, endMinutes, duration, busy, isToday, nowMinutes);
    assert (emitted + [cursor]) + next == emitted + ([cursor] + next);
    SlotTextsSnoc(emitted, cursor);
  }

  lemma SlotTextsSnoc(starts: seq<nat>, x: nat)
    ensures SlotTexts(starts + [x]) == SlotTexts(starts) + [FormatTime(x)]
  {
    assert (starts + [x])[..|starts|] == starts;
  }

  lemma SlotsFromUnfold(cursor: nat, endMinutes: int, duration: int, busy: seq<Interval>,
                        isToday: bool, nowMinutes: int)
    requires cursor + duration <= endMinutes
    ensures var rest := SlotsFrom(cursor + Step, endMinutes, duration, busy, isToday, nowMinutes);
            SlotsFrom(cursor, endMinutes, duration, busy, isToday, nowMinutes) ==
              if IsPast(cursor, isToday, nowMinutes) || IsBlocked(cursor, cursor + duration, busy) then rest
              else [cursor] + rest
  {
  }

  /** A day with a schedule entry that is not a day off. */
  predicate IsOpen(day: Option<DaySchedule>) {
    day.Some? && !day.value.isDayOff
  }

  /** Slots for one provider, one service and one date: none on a missing or
      day-off schedule entry, otherwise the generated slots over that day's
      window against the busy intervals of the day's appointments. */
  method GetAvailableSlots(schedule: WeeklySchedule, dayName: string, serviceDuration: int,
                           appointments: seq<Appointment>, isToday: bool, nowMinutes: int)
    returns (slots: seq<string>)
    requires IsOpen(schedule.Lookup(dayName)) ==>
               IsTimeString(schedule.Lookup(dayName).value.startTime)
               && IsTimeString(schedule.Lookup(dayName).value.endTime)
               && WellFormedBookings(appointments)
    ensures !IsOpen(schedule.Lookup(dayName)) ==> slots == []
    ensures IsOpen(schedule.Lookup(dayName)) ==>
              var day := schedule.Lookup(dayName).value;
              var r := SlotsFrom(GetMinutes(day.startTime), GetMinutes(day.endTime), serviceDuration,
                                 BuildBusy(appointments), isToday, nowMinutes);
              slots == SlotTexts(r)
  {
    var day := schedule.Lookup(dayName);
    if day.None? || day.value.isDayOff {
      return [];
    }
    var busy := BuildBusy(appointments);
    slots := Generate(day.value, serviceDuration, busy, isToday, nowMinutes);
  }
}
