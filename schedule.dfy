/**
 * A provider's weekly working hours: seven mandatory days, each a
 * `DaySchedule` of start time, end time and a day-off flag, with the
 * defaults the provider schema fills in for anything left out.
 */
module Schedule {
  import opened Wrappers
  import opened TimeFormat

  datatype Weekday = Monday | Tuesday | Wednesday | Thursday | Friday | Saturday | Sunday

  /** The key under which the schedule stores a day (the English weekday name). */
  function WeekdayName(d: Weekday): string {
    match d
    case Monday => "Monday"
    case Tuesday => "Tuesday"
    case Wednesday => "Wednesday"
    case Thursday => "Thursday"
    case Friday => "Friday"
    case Saturday => "Saturday"
    case Sunday => "Sunday"
  }

  const WeekdayNames: set<string> :=
    {"Monday", "Tuesday", "Wednesday", "Thursday", "Friday", "Saturday", "Sunday"}

  /** The day stored under `name`, if `name` is one of the seven keys. */
  function ParseWeekday(name: string): (d: Option<Weekday>)
    ensures d.Some? <==> name in WeekdayNames
    ensures d.Some? ==> WeekdayName(d.value) == name
  {
    if name == "Monday" then Some(Monday)
    else if name == "Tuesday" then Some(Tuesday)
    else if name == "Wednesday" then Some(Wednesday)
    else if name == "Thursday" then Some(Thursday)
    else if name == "Friday" then Some(Friday)
    else if name == "Saturday" then Some(Saturday)
    else if name == "Sunday" then Some(Sunday)
    else None
  }

  /** The seven keys are distinct, and each names its own day. */
  lemma WeekdayKeys(d: Weekday)
    ensures |WeekdayNames| == 7
    ensures WeekdayName(d) in WeekdayNames
    ensures ParseWeekday(WeekdayName(d)) == Some(d)
  {
  }

  datatype DaySchedule = DaySchedule(startTime: string, endTime: string, isDayOff: bool)

  /** One field per day: the schedule cannot be partially populated. */
  datatype WeeklySchedule = WeeklySchedule(
    monday: DaySchedule,
    tuesday: DaySchedule,
    wednesday: DaySchedule,
    thursday: DaySchedule,
    friday: DaySchedule,
    saturday: DaySchedule,
    sunday: DaySchedule)
  {
    function Day(d: Weekday): DaySchedule {
      match d
      case Monday => monday
      case Tuesday => tuesday
      case Wednesday => wednesday
      case Thursday => thursday
      case Friday => friday
      case Saturday => saturday
      case Sunday => sunday
    }

    /** `schedule[dayName]`: nothing for a name that is not a weekday key. */
    function Lookup(dayName: string): (r: Option<DaySchedule>)
      ensures r.Some? <==> dayName in WeekdayNames
    {
      match ParseWeekday(dayName)
      case None => None
      case Some(d) => Some(Day(d))
    }
  }

  /** Every weekday key finds that day's entry. */
  lemma LookupByName(w: WeeklySchedule, d: Weekday)
    ensures w.Lookup(WeekdayName(d)) == Some(w.Day(d))
  {
    WeekdayKeys(d);
  }

  /** The fields of a day as a client supplies them; absent ones are `None`. */
  datatype DayFields = DayFields(startTime: Option<string>, endTime: Option<string>, isDayOff: Option<bool>)

  const DefaultStartTime: string := "09:00"
  const DefaultEndTime: string := "18:00"

  /** The day schema's field defaults: 09:00, 18:00 and not a day off. */
  function ApplyDayDefaults(f: DayFields): DaySchedule {
    DaySchedule(f.startTime.GetOr(DefaultStartTime), f.endTime.GetOr(DefaultEndTime), f.isDayOff.GetOr(false))
  }

  predicate IsWeekend(d: Weekday) {
    d == Saturday || d == Sunday
  }

  /** The object a day's default function yields when the day is left out:
      `{ isDayOff: true }` on the weekend, `{}` otherwise. */
  function DefaultDayFields(d: Weekday): DayFields {
    DayFields(None, None, if IsWeekend(d) then Some(true) else None)
  }

  /** The stored schedule for the days a client supplied: a supplied day gets its
      missing fields defaulted, an absent day gets its day default, which runs
      09:00 to 18:00 and is a day off exactly on the weekend. */
  function BuildSchedule(given: map<Weekday, DayFields>): (w: WeeklySchedule)
    ensures forall d :: d !in given ==>
              w.Day(d).startTime == DefaultStartTime && w.Day(d).endTime == DefaultEndTime
              && (w.Day(d).isDayOff <==> IsWeekend(d))
  {
    var w := WeeklySchedule(StoredDay(given, Monday), StoredDay(given, Tuesday), StoredDay(given, Wednesday),
                            StoredDay(given, Thursday), StoredDay(given, Friday), StoredDay(given, Saturday),
                            StoredDay(given, Sunday));
    assert forall d :: w.Day(d) == StoredDay(given, d);
    w
  }

  /** One day of the stored schedule: the supplied fields, or the day default. */
  function StoredDay(given: map<Weekday, DayFields>, d: Weekday): (day: DaySchedule)
    ensures d !in given ==>
              day.startTime == DefaultStartTime && day.endTime == DefaultEndTime && (day.isDayOff <==> IsWeekend(d))
  {
    ApplyDayDefaults(if d in given then given[d] else DefaultDayFields(d))
  }

  function DefaultSchedule(): WeeklySchedule {
    BuildSchedule(map[])
  }

  /** A supplied day keeps every field it states; the others take the defaults. */
  lemma SuppliedFieldsKept(given: map<Weekday, DayFields>, d: Weekday)
    requires d in given
    ensures given[d].startTime.Some? ==> BuildSchedule(given).Day(d).startTime == given[d].startTime.value
    ensures given[d].endTime.Some? ==> BuildSchedule(given).Day(d).endTime == given[d].endTime.value
    ensures given[d].isDayOff.Some? ==> BuildSchedule(given).Day(d).isDayOff == given[d].isDayOff.value
    ensures given[d].startTime.None? ==> BuildSchedule(given).Day(d).startTime == "09:00"
    ensures given[d].endTime.None? ==> BuildSchedule(given).Day(d).endTime == "18:00"
    ensures given[d].isDayOff.None? ==> !BuildSchedule(given).Day(d).isDayOff
  {
  }

  /** A day the client left out is stored exactly as in the all-default
      schedule, whatever else was supplied. */
  lemma AbsentDayDefaulted(given: map<Weekday, DayFields>, d: Weekday)
    requires d !in given
    ensures BuildSchedule(given).Day(d) == DefaultSchedule().Day(d)
  {
  }

  /** With nothing supplied, every day runs 09:00 to 18:00, and exactly
      Saturday and Sunday are days off. */
  lemma DefaultScheduleDays(d: Weekday)
    ensures DefaultSchedule().Day(d).startTime == "09:00"
    ensures DefaultSchedule().Day(d).endTime == "18:00"
    ensures DefaultSchedule().Day(d).isDayOff <==> d == Saturday || d == Sunday
  {
  }

  /** The default times are readable and every default open day is a
      non-empty window: 540 minutes to 1080 minutes. */
  lemma DefaultWindowsValid(d: Weekday)
    ensures IsTimeString(DefaultSchedule().Day(d).startTime)
    ensures IsTimeString(DefaultSchedule().Day(d).endTime)
    ensures GetMinutes(DefaultSchedule().Day(d).startTime) == 540
    ensures GetMinutes(DefaultSchedule().Day(d).endTime) == 1080
  {
    DefaultScheduleDays(d);
    DefaultTimesRead();
  }

  lemma DefaultTimesRead()
    ensures IsTimeString(DefaultStartTime) && GetMinutes(DefaultStartTime) == 540
    ensures IsTimeString(DefaultEndTime) && GetMinutes(DefaultEndTime) == 1080
  {
    assert DefaultStartTime == "09" + [Colon] + "00";
    assert DefaultEndTime == "18" + [Colon] + "00";
    assert Number("09") == 9 by { assert "09"[..1] == "0"; }
    assert Number("18") == 18 by { assert "18"[..1] == "1"; }
    assert Number("00") == 0 by { assert "00"[..1] == "0"; }
    GetMinutesOfParts("09", "00");
    GetMinutesOfParts("18", "00");
  }
}
