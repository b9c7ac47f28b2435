# Availability-slot engine of the booking system

This project models the availability-slot engine of an appointment-booking
web application. Given a provider's weekly working hours, the weekday of the
requested date, the duration of the requested service and the provider's
appointments on that date, the engine works out which start times are still
bookable. It returns them as zero-padded `"HH:MM"` texts in ascending order.

The model has four modules:

- `Wrappers` holds `Option`.
- `TimeFormat` models `getMinutes`, which reads `"HH:MM"` into minutes since
  midnight, and `formatTime`, which writes minutes back as `"HH:MM"`. The
  module builds the digit-level pieces these need: `split(':')`, `Number` on
  digit strings, integer `toString` and `padStart(2, '0')`.
- `Schedule` models the provider schema's weekly schedule. It is a record
  with seven mandatory days, each a `DaySchedule` of start time, end time and
  day-off flag. It also models the schema defaults (09:00 to 18:00, weekend
  off) and the `schedule[dayName]` lookup.
- `Slots` models the request itself:
  - `BuildBusy` turns appointments into half-open busy intervals. It drops
    cancelled appointments and those whose service does not resolve.
  - `SlotsFrom` is the pure specification of the 30-minute walk.
  - `Generate` is the `while` loop, proved equal to that specification.
  - `GetAvailableSlots` adds the day-off check in front.

The proved properties cover the round trip between text and minutes, and the
padding of the text. They also cover the seven schedule keys and their
defaults. For the walk, every emitted start `s` lies on the 30-minute grid
from the window's start, and `s + duration` is not after the window's end (so
with a negative duration a start may lie after the end). The starts are
strictly ascending, never past when the date is today, and never overlapping
a busy interval. A slot that only touches a busy
interval is still offered. Every start with all these properties is emitted,
so the output is exactly the set of offerable starts, in ascending order.
When nothing is booked and the date is not today, the number of slots is
`floor((end - start - duration) / 30) + 1` if that is not negative, and 0
otherwise.

Some behaviours of the code are kept as they are:

- The step is the constant 30. It is not a parameter.
- A service duration is any integer, and nothing rejects a zero or negative
  one. The loop ends anyway, because the cursor rises by 30 against a fixed
  bound.
- A day whose start is not before its end is not rejected. With a positive
  service duration it yields no slots. With a zero or negative one the walk
  still emits every start whose start plus duration is not after the end: a
  window of 09:00 to 09:00 offers 09:00 to a service of length 0.
- An appointment whose service does not resolve is skipped. It does not get a
  fallback duration.
- A malformed time text is not a reported error. In the code it yields `NaN`;
  here it is excluded by a precondition (see "Left out").

## Model

| member | source | states |
|---|---|---|
| `TimeFormat.ColonIndex` | backend/controllers/slotController.js:7 | the index returned is the first colon of the text, or the text's length when it has none |
| `TimeFormat.DecimalText` | backend/controllers/slotController.js:13-14 | an integer's `toString` is a non-empty digit string: one digit below 10, two digits from 10 to 99 |
| `TimeFormat.NumberOfDecimalText` | backend/controllers/slotController.js:13-14 | reading an integer's decimal text gives the integer back |
| `TimeFormat.DecimalTextOfNumber` | backend/controllers/slotController.js:13-14 | a digit string without a leading zero is the `toString` of its own value |
| `TimeFormat.NumberOfLeadingZero` | backend/controllers/slotController.js:7 | a leading zero does not change the value `Number` reads |
| `TimeFormat.PadStartDigits` | backend/controllers/slotController.js:13-14 | `padStart(2, '0')` on a digit string gives a digit string of length at least 2 with the same value |
| `TimeFormat.PadStartOfNumber` | backend/controllers/slotController.js:13-14 | two digits, or more without a leading zero, come back unchanged from reading, `toString` and `padStart(2, '0')` |
| `TimeFormat.GetMinutes` | backend/controllers/slotController.js:6-9 | when the minute field is below 60, the result divided by 60 is the hour field and its remainder is the minute field |
| `TimeFormat.GetMinutesRoundTrip` | backend/controllers/slotController.js:6-16 | `formatTime(getMinutes(s)) == s` for every text of the form `formatTime` writes: two minute digits below 60, and two hour digits or more without a leading zero |
| `TimeFormat.GetMinutesOfParts` | backend/controllers/slotController.js:6-9 | for any digit fields `h` and `m`, the text `h:m` splits at its only colon and reads as `h * 60 + m` |
| `TimeFormat.FormatTimeShape` | backend/controllers/slotController.js:12-16 | `formatTime` always gives a readable time with at least two hour digits and exactly two minute digits |
| `TimeFormat.FormatTimeRoundTrip` | backend/controllers/slotController.js:6-16 | `getMinutes(formatTime(m)) == m` for every `m >= 0`, hours past 23 included |
| `TimeFormat.FormatTimeInjective` | backend/controllers/slotController.js:12-16 | two different minute counts never give the same text |
| `TimeFormat.FormatTimeExamples` | backend/controllers/slotController.js:12-16 | 540 is written "09:00", 605 is written "10:05" and 1500 is written "25:00" |
| `Schedule.ParseWeekday` | backend/models/Provider.js:12-20 | a name finds a day exactly when it is one of the seven schedule keys, and the day found has that name |
| `Schedule.WeekdayKeys` | backend/models/Provider.js:12-20 | there are exactly seven distinct keys, Monday to Sunday, and each one names its own day |
| `Schedule.WeeklySchedule.Lookup` | backend/controllers/slotController.js:30-31 | `schedule[dayName]` gives an entry exactly when the name is a weekday key |
| `Schedule.LookupByName` | backend/controllers/slotController.js:31 | looking up a day's key gives that day's entry |
| `Schedule.BuildSchedule` | backend/models/Provider.js:12-20 | a day the client left out runs 09:00 to 18:00 and is a day off exactly on Saturday and Sunday |
| `Schedule.StoredDay` | backend/models/Provider.js:13-19 | the stored entry of a day left out has the default times, and its day-off flag is set exactly on the weekend |
| `Schedule.AbsentDayDefaulted` | backend/models/Provider.js:13-19 | a day left out is stored exactly as in the all-default schedule, whatever the other days say |
| `Schedule.SuppliedFieldsKept` | backend/models/Provider.js:3-7 | a supplied day keeps each field it states, and each missing field becomes "09:00", "18:00" or not a day off |
| `Schedule.DefaultScheduleDays` | backend/models/Provider.js:13-19 | with nothing supplied, every day runs 09:00 to 18:00, and exactly Saturday and Sunday are days off |
| `Schedule.DefaultTimesRead` | backend/models/Provider.js:4-5 | "09:00" reads as 540 minutes and "18:00" reads as 1080 minutes |
| `Schedule.DefaultWindowsValid` | backend/models/Provider.js:3-19 | every default day has readable times and a window from 540 to 1080, so start is before end |
| `Slots.BookedInterval` | backend/controllers/slotController.js:94-96 | the busy interval of an appointment lasts exactly its service's duration |
| `Slots.AppointmentOverlaps` | backend/controllers/slotController.js:92-99 | an appointment without a service never overlaps; a slot ending where the booking starts or starting where it ends does not overlap; a slot covering the start of a booking of positive length does |
| `Slots.IsBookedByCons` | backend/controllers/slotController.js:92-100 | the first appointment books an interval, or one of the others does: the step that makes the busy list follow the appointment list |
| `Slots.BuildBusy` | backend/controllers/slotController.js:73-96 | the busy intervals are exactly `[slotTime, slotTime + duration)` of the non-cancelled appointments whose service resolves |
| `Slots.BusyMatchesAppointments` | backend/controllers/slotController.js:92-100 | a slot is blocked by the busy intervals exactly when the per-appointment overlap test holds for some non-cancelled appointment, and an unresolvable service never blocks |
| `Slots.SlotsFrom` | backend/controllers/slotController.js:82-108 | every emitted start is on the 30-minute grid from the window start, fits before the window end, is not past and overlaps no busy interval; the starts are strictly ascending |
| `Slots.SlotsFromComplete` | backend/controllers/slotController.js:82-108 | every grid start that fits, is not past and overlaps nothing is emitted |
| `Slots.SlotsMembership` | backend/controllers/slotController.js:82-108 | a start is emitted if and only if it is offerable |
| `Slots.TouchingSlotOffered` | backend/controllers/slotController.js:98-99 | a slot that ends where a booking begins, or begins where one ends, is still offered |
| `Slots.UnobstructedCount` | backend/controllers/slotController.js:82-107 | with nothing booked and no past cut-off there are `floor((end - start - duration) / 30) + 1` slots when that is non-negative, and none otherwise |
| `Slots.PastSlotsExcluded` | backend/controllers/slotController.js:87-90 | when the date is today, every offered start is strictly after the current minute, so a start at the current minute is excluded |
| `Slots.ScenarioOpenMorning` | backend/controllers/slotController.js:82-108 | 09:00-12:00 with a 30-minute service and no bookings gives the six half-hour starts |
| `Slots.ScenarioHourTexts` | backend/controllers/slotController.js:82-108 | 09:00-10:00 with a 30-minute service and no bookings returns the texts "09:00" and "09:30" |
| `Slots.ScenarioBusy` | backend/controllers/slotController.js:73-96 | a pending 30-minute appointment at 10:00 gives the busy interval [600, 630), and a cancelled one at 09:00 gives nothing |
| `Slots.ScenarioOneBooking` | backend/controllers/slotController.js:73-104 | those two appointments remove exactly the 10:00 start from 09:00-12:00 |
| `Slots.MorningAroundBooking` | backend/controllers/slotController.js:92-104 | the busy interval [600, 630) removes exactly the 10:00 start from 09:00-12:00 |
| `Slots.ScenarioZeroDuration` | backend/controllers/slotController.js:82-84 | a window from 09:00 to 09:00 offers 09:00 to a service of length 0 |
| `Slots.ScenarioNegativeDuration` | backend/controllers/slotController.js:82-84 | a window from 09:00 to 09:00 offers 09:00, 09:30 and 10:00 to a service of length -60: starts after the end pass the guard |
| `Slots.NoRoomNoSlots` | backend/controllers/slotController.js:82 | a window shorter than the service offers nothing, whatever is booked |
| `Slots.ScenarioLongService` | backend/controllers/slotController.js:82-84 | a 45-minute service in 09:00-10:00 gives only 09:00 |
| `Slots.ScenarioToday` | backend/controllers/slotController.js:87-90 | today at 10:15 in 09:00-18:00, the first start offered is 10:30 |
| `Slots.SlotTexts` | backend/controllers/slotController.js:103 | there is one text per start, and each text is that start's `formatTime` |
| `Slots.SlotTextsRead` | backend/controllers/slotController.js:103 | each returned text reads back as its start, so the texts are in ascending time order |
| `Slots.Generate` | backend/controllers/slotController.js:63-108 | the loop returns exactly the formatted starts of the walk specification for the window, the duration, the busy intervals and the clock |
| `Slots.GenerateStep` | backend/controllers/slotController.js:83-107 | one turn of the loop keeps the loop's output on course: a skipped start leaves it as it is, an offered one appends its text |
| `Slots.GetAvailableSlots` | backend/controllers/slotController.js:30-108 | a missing or day-off schedule entry gives the empty list; otherwise the result is the loop's output over that day's window against the day's busy intervals |

## Left out

- The database reads are left out: `Provider.findById`, `Service.findById` and both `Appointment.find` queries. Their results are parameters. The provider's schedule, the service duration and the appointments of the date come in as values. The cancelled filter of the query is applied by `BuildBusy`. The first appointment query is never used by the code and has no counterpart.
- The 400 and 404 responses for missing parameters, provider or service are left out. So is the 500 response for thrown errors. All of this is HTTP wiring around the engine.
- Date, clock and locale handling is left out. The weekday name that `toLocaleString` produces, whether the date is today, and the current minute are parameters. The day range built with `setHours` belongs to the query and is not modelled. A name that is not a weekday key, such as the text of an invalid date, finds no schedule entry.
- `TimeFormat.GetMinutes`: defined only on digits, one colon, digits. The code passes any other text to JavaScript's `Number`. That gives `NaN` for most text and numbers for some, such as an empty field or surrounding spaces. Callers must supply well-formed times: the window of an open day and the slot time of every appointment that can block.
- `TimeFormat.FormatTime`: defined on non-negative minutes only. The code calls it only on the cursor, which starts at a value `getMinutes` gave.
- Durations and minute counts are unbounded integers. A service's duration is a JavaScript number in the service model, and nothing makes it whole, so a fractional duration is possible there and is not modelled. Neither is the rounding of double-precision arithmetic, which is exact only below 2^53; the round trip between text and minutes relies on exact integers.
- Mongoose's schema machinery is left out: type casting, validation, `_id` and timestamps. The schedule is a record with seven mandatory days, and the defaults are modelled as a function from the fields a client supplied.
- The rest of the application is left out: the provider and appointment controllers, the routes and server, authentication, and the whole React front end, including its calendar mapping and its display-only 60-minute fallback.
- Concurrency is left out. This covers the parallel fetches and double-booking races at the storage layer.
