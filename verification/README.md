# Booking slots of the Prescripto appointment page

The appointment page of Prescripto (`src/pages/Appointment.jsx`) offers a
doctor's booking slots. This project models its booking core in Dafny:

- **The slot generator** (`getAvailableSlots`). Starting from the current
  date and time, it builds one bucket of half-hour slots for today and for
  each of the next six days. Each slot carries its timestamp, its 12-hour
  label such as `"03:30 PM"`, and an `available` flag. The flag is false
  exactly for the labels on the blocked list (`12:00 PM`, `03:30 PM`,
  `05:00 PM`). Empty buckets are dropped.
- **The selection state.** `slotIndex` says which day chip is picked and
  `slotTime` which time is picked. Clicking a day chip sets the day. Clicking
  an available time pill sets the time. Clicking an unavailable pill only
  shows the "not available" toast. The booking button is disabled while no
  time is picked.
- **The booking record** (`bookAppointment`). It takes the date of the
  picked day's first slot and builds the key `D_M_YYYY` with no padding, such
  as `"5_3_2026"`. It logs that key with the picked time.

Modules, in dependency order:

| module | file | what it holds |
|---|---|---|
| `Wrappers` | `wrappers.dfy` | `Option` |
| `Decimal` | `decimal.dfy` | unpadded decimal rendering of integers, as a template literal prints them, and its parser |
| `CivilDate` | `civil_date.dfy` | Gregorian dates, `NextDay`, and `AddDays`, the month and year roll-over of `setDate(getDate() + i)` |
| `TimeLabel` | `time_label.dfy` | the en-US label `"hh:mm AM"` of a minute of the day, and its parser |
| `Slots` | `slots.dfy` | `Schedule`, the buckets as a function of "now"; `GenerateSlots` and `FillDay`, the source's two loops, proved to compute it; properties of the buckets |
| `DateKey` | `date_key.dfy` | the `D_M_YYYY` key, a `'_'` splitter, and the parser that inverts the key |
| `Booking` | `booking.dfy` | the selection state machine `Step` and its fold `Run` over click sequences |

Times of day are minutes since midnight. 10:00 is minute 600, the 21:00
closing time is minute 1260, and slots are 30 minutes apart. The current
time is a parameter `Now(date, hour, minute)`.

One might expect a visit booked before 10:00 to start at 10:00, but the
code does something slightly different, and the model follows the code.
Today's start hour is `hour > 10 ? hour + 1 : 10`. Its minute is then
snapped to 30 when the clock's minute is past 30, and to 0 otherwise. So at
08:45 or 09:45 today starts at 10:30, not 10:00. At 10:45 it starts at
10:30, which has already passed. `Slots.MorningSecondHalf` and
`Slots.PastSlotDuringTen` state these cases.

## Model

| member | source | states |
|---|---|---|
| `Decimal.NatToString` | src/pages/Appointment.jsx:93 | a day or month prints as its shortest digit string: the digits denote the number and there is no leading zero |
| `Decimal.IntToString` | src/pages/Appointment.jsx:93 | a year prints as its shortest digit string, with a '-' when negative: no leading zero, no "-0", and it parses back to the same year |
| `Decimal.NatToStringInjective` | src/pages/Appointment.jsx:93 | two different numbers never print the same |
| `CivilDate.DaysInMonth` | src/pages/Appointment.jsx:38 | months have 28 to 31 days, and 29 exactly for February of a leap year |
| `CivilDate.MonthLengthsMakeYear` | src/pages/Appointment.jsx:38 | the twelve month lengths add up to 366 days in a leap year and 365 otherwise |
| `CivilDate.NextDay` | src/pages/Appointment.jsx:38 | the day after a valid date is a valid, strictly later date |
| `CivilDate.AddDays` | src/pages/Appointment.jsx:37-38 | moving a valid date forward by i days gives a valid date, strictly later when i > 0 |
| `CivilDate.AddDaysStrictlyIncreasing` | src/pages/Appointment.jsx:35-38 | a larger day offset gives a strictly later date |
| `CivilDate.AddDaysAdditive` | src/pages/Appointment.jsx:37-38 | moving by i and then by j days is moving by i + j days |
| `CivilDate.AddDaysWithinMonth` | src/pages/Appointment.jsx:38 | inside a month, moving forward only adds to the day of the month |
| `CivilDate.YearEndRollOver` | src/pages/Appointment.jsx:38 | six days after 29 December 2026 is 4 January 2027 |
| `CivilDate.LeapFebruaryRollOver` | src/pages/Appointment.jsx:38 | three days after 27 February is 1 March in the leap year 2028, and 2 March in 2027 |
| `TimeLabel.TwoDigits` | src/pages/Appointment.jsx:56 | a two-digit field has exactly two digits, and they denote the number |
| `TimeLabel.ClockHour` | src/pages/Appointment.jsx:56 | the 12-hour clock face shows 1 to 12, and agrees with the hour modulo 12 |
| `TimeLabel.Label` | src/pages/Appointment.jsx:56 | a slot label is always eight characters long |
| `TimeLabel.LabelRoundTrip` | src/pages/Appointment.jsx:56 | parsing a label gives back its minute of the day |
| `TimeLabel.ParseLabelSound` | src/pages/Appointment.jsx:56 | every string the label parser accepts is the label of the minute it returns |
| `TimeLabel.LabelInjective` | src/pages/Appointment.jsx:56 | different minutes of the day have different labels |
| `TimeLabel.ExampleLabels` | src/pages/Appointment.jsx:56 | 10:00 reads "10:00 AM", 20:30 reads "08:30 PM", and midnight reads "12:00 AM" |
| `Slots.StartMinute` | src/pages/Appointment.jsx:45-51 | each bucket starts on the half-hour grid at 10:00 or later, and every day after today starts at exactly 10:00 |
| `Slots.Slot.time` | src/pages/Appointment.jsx:56 | a slot's label is eight characters and parses back to the slot's minute of the day |
| `Slots.Slot.available` | src/pages/Appointment.jsx:59 | a slot is available exactly when it is not at 12:00, 15:30 or 17:00 |
| `Slots.DaySlots` | src/pages/Appointment.jsx:55-70 | the while loop yields at least one slot exactly when it starts before 21:00 |
| `Slots.DayBucket` | src/pages/Appointment.jsx:37-51 | every day after today yields a non-empty bucket |
| `Slots.Skipped` | src/pages/Appointment.jsx:73 | at most one bucket is dropped, and one is dropped exactly when the clock reads 20:00 or later |
| `Slots.Schedule` | src/pages/Appointment.jsx:29-77 | the page holds six or seven buckets, and none of them is empty |
| `Slots.ScheduleUpTo` | src/pages/Appointment.jsx:73-75 | after n days of the loop there are at most n buckets, and none of them is empty |
| `Slots.BucketsNonEmpty` | src/pages/Appointment.jsx:73-75 | only today's bucket can be empty, and an empty bucket is the one that is dropped |
| `Slots.FillDay` | src/pages/Appointment.jsx:55-70 | the inner while loop produces exactly the day's bucket |
| `Slots.GenerateSlots` | src/pages/Appointment.jsx:29-77 | the two nested loops produce exactly `Schedule(now)` |
| `Slots.ScheduleUpToShape` | src/pages/Appointment.jsx:35-75 | after n days of the loop there are n buckets, or n - 1 when today's was dropped, and bucket k is day k + Skipped |
| `Slots.ScheduleUpToIsSchedule` | src/pages/Appointment.jsx:35-75 | the full seven days of the loop give exactly `Schedule` |
| `Slots.DaySlotsOnGrid` | src/pages/Appointment.jsx:55-69 | slot j of a day is at start + 30·j, all slots are before 21:00, and the loop stops at the first step at or past 21:00 |
| `Slots.DaySlotsLength` | src/pages/Appointment.jsx:55-69 | a day starting on the grid has one slot per half hour left before 21:00 |
| `Slots.FullDay` | src/pages/Appointment.jsx:48-69 | a day opening at 10:00 has 22 slots, from 10:00 to 20:30 |
| `Slots.BucketsAreHalfHourGrids` | src/pages/Appointment.jsx:55-69 | in every bucket, slots lie on the bucket's date, begin at its start time, go up by exactly 30 minutes and end before 21:00 |
| `Slots.LaterDaysAreFull` | src/pages/Appointment.jsx:48-51 | every bucket except today's has 22 slots, from 10:00 to 20:30 |
| `Slots.SlotOnGrid` | src/pages/Appointment.jsx:55-69 | every slot is on the half-hour grid, not before its bucket's start, and before 21:00 |
| `Slots.FullDayHasEveryMinute` | src/pages/Appointment.jsx:48-69 | a later day has a slot at every half hour from 10:00 to 20:30 |
| `Slots.FirstSlot` | src/pages/Appointment.jsx:45-47 | before 20:00 the first slot is today at hour `h > 10 ? h + 1 : 10` and minute `m > 30 ? 30 : 0`; from 20:00 on it is tomorrow at 10:00 |
| `Slots.BucketDate` | src/pages/Appointment.jsx:37-38 | bucket k is dated k days after today, plus one when today was dropped |
| `Slots.BucketDatesIncrease` | src/pages/Appointment.jsx:35-38 | bucket dates are strictly increasing, so each bucket is a different day |
| `Slots.UnavailableLabels` | src/pages/Appointment.jsx:20-22 | a label is on the blocked list exactly when it is the label of 12:00, 15:30 or 17:00 |
| `Slots.SlotAvailability` | src/pages/Appointment.jsx:59 | a slot is unavailable exactly when its label is blocked, that is, exactly at 12:00, 15:30 and 17:00 |
| `Slots.UnavailableCount` | src/pages/Appointment.jsx:55-69 | a day's number of unavailable slots is the number of blocked times not before its start |
| `Slots.BucketUnavailable` | src/pages/Appointment.jsx:55-69 | a bucket holds one unavailable slot for each blocked time not before its start |
| `Slots.UnavailablePerBucket` | src/pages/Appointment.jsx:20-22 | every later day has exactly 3 unavailable slots, and today has one for each blocked time not yet passed |
| `Slots.MorningFirstHalf` | src/pages/Appointment.jsx:45-47 | up to 10:30, with the minute at most 30, there are seven buckets and today opens at 10:00 |
| `Slots.MorningSecondHalf` | src/pages/Appointment.jsx:45-47 | before 11:00, with the minute past 30 (08:45, say), today opens at 10:30 |
| `Slots.PastSlotDuringTen` | src/pages/Appointment.jsx:45-47 | between 10:01 and 10:59 today's first slot has already begun |
| `Slots.AfternoonLeadTime` | src/pages/Appointment.jsx:45-47 | from 11:00 to 19:59 today's first slot is 30 to 60 minutes ahead |
| `Slots.QuarterToNine` | src/pages/Appointment.jsx:45-75 | at 20:45 there are six buckets, and the first is tomorrow at 10:00 |
| `DateKey.Key` | src/pages/Appointment.jsx:89-93 | the key is digits, '_' and '-' only, and starts with a non-zero digit |
| `DateKey.KeyFields` | src/pages/Appointment.jsx:89-93 | the key's three '_'-separated fields are the unpadded day, the 1-based month and the full year |
| `DateKey.KeyRoundTrip` | src/pages/Appointment.jsx:89-93 | parsing a key gives back its date |
| `DateKey.KeyInjective` | src/pages/Appointment.jsx:89-93 | different days get different keys |
| `DateKey.ExampleKeys` | src/pages/Appointment.jsx:93 | 5 March 2026 is "5_3_2026" and 10 December 2026 is "10_12_2026" |
| `Booking.Step` | src/pages/Appointment.jsx:147-175 | a click keeps the selection consistent and emits at most one notice; a day chip sets only the day; an available pill sets only the time; an unavailable pill changes nothing and emits exactly the toast, which nothing else emits; a chip or pill not on the page and a disabled button change nothing and emit nothing; a booking is emitted exactly when the button is enabled, with the shown day's key and the picked time, which is never blocked |
| `Booking.DayKey` | src/pages/Appointment.jsx:87-93 | the key built from the shown day's first slot parses back to that slot's date |
| `Booking.BookEnabledAfterStep` | src/pages/Appointment.jsx:160-175 | the button starts disabled; after a click it is enabled exactly when it was before or the click picked an available pill |
| `Booking.OfferedIsAvailable` | src/pages/Appointment.jsx:162 | a time the page let the user pick is never a blocked label |
| `Booking.Run` | src/pages/Appointment.jsx:147-175 | over any click sequence the selection stays consistent, there is at most one notice per click, and every booking names an offered, unblocked time and the key of one of the page's days |
| `Booking.StepFromPage` | src/pages/Appointment.jsx:86-93 | a booking from one click names an offered time and the key of one of the page's days |
| `Booking.ScheduleWellFormed` | src/pages/Appointment.jsx:87 | the generated buckets are non-empty and validly dated, so the booking's `docSlots[slotIndex][0]` always exists |
| `Booking.TimeSurvivesDayChange` | src/pages/Appointment.jsx:149-162 | picking a time, then another day, then booking records the new day's key with the time picked on the old day |
| `Booking.LaterDayOffersEveryTime` | src/pages/Appointment.jsx:48-69 | every time offered anywhere is also an available slot of each later day |
| `Booking.TodayCanBeBookedAtPastTime` | src/pages/Appointment.jsx:86-94 | from 11:00 to 19:59, the clicks tomorrow, 10:00 AM, today, book record today at "10:00 AM", a time today's bucket does not contain |

## Left out

- The React plumbing is left out: `useState`, `useEffect`, `fetchDocInfo`, the doctor details, `RelatedDoctors` and the rendering. Only the state the clicks change is modelled.
- The weekday names and dates on the day chips, the lower-cased pill text and the highlight classes are left out. They are display only.
- `src/components/Footer.jsx` is left out. It plays no part in booking.
- The toast, `console.log` and `alert` become the notices `SlotUnavailable` and `Booked(key, time)`. Their presentation is not modelled.
- TimeLabel.Label: models only the en-US locale. Clock, time zone and daylight-saving time are left out too; the current time is a parameter. The label is the en-US two-digit format with a plain space before AM/PM. A runtime that puts a narrow no-break space there would match no blocked label; that case is not modelled.
- Seconds and milliseconds of the current time are left out. They carry over into every slot, but they change neither a label nor the `< 21:00` test, because the end time has none.
- Slots.StartMinute: at 23:xx, `setHours(24)` moves today's cursor into tomorrow, past today's 21:00 end. The model gives 1440 or more instead, and the bucket is empty and dropped in both cases.
- Booking.Step: keeps `docSlots` fixed. The source also empties and refills it when the doctor changes, without resetting `slotIndex` or `slotTime`; that path is not modelled.
- `DateKey.ParseKey`, `TimeLabel.ParseLabel`, `DateKey.Split`, `DateKey.Join`, `Decimal.ParseNat`, `Decimal.ParseInt` and `CivilDate.PrevDay` are not in the source. They are the inverses the round-trip properties are stated against.
