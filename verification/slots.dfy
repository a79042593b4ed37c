/** The slot generator of the appointment page (`getAvailableSlots`): for the
    injected "now" it builds one bucket of half-hour slots per day, for today
    and the six days after, and keeps only the non-empty buckets.

    Times of day are minutes since midnight.  The opening time 10:00 is
    minute 600, the closing time 21:00 is minute 1260 and slots are 30
    minutes apart; these are written as literals so that the arithmetic stays
    linear for the verifier. */
module Slots {
  import opened Wrappers
  import opened CivilDate
  import opened TimeLabel

  /** Today and the six days after it. */
  const DaysAhead: nat := 7

  /** Labels treated as already booked. */
  const UnavailableTimes: seq<string> := ["12:00 PM", "03:30 PM", "05:00 PM"]

  /** The wall-clock reading the page starts from (seconds are not modelled). */
  datatype Now = Now(date: Date, hour: int, minute: int)

  predicate ValidNow(now: Now) {
    Valid(now.date) && 0 <= now.hour < 24 && 0 <= now.minute < 60
  }

  /** One bookable or blocked slot.  Its date and minute of the day stand for
      the slot's timestamp; its label and its availability are computed from
      the timestamp when the slot is made, so they are modelled as members. */
  datatype Slot = Slot(date: Date, minute: MinuteOfDay) {

    /** The displayed label, e.g. "03:30 PM". */
    function time(): (t: string)
      ensures |t| == 8 && ParseLabel(t) == Some(minute)
    {
      LabelRoundTrip(minute);
      Label(minute)
    }

    /** Bookable unless the label is on the blocked list, which holds the
        labels of 12:00 PM, 03:30 PM and 05:00 PM. */
    predicate available(): (ok: bool)
      ensures ok <==> minute != 720 && minute != 930 && minute != 1020
    {
      UnavailableLabels(minute);
      time() !in UnavailableTimes
    }
  }

  type Bucket = seq<Slot>

  /** Minute of the day at which the bucket for day `offset` starts: later
      days open at 10:00; today moves to the next hour (or to 10:00 when that
      is earlier) and keeps only whether the current minute is past the half
      hour.  For 23:xx this is 24:00 or later, which, like the roll-over to
      the next day in the source, yields no slot. */
  function StartMinute(now: Now, offset: nat): (t: nat)
    requires ValidNow(now)
    ensures 600 <= t && t % 30 == 0
    ensures offset > 0 ==> t == 600
  {
    if offset == 0 then
      var hour := if now.hour > 10 then now.hour + 1 else 10;
      var minute := if now.minute > 30 then 30 else 0;
      hour * 60 + minute
    else 600
  }

  /** The slots of one day from minute `start` in half-hour steps while
      before 21:00 (the `while (currentDate < endTime)` loop). */
  function DaySlots(date: Date, start: nat): (b: Bucket)
    ensures |b| > 0 <==> start < 1260
    decreases 1260 - start as int
  {
    if start >= 1260 then []
    else [Slot(date, start)] + DaySlots(date, start + 30)
  }

  /** Bucket of day `offset` before empty buckets are dropped: every day
      after today has slots. */
  function DayBucket(now: Now, offset: nat): (b: Bucket)
    requires ValidNow(now)
    ensures offset > 0 ==> |b| > 0
  {
    DaySlots(AddDays(now.date, offset), StartMinute(now, offset))
  }

  /** The buckets of the first `n` days, empty ones left out; only the
      first day's bucket can be empty, so at most one is left out. */
  function ScheduleUpTo(now: Now, n: nat): (docSlots: seq<Bucket>)
    requires ValidNow(now)
    ensures |docSlots| <= n
    ensures forall k :: 0 <= k < |docSlots| ==> |docSlots[k]| > 0
    decreases n
  {
    if n == 0 then []
    else
      var b := DayBucket(now, n - 1);
      ScheduleUpTo(now, n - 1) + (if |b| > 0 then [b] else [])
  }

  /** What `getAvailableSlots` stores in `docSlots`: the buckets of today and
      the six days after, with today's left out when it is empty.  Bucket `k`
      is the bucket of day `k + Skipped(now)`; `GenerateSlots` computes it by
      the source's loop. */
  function Schedule(now: Now): (docSlots: seq<Bucket>)
    requires ValidNow(now)
    ensures 6 <= |docSlots| <= 7
    ensures forall k :: 0 <= k < |docSlots| ==> |docSlots[k]| > 0
  {
    BucketsNonEmpty(now);
    var s := Skipped(now);
    seq(DaysAhead - s, k requires 0 <= k < DaysAhead - s => DayBucket(now, k + s))
  }

  /** Bucket `k` of the schedule is the bucket of day `k + Skipped(now)`. */
  lemma ScheduleAt(now: Now, k: nat)
    requires ValidNow(now) && k < |Schedule(now)|
    ensures |Schedule(now)| == DaysAhead - Skipped(now)
    ensures Schedule(now)[k] == DaySlots(AddDays(now.date, k + Skipped(now)), StartMinute(now, k + Skipped(now)))
  {
    assert Schedule(now)[k] == DayBucket(now, k + Skipped(now));
  }

  /** Only today's bucket can be empty, and it is empty exactly when it is
      skipped. */
  lemma BucketsNonEmpty(now: Now)
    requires ValidNow(now)
    ensures forall offset: nat :: Skipped(now) <= offset ==> |DayBucket(now, offset)| > 0
    ensures Skipped(now) == 1 ==> DayBucket(now, 0) == []
  {
    forall offset: nat | Skipped(now) <= offset
      ensures |DayBucket(now, offset)| > 0
    {
      DaySlotsUnfold(AddDays(now.date, offset), StartMinute(now, offset));
    }
  }

  /** 1 when today's bucket is empty and dropped, 0 otherwise: bucket `k`
      of the schedule is the day `k + Skipped(now)` after today. */
  function Skipped(now: Now): (n: nat)
    requires ValidNow(now)
    ensures n <= 1
    ensures n == 1 <==> now.hour >= 20
  {
    if StartMinute(now, 0) < 1260 then 0 else 1
  }

  // ---------------------------------------------------------------------
  // The imperative generator, checked against `Schedule`.

  /** The inner loop: step from `start` in half hours while before 21:00. */
  method FillDay(date: Date, start: nat) returns (timeSlots: Bucket)
    ensures timeSlots == DaySlots(date, start)
  {
    timeSlots := [];
    var t := start;
    while t < 1260
      invariant timeSlots + DaySlots(date, t) == DaySlots(date, start)
      decreases 1260 - t as int
    {
      timeSlots := timeSlots + [Slot(date, t)];
      t := t + 30;
    }
  }

  /** The outer loop over today and the next six days. */
  method GenerateSlots(now: Now) returns (docSlots: seq<Bucket>)
    requires ValidNow(now)
    ensures docSlots == Schedule(now)
  {
    docSlots := [];
    var i: nat := 0;
    while i < DaysAhead
      invariant i <= DaysAhead
      invariant docSlots == ScheduleUpTo(now, i)
    {
      var currentDate := AddDays(now.date, i);
      var timeSlots := FillDay(currentDate, StartMinute(now, i));
      if |timeSlots| > 0 {
        docSlots := docSlots + [timeSlots];
      }
      i := i + 1;
    }
    ScheduleUpToIsSchedule(now);
  }

  // ---------------------------------------------------------------------
  // One day.

  /** The `j`-th slot of a day is at `start + 30 * j` on that day's date,
      every slot is before 21:00, and the day ends with the last such step
      before 21:00. */
  lemma {:induction false} DaySlotsOnGrid(date: Date, start: nat)
    ensures forall j :: 0 <= j < |DaySlots(date, start)| ==>
              && DaySlots(date, start)[j].date == date
              && DaySlots(date, start)[j].minute == start + 30 * j
              && DaySlots(date, start)[j].minute < 1260
    ensures 1260 <= start + 30 * |DaySlots(date, start)|
    decreases 1260 - start as int
  {
    if start < 1260 {
      var b := DaySlots(date, start);
      var rest := DaySlots(date, start + 30);
      DaySlotsOnGrid(date, start + 30);
      assert forall j :: 1 <= j < |b| ==> b[j] == rest[j - 1];
    }
  }

  /** A day starting on the half-hour grid has one slot per half hour left
      before 21:00. */
  lemma {:induction false} DaySlotsLength(date: Date, start: nat)
    requires start % 30 == 0
    ensures |DaySlots(date, start)| == if start >= 1260 then 0 else (1260 - start) / 30
    decreases 1260 - start as int
  {
    if start < 1260 {
      DaySlotsLength(date, start + 30);
    }
  }

  /** The first slot of a day that still has one, and the rest of the day. */
  lemma DaySlotsUnfold(date: Date, start: nat)
    requires start < 1260
    ensures |DaySlots(date, start)| > 0
    ensures DaySlots(date, start)[0] == Slot(date, start)
    ensures DaySlots(date, start)[1..] == DaySlots(date, start + 30)
    ensures CountUnavailable(DaySlots(date, start))
            == (if Slot(date, start).available() then 0 else 1) + CountUnavailable(DaySlots(date, start + 30))
  {
    assert DaySlots(date, start)[1..] == DaySlots(date, start + 30);
  }

  /** A day opening at 10:00 has the 22 slots 10:00, 10:30, ..., 20:30. */
  lemma FullDay(date: Date)
    ensures |DaySlots(date, 600)| == 22
    ensures DaySlots(date, 600)[0].minute == 600
    ensures DaySlots(date, 600)[21].minute == 1230
  {
    DaySlotsLength(date, 600);
    DaySlotsOnGrid(date, 600);
  }

  // ---------------------------------------------------------------------
  // The whole schedule.

  lemma {:induction false} ScheduleUpToShape(now: Now, n: nat)
    requires ValidNow(now) && 1 <= n <= DaysAhead
    ensures |ScheduleUpTo(now, n)| == n - Skipped(now)
    ensures forall k :: 0 <= k < |ScheduleUpTo(now, n)| ==>
              ScheduleUpTo(now, n)[k] == DayBucket(now, k + Skipped(now))
  {
    if n > 1 {
      ScheduleUpToShape(now, n - 1);
      ScheduleUpToStep(now, n);
    }
  }

  /** One more day of the loop appends that day's bucket, which is never
      empty after today. */
  lemma ScheduleUpToStep(now: Now, n: nat)
    requires ValidNow(now) && 1 < n <= DaysAhead
    requires var prev := ScheduleUpTo(now, n - 1);
      |prev| == n - 1 - Skipped(now) &&
      forall k :: 0 <= k < |prev| ==> prev[k] == DayBucket(now, k + Skipped(now))
    ensures |ScheduleUpTo(now, n)| == n - Skipped(now)
    ensures forall k :: 0 <= k < |ScheduleUpTo(now, n)| ==>
              ScheduleUpTo(now, n)[k] == DayBucket(now, k + Skipped(now))
  {
    var prev := ScheduleUpTo(now, n - 1);
    var b := DayBucket(now, n - 1);
    assert ScheduleUpTo(now, n) == prev + [b];
    forall k | 0 <= k < |prev| + 1
      ensures (prev + [b])[k] == DayBucket(now, k + Skipped(now))
    {
      if k < |prev| {
        assert (prev + [b])[k] == prev[k];
      } else {
        assert k + Skipped(now) == n - 1;
      }
    }
  }

  /** The source's loop, read as a recursion, builds exactly `Schedule`. */
  lemma ScheduleUpToIsSchedule(now: Now)
    requires ValidNow(now)
    ensures ScheduleUpTo(now, DaysAhead) == Schedule(now)
  {
    var built := ScheduleUpTo(now, DaysAhead);
    var docSlots := Schedule(now);
    ScheduleUpToShape(now, DaysAhead);
    assert |built| == |docSlots|;
    forall k | 0 <= k < |built|
      ensures built[k] == docSlots[k]
    {
      ScheduleAt(now, k);
    }
  }

  /** Within every bucket the slots lie on that bucket's date, the first is
      at the bucket's start time, consecutive slots are exactly 30 minutes
      apart (so strictly ascending) and all are strictly before 21:00. */
  lemma BucketsAreHalfHourGrids(now: Now)
    requires ValidNow(now)
    ensures forall k, j :: 0 <= k < |Schedule(now)| && 0 <= j < |Schedule(now)[k]| ==>
              && Schedule(now)[k][j].date == AddDays(now.date, k + Skipped(now))
              && Schedule(now)[k][j].minute == StartMinute(now, k + Skipped(now)) + 30 * j
              && Schedule(now)[k][j].minute < 1260
    ensures forall k, j :: 0 <= k < |Schedule(now)| && 0 <= j && j + 1 < |Schedule(now)[k]| ==>
              Schedule(now)[k][j + 1].minute == Schedule(now)[k][j].minute + 30
  {
    forall k | 0 <= k < |Schedule(now)|
      ensures forall j :: 0 <= j < |Schedule(now)[k]| ==>
                && Schedule(now)[k][j].date == AddDays(now.date, k + Skipped(now))
                && Schedule(now)[k][j].minute == StartMinute(now, k + Skipped(now)) + 30 * j
                && Schedule(now)[k][j].minute < 1260
    {
      ScheduleAt(now, k);
      DaySlotsOnGrid(AddDays(now.date, k + Skipped(now)), StartMinute(now, k + Skipped(now)));
    }
  }

  /** Every bucket except today's is a full day: 22 slots from 10:00 to 20:30. */
  lemma LaterDaysAreFull(now: Now, k: nat)
    requires ValidNow(now) && k < |Schedule(now)| && k + Skipped(now) >= 1
    ensures |Schedule(now)[k]| == 22
    ensures Schedule(now)[k][0].minute == 600 && Schedule(now)[k][21].minute == 1230
  {
    ScheduleAt(now, k);
    FullDay(AddDays(now.date, k + Skipped(now)));
  }

  /** Every slot of the schedule is on the half-hour grid between 10:00 and
      21:00, and not before the start of its bucket. */
  lemma SlotOnGrid(now: Now, k: nat, j: nat)
    requires ValidNow(now) && k < |Schedule(now)| && j < |Schedule(now)[k]|
    ensures StartMinute(now, k + Skipped(now)) <= Schedule(now)[k][j].minute < 1260
    ensures Schedule(now)[k][j].minute % 30 == 0
  {
    ScheduleAt(now, k);
    DaySlotsOnGrid(AddDays(now.date, k + Skipped(now)), StartMinute(now, k + Skipped(now)));
  }

  /** A later day has a slot at every half hour from 10:00 to 20:30. */
  lemma FullDayHasEveryMinute(now: Now, k: nat, m: nat)
    requires ValidNow(now) && k < |Schedule(now)| && k + Skipped(now) >= 1
    requires 600 <= m < 1260 && m % 30 == 0
    ensures (m - 600) / 30 < |Schedule(now)[k]| && Schedule(now)[k][(m - 600) / 30].minute == m
  {
    ScheduleAt(now, k);
    FullDay(AddDays(now.date, k + Skipped(now)));
    DaySlotsOnGrid(AddDays(now.date, k + Skipped(now)), 600);
  }

  /** Today's first slot: the start hour is the next hour (10 when the clock
      reads 10 or earlier), the start minute is 30 when the clock's minute is
      past 30 and 0 otherwise; from 20:00 on the first bucket is tomorrow's,
      opening at 10:00. */
  lemma FirstSlot(now: Now)
    requires ValidNow(now)
    ensures now.hour < 20 ==> Schedule(now)[0][0].date == now.date
    ensures now.hour < 20 ==>
              Schedule(now)[0][0].minute / 60 == (if now.hour > 10 then now.hour + 1 else 10)
              && Schedule(now)[0][0].minute % 60 == (if now.minute > 30 then 30 else 0)
    ensures now.hour >= 20 ==> Schedule(now)[0][0].date == NextDay(now.date)
    ensures now.hour >= 20 ==> Schedule(now)[0][0].minute == 600
  {
    var s := Skipped(now);
    ScheduleAt(now, 0);
    DayBucketFirst(now, s);
    if s == 1 {
      assert AddDays(now.date, 1) == NextDay(now.date);
    }
  }

  /** The first slot of a non-empty day bucket is at the day's start time. */
  lemma DayBucketFirst(now: Now, offset: nat)
    requires ValidNow(now) && |DayBucket(now, offset)| > 0
    ensures DayBucket(now, offset)[0] == Slot(AddDays(now.date, offset), StartMinute(now, offset))
  {
    DaySlotsUnfold(AddDays(now.date, offset), StartMinute(now, offset));
  }

  /** Bucket `k` begins on the date `k + Skipped(now)` days after today. */
  lemma BucketDate(now: Now, k: nat)
    requires ValidNow(now) && k < |Schedule(now)|
    ensures Schedule(now)[k][0].date == AddDays(now.date, k + Skipped(now))
  {
    ScheduleAt(now, k);
    DayBucketFirst(now, k + Skipped(now));
  }

  /** Buckets appear in strictly increasing date order. */
  lemma BucketDatesIncrease(now: Now, k1: nat, k2: nat)
    requires ValidNow(now) && k1 < k2 < |Schedule(now)|
    ensures Before(Schedule(now)[k1][0].date, Schedule(now)[k2][0].date)
  {
    var shift := Skipped(now);
    BucketDate(now, k1);
    BucketDate(now, k2);
    DatesOfLaterOffsets(now.date, k1 + shift, k2 + shift, Schedule(now)[k1][0].date, Schedule(now)[k2][0].date);
  }

  lemma DatesOfLaterOffsets(d: Date, i: nat, j: nat, x: Date, y: Date)
    requires Valid(d) && i < j && x == AddDays(d, i) && y == AddDays(d, j)
    ensures Before(x, y)
  {
    AddDaysStrictlyIncreasing(d, i, j);
  }

  // ---------------------------------------------------------------------
  // Availability.

  /** The blocked labels are exactly the labels of 12:00, 15:30 and 17:00. */
  lemma UnavailableLabels(t: MinuteOfDay)
    ensures Label(t) in UnavailableTimes <==> t == 720 || t == 930 || t == 1020
  {
    ParseLabelSound("12:00 PM", 720);
    ParseLabelSound("03:30 PM", 930);
    ParseLabelSound("05:00 PM", 1020);
    LabelRoundTrip(t);
  }

  /** A slot is unavailable iff its label is on the blocked list, i.e. iff it
      is the 12:00, 15:30 or 17:00 slot of its day. */
  lemma SlotAvailability(s: Slot)
    ensures !s.available() <==> s.time() in UnavailableTimes
    ensures s.available() <==> s.minute !in {720, 930, 1020}
  {
    UnavailableLabels(s.minute);
  }

  function CountUnavailable(b: Bucket): nat
    decreases |b|
  {
    if |b| == 0 then 0 else (if b[0].available() then 0 else 1) + CountUnavailable(b[1..])
  }

  /** How many of the blocked times 12:00, 15:30, 17:00 are at or after `start`. */
  function BlockedFrom(start: nat): nat {
    (if start <= 720 then 1 else 0) + (if start <= 930 then 1 else 0) + (if start <= 1020 then 1 else 0)
  }

  /** A day starting on the half-hour grid contains each blocked time that
      is not before its start exactly once. */
  lemma {:induction false} UnavailableCount(date: Date, start: nat)
    requires start % 30 == 0
    ensures CountUnavailable(DaySlots(date, start)) == BlockedFrom(start)
    decreases 1260 - start as int
  {
    if start < 1260 {
      UnavailableCount(date, start + 30);
      UnavailableCountStep(date, start);
    }
  }

  /** One step of UnavailableCount: the first slot adds one exactly when
      it is a blocked time. */
  lemma UnavailableCountStep(date: Date, start: nat)
    requires start % 30 == 0 && start < 1260
    requires CountUnavailable(DaySlots(date, start + 30)) == BlockedFrom(start + 30)
    ensures CountUnavailable(DaySlots(date, start)) == BlockedFrom(start)
  {
    DaySlotsUnfold(date, start);
    SlotAvailability(Slot(date, start));
    BlockedFromStep(start);
  }

  lemma BlockedFromStep(start: nat)
    requires start % 30 == 0 && start < 1260
    ensures BlockedFrom(start) == (if start in {720, 930, 1020} then 1 else 0) + BlockedFrom(start + 30)
  {
  }

  /** So each full day offers exactly three unavailable slots, and today's
      bucket one for each blocked time not before its start. */
  lemma UnavailablePerBucket(now: Now, k: nat)
    requires ValidNow(now) && k < |Schedule(now)|
    ensures CountUnavailable(Schedule(now)[k]) == BlockedFrom(StartMinute(now, k + Skipped(now)))
    ensures k + Skipped(now) >= 1 ==> CountUnavailable(Schedule(now)[k]) == 3
  {
    BucketUnavailable(now, k, Schedule(now)[k]);
  }

  /** A bucket holds one unavailable slot per blocked time not before its start. */
  lemma BucketUnavailable(now: Now, k: nat, b: Bucket)
    requires ValidNow(now) && k < |Schedule(now)| && b == Schedule(now)[k]
    ensures CountUnavailable(b) == BlockedFrom(StartMinute(now, k + Skipped(now)))
  {
    var offset := k + Skipped(now);
    var start := StartMinute(now, offset);
    ScheduleAt(now, k);
    UnavailableCount(AddDays(now.date, offset), start);
  }

  // ---------------------------------------------------------------------
  // Worked scenarios.

  /** Up to 10:30, at a minute up to the half hour, today's first slot is 10:00. */
  lemma MorningFirstHalf(now: Now)
    requires ValidNow(now) && now.hour <= 10 && now.minute <= 30
    ensures |Schedule(now)| == 7
    ensures Schedule(now)[0][0].date == now.date && Schedule(now)[0][0].minute == 600
  {
    FirstSlot(now);
  }

  /** Up to 10:59, at a minute past the half hour, the minute is snapped to 30:
      today starts at 10:30 and its 10:00 slot is not offered, even at 08:45. */
  lemma MorningSecondHalf(now: Now)
    requires ValidNow(now) && now.hour <= 10 && now.minute > 30
    ensures Schedule(now)[0][0].date == now.date && Schedule(now)[0][0].minute == 630
  {
    FirstSlot(now);
  }

  /** Between 10:01 and 10:59 today's first slot has already begun. */
  lemma PastSlotDuringTen(now: Now)
    requires ValidNow(now) && now.hour == 10 && now.minute > 0
    ensures Schedule(now)[0][0].date == now.date
    ensures Schedule(now)[0][0].minute < now.hour * 60 + now.minute
  {
    FirstSlot(now);
  }

  /** From 11:00 to 19:59 today's first slot is 30 to 60 minutes ahead. */
  lemma AfternoonLeadTime(now: Now)
    requires ValidNow(now) && 11 <= now.hour < 20
    ensures Schedule(now)[0][0].date == now.date
    ensures now.hour * 60 + now.minute + 30 <= Schedule(now)[0][0].minute <= now.hour * 60 + now.minute + 60
  {
    FirstSlot(now);
  }

  /** At 20:45 today has no slot left: six buckets, the first is tomorrow at 10:00. */
  lemma QuarterToNine(now: Now)
    requires ValidNow(now) && now.hour == 20 && now.minute == 45
    ensures |Schedule(now)| == 6
    ensures Schedule(now)[0][0].date == NextDay(now.date) && Schedule(now)[0][0].minute == 600
  {
    FirstSlot(now);
  }
}
