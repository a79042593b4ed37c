/** The selection state of the appointment page: which day chip is picked
    (`slotIndex`), which time is picked (`slotTime`), and what the three
    kinds of click do with them.  The page is modelled as a step function
    over a fixed `docSlots`; the toast and the booking record (the console
    line and the alert) become notices the step emits. */
module Booking {
  import opened CivilDate
  import opened TimeLabel
  import opened Slots
  import DateKey
  import Wrappers

  /** `slotIndex` starts at 0 and `slotTime` at the empty string. */
  datatype Selection = Selection(slotIndex: nat, slotTime: string)

  const Initial: Selection := Selection(0, "")

  /** A click on a day chip, on a time pill of the shown day, or on the
      booking button. */
  datatype Event = ChooseDay(index: nat) | ClickSlot(position: nat) | BookClicked

  /** What a click reports: the "not available" toast, or the booking of
      the date key and time that are logged. */
  datatype Notice = SlotUnavailable | Booked(dateKey: string, time: string)

  datatype Transition = Transition(next: Selection, notices: seq<Notice>)

  /** The buckets the page works on: none is empty and every slot carries
      a valid calendar date. */
  predicate WellFormed(docSlots: seq<Bucket>) {
    forall k :: 0 <= k < |docSlots| ==>
      |docSlots[k]| > 0 && forall j :: 0 <= j < |docSlots[k]| ==> Valid(docSlots[k][j].date)
  }

  /** Time `t` is the label of an available slot somewhere in the buckets. */
  ghost predicate Offered(docSlots: seq<Bucket>, t: string) {
    exists k, j :: 0 <= k < |docSlots| && 0 <= j < |docSlots[k]|
                   && docSlots[k][j].available() && docSlots[k][j].time() == t
  }

  /** What the page keeps true of its selection: the day index names a chip
      (or is the initial 0 while there are none), and a picked time is one
      the page offered as available. */
  ghost predicate Consistent(docSlots: seq<Bucket>, sel: Selection) {
    (sel.slotIndex < |docSlots| || sel.slotIndex == 0)
    && (sel.slotTime == "" || Offered(docSlots, sel.slotTime))
  }

  /** The booking button is enabled exactly when a time is picked. */
  predicate BookEnabled(sel: Selection) {
    sel.slotTime != ""
  }

  /** The date key of the shown day: taken from its first slot, whose
      date it gives back when parsed. */
  function DayKey(docSlots: seq<Bucket>, index: nat): (key: string)
    requires WellFormed(docSlots) && index < |docSlots|
    ensures DateKey.ParseKey(key) == Wrappers.Some(docSlots[index][0].date)
  {
    DateKey.KeyRoundTrip(docSlots[index][0].date);
    DateKey.Key(docSlots[index][0].date)
  }

  /** One click.  Chips and pills exist only for existing days and slots,
      and a disabled button does nothing, so such events leave everything
      unchanged. */
  function Step(docSlots: seq<Bucket>, sel: Selection, e: Event): (r: Transition)
    requires WellFormed(docSlots) && Consistent(docSlots, sel)
    ensures Consistent(docSlots, r.next)
    ensures |r.notices| <= 1
    // a day chip moves the day and nothing else
    ensures e.ChooseDay? && e.index < |docSlots| ==> r.next == sel.(slotIndex := e.index) && r.notices == []
    // only a day chip moves the day, only a time pill changes the time
    ensures !e.ChooseDay? ==> r.next.slotIndex == sel.slotIndex
    ensures !e.ClickSlot? ==> r.next.slotTime == sel.slotTime
    // a chip or pill that is not on the page, and a disabled button, do nothing
    ensures e.ChooseDay? && e.index >= |docSlots| ==> r == Transition(sel, [])
    ensures e.ClickSlot? && !(sel.slotIndex < |docSlots| && e.position < |docSlots[sel.slotIndex]|) ==>
              r == Transition(sel, [])
    ensures e.BookClicked? && !BookEnabled(sel) ==> r == Transition(sel, [])
    // the toast comes from an unavailable pill and from nothing else
    ensures SlotUnavailable in r.notices <==>
              e.ClickSlot? && sel.slotIndex < |docSlots| && e.position < |docSlots[sel.slotIndex]|
              && !docSlots[sel.slotIndex][e.position].available()
    // an available pill picks its time; an unavailable one only warns
    ensures e.ClickSlot? && sel.slotIndex < |docSlots| && e.position < |docSlots[sel.slotIndex]| ==>
              var item := docSlots[sel.slotIndex][e.position];
              if item.available() then r == Transition(sel.(slotTime := item.time()), [])
              else r == Transition(sel, [SlotUnavailable])
    // a booking is recorded exactly when the button is enabled, for the
    // picked time and the key of the shown day; it is never a blocked time
    ensures (|r.notices| == 1 && r.notices[0].Booked?) <==> e.BookClicked? && BookEnabled(sel)
    ensures forall n :: n in r.notices && n.Booked? ==>
              && sel.slotIndex < |docSlots|
              && n == Booked(DayKey(docSlots, sel.slotIndex), sel.slotTime)
              && n.time !in UnavailableTimes
  {
    match e
    case ChooseDay(i) =>
      if i < |docSlots| then Transition(sel.(slotIndex := i), []) else Transition(sel, [])
    case ClickSlot(j) =>
      if sel.slotIndex < |docSlots| && j < |docSlots[sel.slotIndex]| then
        var item := docSlots[sel.slotIndex][j];
        if item.available() then
          assert Offered(docSlots, item.time()) by {
            assert docSlots[sel.slotIndex][j].time() == item.time();
          }
          Transition(sel.(slotTime := item.time()), [])
        else Transition(sel, [SlotUnavailable])
      else Transition(sel, [])
    case BookClicked =>
      if !BookEnabled(sel) then Transition(sel, [])
      else
        OfferedIsAvailable(docSlots, sel.slotTime);
        Transition(sel, [Booked(DayKey(docSlots, sel.slotIndex), sel.slotTime)])
  }

  /** The button is enabled after a click exactly when it was enabled
      before or the click picked an available pill: every label is
      non-empty, and nothing clears a picked time. */
  lemma BookEnabledAfterStep(docSlots: seq<Bucket>, sel: Selection, e: Event)
    requires WellFormed(docSlots) && Consistent(docSlots, sel)
    ensures !BookEnabled(Initial)
    ensures BookEnabled(Step(docSlots, sel, e).next) <==>
              BookEnabled(sel)
              || (e.ClickSlot? && sel.slotIndex < |docSlots| && e.position < |docSlots[sel.slotIndex]|
                  && docSlots[sel.slotIndex][e.position].available())
  {
    if e.ClickSlot? && sel.slotIndex < |docSlots| && e.position < |docSlots[sel.slotIndex]| {
      var item := docSlots[sel.slotIndex][e.position];
      assert |item.time()| == 8;
    }
  }

  /** An offered time is never one of the blocked labels, and offering
      needs at least one day. */
  lemma OfferedIsAvailable(docSlots: seq<Bucket>, t: string)
    requires Offered(docSlots, t)
    ensures t !in UnavailableTimes && |docSlots| > 0
  {
    var k, j :| 0 <= k < |docSlots| && 0 <= j < |docSlots[k]|
                && docSlots[k][j].available() && docSlots[k][j].time() == t;
  }

  /** A sequence of clicks, with the notices in the order they were emitted. */
  function Run(docSlots: seq<Bucket>, sel: Selection, events: seq<Event>): (r: Transition)
    requires WellFormed(docSlots) && Consistent(docSlots, sel)
    ensures Consistent(docSlots, r.next)
    ensures |r.notices| <= |events|
    ensures forall i :: 0 <= i < |r.notices| ==> FromPage(docSlots, r.notices[i])
    decreases |events|
  {
    if |events| == 0 then Transition(sel, [])
    else
      var first := Step(docSlots, sel, events[0]);
      var rest := Run(docSlots, first.next, events[1..]);
      StepFromPage(docSlots, sel, events[0]);
      Transition(rest.next, first.notices + rest.notices)
  }

  /** What one click reports comes from the page. */
  lemma StepFromPage(docSlots: seq<Bucket>, sel: Selection, e: Event)
    requires WellFormed(docSlots) && Consistent(docSlots, sel)
    ensures forall i :: 0 <= i < |Step(docSlots, sel, e).notices| ==>
              FromPage(docSlots, Step(docSlots, sel, e).notices[i])
  {
    var r := Step(docSlots, sel, e);
    if |r.notices| == 1 && r.notices[0].Booked? {
      assert r.notices[0] in r.notices;
      assert KeyOfDay(docSlots, r.notices[0].dateKey, sel.slotIndex);
      OfferedIsAvailable(docSlots, sel.slotTime);
    }
  }

  predicate KeyOfDay(docSlots: seq<Bucket>, key: string, k: nat)
    requires WellFormed(docSlots)
  {
    k < |docSlots| && key == DayKey(docSlots, k)
  }

  /** A booking carries a time offered as available and the key of one of
      the page's days. */
  ghost predicate FromPage(docSlots: seq<Bucket>, n: Notice)
    requires WellFormed(docSlots)
  {
    n.Booked? ==>
      && n.time !in UnavailableTimes
      && Offered(docSlots, n.time)
      && exists k: nat :: KeyOfDay(docSlots, n.dateKey, k)
  }

  /** The page's own buckets satisfy what the clicks rely on. */
  lemma ScheduleWellFormed(now: Now)
    requires ValidNow(now)
    ensures WellFormed(Schedule(now)) && Consistent(Schedule(now), Initial)
  {
    BucketsAreHalfHourGrids(now);
    var docSlots: seq<Bucket> := Schedule(now);
    forall k, j | 0 <= k < |docSlots| && 0 <= j < |docSlots[k]|
      ensures Valid(docSlots[k][j].date)
    {
    }
  }

  /** Picking a time, then another day, then booking: the time survives the
      change of day, so the record pairs the new day's key with the time
      picked on the old day. */
  lemma {:induction false} TimeSurvivesDayChange(docSlots: seq<Bucket>, sel: Selection, j: nat, k: nat)
    requires WellFormed(docSlots) && Consistent(docSlots, sel)
    requires sel.slotIndex < |docSlots| && j < |docSlots[sel.slotIndex]|
    requires docSlots[sel.slotIndex][j].available() && k < |docSlots|
    ensures Run(docSlots, sel, [ClickSlot(j), ChooseDay(k), BookClicked]).notices
            == [Booked(DayKey(docSlots, k), docSlots[sel.slotIndex][j].time())]
  {
    var time := docSlots[sel.slotIndex][j].time();
    var events := [ClickSlot(j), ChooseDay(k), BookClicked];
    var t1 := Step(docSlots, sel, ClickSlot(j));
    assert t1 == Transition(Selection(sel.slotIndex, time), []);
    var t2 := Step(docSlots, t1.next, ChooseDay(k));
    assert t2 == Transition(Selection(k, time), []);
    var t3 := Step(docSlots, t2.next, BookClicked);
    assert t3.notices == [Booked(DayKey(docSlots, k), time)];
    assert events[1..] == [ChooseDay(k), BookClicked] && events[1..][1..] == [BookClicked];
    assert Run(docSlots, t2.next, [BookClicked]).notices == t3.notices + Run(docSlots, t3.next, []).notices;
    assert Run(docSlots, t1.next, events[1..]).notices == t3.notices;
  }

  /** On a later day every time the page offers anywhere is offered too, so
      a booking for a later day always names one of that day's free slots. */
  lemma LaterDayOffersEveryTime(now: Now, k: nat, t: string)
    requires ValidNow(now) && k < |Schedule(now)| && k + Skipped(now) >= 1
    requires Offered(Schedule(now), t)
    ensures exists j :: 0 <= j < |Schedule(now)[k]|
              && Schedule(now)[k][j].available() && Schedule(now)[k][j].time() == t
  {
    var docSlots: seq<Bucket> := Schedule(now);
    var k', j' :| 0 <= k' < |docSlots| && 0 <= j' < |docSlots[k']|
                  && docSlots[k'][j'].available() && docSlots[k'][j'].time() == t;
    var m := docSlots[k'][j'].minute;
    SlotOnGrid(now, k', j');
    FullDayHasEveryMinute(now, k, m);
    var j := (m - 600) / 30;
    assert docSlots[k][j].minute == m;
  }

  /** Today's bucket need not offer the picked time: from 11:00 to 19:59,
      picking 10:00 AM on tomorrow's chip and then today's chip books today
      at 10:00 AM, a time today's bucket does not contain. */
  lemma TodayCanBeBookedAtPastTime(now: Now)
    requires ValidNow(now) && 11 <= now.hour < 20
    ensures WellFormed(Schedule(now))
    ensures Run(Schedule(now), Initial, [ChooseDay(1), ClickSlot(0), ChooseDay(0), BookClicked]).notices
            == [Booked(DayKey(Schedule(now), 0), "10:00 AM")]
    ensures forall j :: 0 <= j < |Schedule(now)[0]| ==> Schedule(now)[0][j].time() != "10:00 AM"
  {
    var docSlots: seq<Bucket> := Schedule(now);
    ScheduleWellFormed(now);
    LaterDaysAreFull(now, 1);
    ExampleLabels();
    SlotAvailability(docSlots[1][0]);
    var events := [ChooseDay(1), ClickSlot(0), ChooseDay(0), BookClicked];
    var t0 := Step(docSlots, Initial, ChooseDay(1));
    assert t0 == Transition(Selection(1, ""), []);
    TimeSurvivesDayChange(docSlots, t0.next, 0, 0);
    assert events[1..] == [ClickSlot(0), ChooseDay(0), BookClicked];
    forall j | 0 <= j < |docSlots[0]|
      ensures docSlots[0][j].time() != "10:00 AM"
    {
      SlotOnGrid(now, 0, j);
      if docSlots[0][j].time() == "10:00 AM" {
        LabelInjective(docSlots[0][j].minute, 600);
      }
    }
  }
}
