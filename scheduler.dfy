/** `Scheduler`: the grid of hourly interview slots and the choice of slot
    with its three possible outcomes. */
module Scheduler {
  import opened TextUtil

  /** A naive `datetime`: `day` is the proleptic Gregorian ordinal of the
      date (`date.toordinal()`, 1 for 0001-01-01), then the time fields. */
  datatype DateTime = DateTime(day: int, hour: int, minute: int, second: int, microsecond: int)

  /** The ordinal of 9999-12-31, the last date `datetime` can hold. */
  const MaxOrdinal := 3652059

  /** The values a `datetime` object can hold. */
  predicate Valid(t: DateTime) {
    && 1 <= t.day <= MaxOrdinal
    && 0 <= t.hour < 24 && 0 <= t.minute < 60 && 0 <= t.second < 60
    && 0 <= t.microsecond < 1000000
  }

  /** Chronological order: `a < b`. */
  predicate Before(a: DateTime, b: DateTime) {
    || a.day < b.day
    || (a.day == b.day && a.hour < b.hour)
    || (a.day == b.day && a.hour == b.hour && a.minute < b.minute)
    || (a.day == b.day && a.hour == b.hour && a.minute == b.minute && a.second < b.second)
    || (a.day == b.day && a.hour == b.hour && a.minute == b.minute && a.second == b.second && a.microsecond < b.microsecond)
  }

  const FirstHour := 9
  const SlotsPerDay := 8

  /** Slot `k` of the grid that starts on `start`'s date. */
  function Slot(start: DateTime, k: nat): (r: DateTime)
    ensures FirstHour <= r.hour < FirstHour + SlotsPerDay
    ensures r.minute == 0 && r.second == 0 && r.microsecond == 0
    ensures start.day <= r.day
  {
    DateTime(start.day + k / SlotsPerDay, FirstHour + k % SlotsPerDay, 0, 0, 0)
  }

  /** `generate_interview_slots` raises `OverflowError` when stepping the
      date one day at a time, `days` times, leaves the range of `datetime`. */
  predicate Overflows(start: DateTime, days: int) {
    days >= 1 && start.day + days > MaxOrdinal
  }

  /** `generate_interview_slots(start_date, days)`: for each of `days` days,
      one slot on the hour from 9 to 16, with the time below the hour zeroed;
      `None` when advancing the date raises `OverflowError`. */
  method GenerateSlots(start: DateTime, days: int) returns (r: Option<seq<DateTime>>)
    requires Valid(start)
    ensures r.None? <==> Overflows(start, days)
    ensures r.Some? ==> |r.value| == SlotsPerDay * (if days > 0 then days else 0)
    ensures r.Some? ==> forall k :: 0 <= k < |r.value| ==> r.value[k] == Slot(start, k)
  {
    var slots: seq<DateTime> := [];
    var current := start;
    var d := 0;
    while d < days
      invariant 0 <= d <= (if days > 0 then days else 0)
      invariant current == start.(day := start.day + d)
      invariant current.day <= MaxOrdinal
      invariant |slots| == SlotsPerDay * d
      invariant forall k :: 0 <= k < |slots| ==> slots[k] == Slot(start, k)
    {
      var hour := FirstHour;
      while hour < FirstHour + SlotsPerDay
        invariant FirstHour <= hour <= FirstHour + SlotsPerDay
        invariant |slots| == SlotsPerDay * d + (hour - FirstHour)
        invariant forall k :: 0 <= k < |slots| ==> slots[k] == Slot(start, k)
      {
        assert (SlotsPerDay * d + (hour - FirstHour)) / SlotsPerDay == d;
        assert (SlotsPerDay * d + (hour - FirstHour)) % SlotsPerDay == hour - FirstHour;
        slots := slots + [current.(hour := hour, minute := 0, second := 0, microsecond := 0)];
        hour := hour + 1;
      }
      if current.day + 1 > MaxOrdinal {
        return None;
      }
      current := current.(day := current.day + 1);
      d := d + 1;
    }
    return Some(slots);
  }

  /** The slots come in strictly increasing time, so no two coincide. */
  lemma SlotsIncrease(start: DateTime, i: nat, j: nat)
    requires i < j
    ensures Before(Slot(start, i), Slot(start, j))
  {
    var a := Slot(start, i);
    var b := Slot(start, j);
    if i / SlotsPerDay == j / SlotsPerDay {
      assert i % SlotsPerDay < j % SlotsPerDay;
    } else {
      assert i / SlotsPerDay < j / SlotsPerDay;
    }
  }

  /** Every slot is a valid time on the hour between 9:00 and 16:00, on
      the start date or one of the `days - 1` dates after it. */
  lemma SlotInGrid(start: DateTime, days: int, k: nat)
    requires Valid(start) && !Overflows(start, days) && k < SlotsPerDay * days
    ensures 9 <= Slot(start, k).hour <= 16
    ensures start.day <= Slot(start, k).day < start.day + days
    ensures Valid(Slot(start, k))
  {
  }

  /** The first slot is 09:00 on the start date, which lies before the start
      instant exactly when that instant is later than 09:00:00.000000. */
  lemma FirstSlotMayBePast(start: DateTime)
    ensures Slot(start, 0) == DateTime(start.day, 9, 0, 0, 0)
    ensures Before(Slot(start, 0), start) <==>
              Before(DateTime(0, 9, 0, 0, 0), DateTime(0, start.hour, start.minute, start.second, start.microsecond))
  {
  }

  /** The three outcomes of `schedule`. */
  datatype Status = Scheduled | Failed | Error

  /** The dictionary `schedule` returns; `interview_time` is `None` where
      `schedule` returns `None`. */
  datatype ScheduleResult = ScheduleResult(interviewTime: Option<DateTime>, status: Status)

  /** The number of days `schedule` asks slots for. */
  const ScheduleDays := 5

  /** `schedule`: generate the slots from `now`, take the first, and report
      the outcome of sending the invitation (`sent`, what
      `send_interview_invitation` returns). */
  method Schedule(now: DateTime, sent: bool) returns (r: ScheduleResult)
    requires Valid(now)
    ensures r.status == Error <==> Overflows(now, ScheduleDays)
    ensures r.status == Scheduled <==> !Overflows(now, ScheduleDays) && sent
    ensures r.status == Scheduled ==> r.interviewTime == Some(DateTime(now.day, 9, 0, 0, 0))
    ensures r.status != Scheduled ==> r.interviewTime.None?
  {
    var slots := GenerateSlots(now, ScheduleDays);
    if slots.None? {
      return ScheduleResult(None, Error);
    }
    var interviewTime := slots.value[0];
    if sent {
      r := ScheduleResult(Some(interviewTime), Scheduled);
    } else {
      r := ScheduleResult(None, Failed);
    }
  }
}
