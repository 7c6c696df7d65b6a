/** Periodic release of tasks (sys/posix/src/task.c, sys/posix/include/urt_sys_time.h). */
module PeriodicTask {
  import opened Common

  // ---------------------------------------------------------------------------------------
  // Sleeping

  function Micros(t: int): int { (t + 999) / 1000 }

  /** The nanoseconds that `urt_sleep(t)` asks for in its two calls; the first takes an
      `unsigned int`. */
  function Requested(t: int): int
  {
    if t <= 0 then 0
    else Micros(t) / 1_000_000 % UINT_RANGE * 1_000_000_000 + Micros(t) % 1_000_000 * 1000
  }

  /** `urt_sleep`: the arguments of `sleep` and `usleep`. */
  method Sleep(t: int) returns (seconds: int, micros: int)
    ensures seconds * 1_000_000_000 + micros * 1000 == Requested(t)
    ensures 0 <= seconds < UINT_RANGE && 0 <= micros < 1_000_000
    ensures t <= 0 ==> seconds == 0 && micros == 0
    ensures t > 0 ==> seconds == (t + 999) / 1000 / 1_000_000 % 0x1_0000_0000
    ensures t > 0 ==> micros == (t + 999) / 1000 % 1_000_000
  {
    if t <= 0 {
      return 0, 0;
    }
    var us := (t + 999) / 1000;
    var ts := us / 1_000_000;
    var tu := us % 1_000_000;
    return ts % UINT_RANGE, tu;
  }

  /** The longest time whose seconds fit `sleep`'s argument. */
  const LONGEST: int := UINT_RANGE * 1_000_000_000 - 1000

  /** At least `t` and less than a microsecond more is requested, exactly when the seconds fit. */
  lemma SleepCovers(t: int)
    requires t > 0
    ensures t <= Requested(t) < t + 1000 <==> t <= LONGEST
  {
    var us := Micros(t);
    var q := us / 1_000_000;
    assert us == q * 1_000_000 + us % 1_000_000;
    assert t <= us * 1000 < t + 1000;
    if q < UINT_RANGE {
      assert Requested(t) == us * 1000;
    } else {
      assert q % UINT_RANGE <= q - UINT_RANGE;
    }
  }

  // ---------------------------------------------------------------------------------------
  // The period state machine

  datatype Attr = Attr(period: int, start: int, calculated: bool)

  /** `_update_start_time` with the clock at `now` */
  function Updated(a: Attr, now: int): Attr
  {
    if a.period <= 0 || a.calculated then a
    else a.(start := if now > a.start then a.start + a.period else a.start, calculated := true)
  }

  class Task {
    var period: int
    var startTime: int
    var nextPeriodCalculated: bool

    ghost function Value(): Attr
      reads this
    {
      Attr(period, startTime, nextPeriodCalculated)
    }

    constructor (period: int, startTime: int)
      ensures Value() == Attr(period, startTime, false)
    {
      this.period, this.startTime, nextPeriodCalculated := period, startTime, false;
    }

    method UpdateStartTime(now: int)
      modifies this
      ensures Value() == Updated(old(Value()), now)
      ensures period == old(period)
      ensures period <= 0 ==> startTime == old(startTime) && nextPeriodCalculated == old(nextPeriodCalculated)
      ensures period > 0 ==> nextPeriodCalculated
      ensures startTime == old(startTime)
                           + if period > 0 && !old(nextPeriodCalculated) && now > old(startTime) then period else 0
    {
      if period <= 0 {
        return;
      }
      if nextPeriodCalculated {
        return;
      }
      if now > startTime {
        startTime := startTime + period;
      }
      nextPeriodCalculated := true;
    }

    /** `urt_task_wait_period`; the clock is read twice, the second time to compute the sleep. */
    method WaitPeriod(now: int, sleepFrom: int) returns (seconds: int, micros: int)
      modifies this
      ensures Value() == Updated(old(Value()), now).(calculated := false) && !nextPeriodCalculated
      ensures seconds * 1_000_000_000 + micros * 1000 == Requested(startTime - sleepFrom)
    {
      UpdateStartTime(now);
      seconds, micros := Sleep(startTime - sleepFrom);
      nextPeriodCalculated := false;
    }

    /** `urt_task_next_period` */
    method NextPeriod(now: int) returns (time: int)
      modifies this
      ensures Value() == Updated(old(Value()), now) && time == startTime
    {
      UpdateStartTime(now);
      time := startTime;
    }
  }

  // ---------------------------------------------------------------------------------------
  // Runs: any mix of calls, with a clock that does not run backwards

  /** `now` is the reading of `_update_start_time`, `sleepFrom` the one the sleep is computed
      from, `wake` the moment the wait returns; `cut` says that a signal has cut the sleep short. */
  datatype Event = Next(now: int) | Wait(now: int, sleepFrom: int, wake: int, cut: bool)

  function Step(a: Attr, e: Event): Attr
  {
    match e
    case Next(now) => Updated(a, now)
    case Wait(now, _, _, _) => Updated(a, now).(calculated := false)
  }

  function EndOf(e: Event): int { if e.Wait? then e.wake else e.now }

  /** Unless it is cut short, a sleep lasts at least as long as it was asked to. */
  predicate SleepsEnough(a: Attr, e: Event)
  {
    e.Wait? ==>
      && e.now <= e.sleepFrom <= e.wake
      && (!e.cut ==> e.wake >= e.sleepFrom + Requested(Step(a, e).start - e.sleepFrom))
  }

  ghost predicate IsRun(states: seq<Attr>, events: seq<Event>)
  {
    && |states| == |events| + 1 && states[0].period > 0 && !states[0].calculated
    && (forall k :: 0 <= k < |events| ==>
          states[k + 1] == Step(states[k], events[k]) && SleepsEnough(states[k], events[k]))
    && (forall j, k :: 0 <= j < k < |events| ==> EndOf(events[j]) <= events[k].now)
  }

  lemma {:induction false} PeriodConstant(states: seq<Attr>, events: seq<Event>, k: nat)
    requires IsRun(states, events) && k < |states|
    ensures states[k].period == states[0].period
  {
    if k > 0 {
      PeriodConstant(states, events, k - 1);
    }
  }

  function Waits(events: seq<Event>, k: nat): nat
    requires k <= |events|
  {
    if k == 0 then 0 else Waits(events, k - 1) + if events[k - 1].Wait? then 1 else 0
  }

  /** The number of periods the start time has advanced. */
  function Advances(states: seq<Attr>, k: nat): nat
    requires k < |states|
  {
    if k == 0 then 0
    else Advances(states, k - 1) + if states[k].start != states[k - 1].start then 1 else 0
  }

  /** The start time stays on the grid of the initial one, and advances at most once per wait. */
  lemma {:induction false} OnTheGrid(states: seq<Attr>, events: seq<Event>, k: nat)
    requires IsRun(states, events) && k < |states|
    ensures states[k].start == states[0].start + Advances(states, k) * states[0].period
    ensures Advances(states, k) <= Waits(events, k) + if states[k].calculated then 1 else 0
  {
    if k > 0 {
      OnTheGrid(states, events, k - 1);
      PeriodConstant(states, events, k - 1);
      assert states[k] == Step(states[k - 1], events[k - 1]);
      OneMore(Advances(states, k - 1), states[0].period);
    }
  }

  /** Every answer of `urt_task_next_period` between two waits is the time the following wait
      sleeps to. */
  lemma {:induction false} NextTellsTheWait(states: seq<Attr>, events: seq<Event>, i: nat, j: nat)
    requires IsRun(states, events) && i < j < |events|
    requires events[i].Next? && events[j].Wait?
    requires forall k :: i <= k < j ==> events[k].Next?
    ensures states[i + 1].start == states[j + 1].start
  {
    PeriodConstant(states, events, i);
    NextKeepsStart(states, events, i, j);
  }

  lemma {:induction false} NextKeepsStart(states: seq<Attr>, events: seq<Event>, i: nat, j: nat)
    requires IsRun(states, events) && i < j <= |events|
    requires forall k :: i <= k < j ==> events[k].Next?
    ensures states[j].calculated && states[j].start == states[i + 1].start
    decreases j
  {
    PeriodConstant(states, events, j - 1);
    if i + 1 < j {
      NextKeepsStart(states, events, i, j - 1);
    }
  }

  /** No wait returns before the period it was waiting for, unless the sleep was cut short or too
      long for `sleep` to be asked for. */
  lemma NoEarlyRelease(states: seq<Attr>, events: seq<Event>, k: nat)
    requires IsRun(states, events) && k < |events| && events[k].Wait?
    ensures events[k].wake >= states[k + 1].start || events[k].cut
            || states[k + 1].start - events[k].sleepFrom > LONGEST
  {
    assert SleepsEnough(states[k], events[k]);
    var t := states[k + 1].start - events[k].sleepFrom;
    if t > 0 {
      SleepCovers(t);
    }
  }

  /** And in those cases it can: a wait is sure not to return early if and only if the seconds of its
      sleep fit, or, with signals, if there is nothing to sleep. */
  lemma NeverEarlyIff(a: Attr, now: int, sleepFrom: int, cut: bool)
    requires now <= sleepFrom
    ensures var start := Step(a, Next(now)).start;
            (forall wake :: SleepsEnough(a, Wait(now, sleepFrom, wake, cut)) ==> wake >= start)
            <==> start - sleepFrom <= if cut then 0 else LONGEST
  {
    var start := Step(a, Next(now)).start;
    var t := start - sleepFrom;
    if t > LONGEST {
      TooLongIsShort(t);
    } else if t > 0 {
      SleepCovers(t);
    }
    assert SleepsEnough(a, Wait(now, sleepFrom, sleepFrom + if cut then 0 else Requested(t), cut));
  }

  lemma TooLongIsShort(t: int)
    requires t > LONGEST
    ensures Requested(t) < t
  {}

  /** Two waits with nothing but `urt_task_next_period` between them are for the same period exactly
      when the first clock reading after the first wait, whoever makes it, is not beyond its period:
      at the very moment of release the period is repeated. */
  lemma RepeatsIff(states: seq<Attr>, events: seq<Event>, i: nat, j: nat)
    requires IsRun(states, events) && i < j < |events| && events[i].Wait? && events[j].Wait?
    requires forall k :: i < k < j ==> events[k].Next?
    ensures states[j + 1].start == states[i + 1].start <==> events[i + 1].now <= states[i + 1].start
  {
    PeriodConstant(states, events, i);
    PeriodConstant(states, events, i + 1);
    assert states[i + 1] == Step(states[i], events[i]);
    assert states[i + 1 + 1] == Step(states[i + 1], events[i + 1]);
    if i + 1 < j {
      NextTellsTheWait(states, events, i + 1, j);
    }
  }

  /** So the second wait's own reading does not matter once `urt_task_next_period` was called: here it
      is far beyond the period, and the period is repeated. */
  lemma RepeatedLate()
    ensures var events := [Wait(1000, 1000, 10000, false), Next(10000), Wait(25000, 25000, 25000, false)];
            var a := Attr(10000, 0, false);
            var b := Attr(10000, 10000, false);
            IsRun([a, b, b.(calculated := true), b], events)
  {}

  /** The periods that have been opened by the first m calls: one for each wait, and one more if
      `urt_task_next_period` has computed the next wait's already. */
  function Opened(states: seq<Attr>, events: seq<Event>, m: nat): nat
    requires m < |states| && m <= |events|
  {
    Waits(events, m) + if states[m].calculated then 1 else 0
  }

  /** Under any mix of calls, a task that is late at the first of them is moved on by one period for
      each period opened, until it is not late any more. */
  lemma {:induction false} CatchingUp(states: seq<Attr>, events: seq<Event>, m: nat)
    requires IsRun(states, events) && m <= |events|
    requires m > 0 ==> events[0].now >= states[0].start
    ensures states[m].start <= states[0].start + Opened(states, events, m) * states[0].period
    ensures m > 0 ==> states[m].start == states[0].start + Opened(states, events, m) * states[0].period
                      || states[m].start >= events[0].now
  {
    if m > 0 {
      CatchingUp(states, events, m - 1);
      CallAdvances(states, events, m - 1);
      OneMore(Opened(states, events, m - 1), states[0].period);
    }
  }

  /** A call opens a period or finds it open.  In the first case it moves the start time on by one
      period, or finds it late enough already. */
  lemma CallAdvances(states: seq<Attr>, events: seq<Event>, k: nat)
    requires IsRun(states, events) && k < |events|
    ensures if states[k].calculated then
              && Opened(states, events, k + 1) == Opened(states, events, k)
              && states[k + 1].start == states[k].start
            else
              && Opened(states, events, k + 1) == Opened(states, events, k) + 1
              && (|| states[k + 1].start == states[k].start + states[0].period
                  || states[k + 1].start == states[k].start >= events[0].now)
  {
    PeriodConstant(states, events, k);
    FirstCall(states, events);
    assert states[k + 1] == Step(states[k], events[k]);
    assert k == 0 || EndOf(events[0]) <= events[k].now;
  }

  lemma FirstCall(states: seq<Attr>, events: seq<Event>)
    requires IsRun(states, events) && |events| > 0
    ensures events[0].now <= EndOf(events[0])
  {
    assert SleepsEnough(states[0], events[0]);
  }

  /** A task that is late by `late` at the first of m calls, of any kind, has caught up after them, in
      the sense that its start time is not before that moment, if and only if the periods opened make
      up for it: it takes exactly ceil(late / period) of them. */
  lemma CaughtUpIff(states: seq<Attr>, events: seq<Event>, m: nat, late: nat)
    requires IsRun(states, events) && 0 < m <= |events| && events[0].now == states[0].start + late
    ensures states[m].start >= events[0].now <==> Opened(states, events, m) * states[0].period >= late
    ensures events[m - 1].Wait? ==>
              (states[m].start >= events[0].now <==> Waits(events, m) * states[0].period >= late)
  {
    CatchingUp(states, events, m);
    assert states[m - 1 + 1] == Step(states[m - 1], events[m - 1]);
  }
}
