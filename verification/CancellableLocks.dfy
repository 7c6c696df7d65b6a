/** Locks that can be cancelled (sys/posix/src/lock.c).  `urt_sem_waitf`, `urt_mutex_lockf`,
    `urt_rwlock_read_lockf`, `urt_rwlock_write_lockf` and `urt_cond_waitf` all consist of the same
    loop around a timed wait with an absolute deadline.  What the stop callback and the timed
    waits answer is arbitrary. */
module CancellableLocks {
  import opened Common

  const SECOND: int := 1_000_000_000

  datatype Timespec = Timespec(sec: int, nsec: int)

  /** C's division and remainder round towards zero. */
  function CDiv(a: int, b: int): int
    requires b > 0
  {
    if a >= 0 then a / b else -((-a) / b)
  }

  function CRem(a: int, b: int): int
    requires b > 0
  {
    a - CDiv(a, b) * b
  }

  function ToTimespec(t: int): Timespec { Timespec(CDiv(t, SECOND), CRem(t, SECOND)) }

  predicate Normalised(ts: Timespec) { 0 <= ts.nsec < SECOND }

  /** The conversion loses nothing, and it yields a timespec the operating system accepts exactly
      when the time is not before the epoch, or on a whole second. */
  lemma TimespecExact(t: int)
    ensures ToTimespec(t).sec * SECOND + ToTimespec(t).nsec == t
    ensures Normalised(ToTimespec(t)) <==> t >= 0 || t % SECOND == 0
  {
    if t < 0 {
      assert -t == (-t) / SECOND * SECOND + (-t) % SECOND;
      assert t == t / SECOND * SECOND + t % SECOND;
    }
  }

  // Error numbers of Linux
  const EINTR: nat := 4
  const ETIMEDOUT: nat := 110
  const ECANCELED: nat := 125

  /** An error that is neither success nor a time-out. */
  type Errno = n: nat | n != 0 && n != ETIMEDOUT witness 1

  /** What a timed wait reports. */
  datatype Answer = Acquired | TimedOut | Failed(errno: Errno)

  datatype Outcome = Locked | Canceled | Error(errno: Errno)

  /** The answers of one call's environment, by round. */
  datatype Env = Env(stop: nat -> bool, answer: nat -> Answer)

  predicate Ends(e: Env, k: nat) { e.stop(k) || !e.answer(k).TimedOut? }

  /** The deadline of round `k`. */
  function Deadline(t0: int, delay: int, k: nat): int { t0 + (k + 1) * delay }

  /** Round `n` is the last one. */
  ghost predicate LastRound(e: Env, n: nat)
  {
    Ends(e, n) && forall k: nat :: k < n ==> !Ends(e, k)
  }

  function Result(e: Env, n: nat): Outcome
  {
    if e.stop(n) then Canceled
    else match e.answer(n) case Acquired => Locked case TimedOut => Canceled case Failed(x) => Error(x)
  }

  function Acquisitions(e: Env, rounds: nat): nat
  {
    if rounds == 0 then 0
    else Acquisitions(e, rounds - 1) + if e.answer(rounds - 1).Acquired? then 1 else 0
  }

  /** The loop, watched for `watch` rounds: with `None` it is still waiting after them, and no round
      has ended it.  `waits` are the deadlines it has passed to the back-end, `acquired` the
      acquisitions the back-end has granted, `ret` the number returned. */
  method LockF(t0: int, delay: int, e: Env, watch: nat)
    returns (res: Option<Outcome>, ret: nat, waits: seq<Timespec>, rounds: nat, acquired: nat)
    ensures res.None? <==> forall k: nat :: k < watch ==> !Ends(e, k)
    ensures res.None? ==> rounds == watch == |waits|
    ensures forall k: nat :: k < rounds ==> !e.stop(k) && e.answer(k) == TimedOut
    ensures res.Some? ==> e.stop(rounds) || e.answer(rounds) != TimedOut
    ensures res.Some? ==> LastRound(e, rounds) && rounds < watch && res.value == Result(e, rounds)
                          && |waits| == if res.value == Canceled then rounds else rounds + 1
    ensures forall k :: 0 <= k < |waits| ==> waits[k] == ToTimespec(Deadline(t0, delay, k))
    ensures forall k :: 0 <= k < |waits| ==>
              waits[k].sec * 1_000_000_000 + waits[k].nsec == t0 + (k + 1) * delay
    ensures res.Some? ==> (res == Some(Canceled) <==> e.stop(rounds))
    ensures res.Some? ==> (res == Some(Locked) <==> !e.stop(rounds) && e.answer(rounds) == Acquired)
    ensures res.Some? ==> forall x :: res == Some(Error(x)) <==> !e.stop(rounds) && e.answer(rounds) == Failed(x)
    ensures res.Some? ==> ret == if e.stop(rounds) then ECANCELED
                                 else if e.answer(rounds).Failed? then e.answer(rounds).errno else 0
    ensures res.Some? ==> (ret == 0 <==> acquired == 1)
    ensures acquired == if res == Some(Locked) then 1 else 0
    ensures acquired == Acquisitions(e, |waits|)
  {
    var t := t0;
    waits, rounds, acquired := [], 0, 0;
    ret := 0;
    while rounds < watch
      invariant rounds <= watch && forall k: nat :: k < rounds ==> !Ends(e, k)
      invariant forall k: nat :: k < rounds ==> !e.stop(k) && e.answer(k) == TimedOut
      invariant |waits| == rounds && t == t0 + rounds * delay
      invariant forall k :: 0 <= k < |waits| ==> waits[k] == ToTimespec(Deadline(t0, delay, k))
      invariant forall k :: 0 <= k < |waits| ==>
                  waits[k].sec * 1_000_000_000 + waits[k].nsec == t0 + (k + 1) * delay
      invariant acquired == Acquisitions(e, rounds) == 0
    {
      if e.stop(rounds) {
        assert Ends(e, rounds);
        return Some(Canceled), ECANCELED, waits, rounds, acquired;
      }
      t := t + delay;
      assert t == Deadline(t0, delay, rounds);
      var tp := Timespec(CDiv(t, SECOND), CRem(t, SECOND));
      TimespecExact(t);
      waits := waits + [tp];
      match e.answer(rounds) {
        case TimedOut =>
        case Acquired =>
          assert Ends(e, rounds);
          acquired := acquired + 1;
          return Some(Locked), 0, waits, rounds, acquired;
        case Failed(errno) =>
          assert Ends(e, rounds);
          return Some(Error(errno)), errno, waits, rounds, acquired;
      }
      rounds := rounds + 1;
    }
    return None, ret, waits, rounds, acquired;
  }

  /** There is only one round in which a call can end. */
  lemma LastRoundUnique(e: Env, m: nat, n: nat)
    requires LastRound(e, m) && LastRound(e, n)
    ensures m == n
  {}

  // ---------------------------------------------------------------------------------------
  // Latency

  /** When the k-th stop check is made and when the k-th wait returns. */
  datatype Clock = Clock(check: nat -> int, done: nat -> int)

  function Max(a: int, b: int): int { if a < b then b else a }

  /** The clock never runs backwards, a wait does not time out before its deadline, and each
      round is over, the next check included, at most `late` after its deadline has passed. */
  ghost predicate OnTime(e: Env, c: Clock, t0: int, delay: int, late: int, n: nat)
  {
    c.check(0) >= t0 && forall k: nat :: k <= n ==> RoundOnTime(e, c, t0, delay, late, n, k)
  }

  ghost predicate RoundOnTime(e: Env, c: Clock, t0: int, delay: int, late: int, n: nat, k: nat)
  {
    var end := Max(c.check(k), Deadline(t0, delay, k)) + late;
    && c.check(k) <= c.done(k) <= end
    && (k < n ==> c.done(k) <= c.check(k + 1) <= end)
    && (e.answer(k).TimedOut? ==> c.done(k) >= Deadline(t0, delay, k))
  }

  /** From `since` on the stop callback answers yes. */
  ghost predicate StopsFrom(e: Env, c: Clock, since: int, n: nat)
  {
    forall k: nat :: k <= n && c.check(k) >= since ==> e.stop(k)
  }

  /** The moment the call returns. */
  function ReturnTime(e: Env, c: Clock, n: nat): int
  {
    if e.stop(n) then c.check(n) else c.done(n)
  }

  /** In every round that is begun, the deadline is at most one delay away. */
  lemma DeadlineNear(e: Env, c: Clock, t0: int, delay: int, late: int, n: nat, k: nat)
    requires OnTime(e, c, t0, delay, late, n) && LastRound(e, n) && k <= n
    ensures Deadline(t0, delay, k) <= c.check(k) + delay
  {
    if k == 0 {
      assert Deadline(t0, delay, 0) == t0 + delay;
    } else {
      assert !Ends(e, k - 1);
      assert RoundOnTime(e, c, t0, delay, late, n, k - 1);
      assert Deadline(t0, delay, k) == Deadline(t0, delay, k - 1) + delay;
    }
  }

  /** A call cannot outlast the request to stop: of the rounds it has left behind, each was begun
      before the request, so their number is less than (since - t0) / delay + 1. */
  lemma RoundsBounded(e: Env, c: Clock, t0: int, delay: int, late: int, n: nat, since: int)
    requires OnTime(e, c, t0, delay, late, n) && StopsFrom(e, c, since, n)
    requires n > 0 && forall k: nat :: k < n ==> !Ends(e, k)
    ensures t0 + (n - 1) * delay < since
  {
    assert !Ends(e, n - 1);
    assert c.check(n - 1) < since;
    if n > 1 {
      assert !Ends(e, n - 2);
      assert RoundOnTime(e, c, t0, delay, late, n, n - 2);
    }
  }

  /** The documented promise: once stopping is requested the call returns within one delay, plus
      whatever the machine is late. */
  lemma CancellationLatency(e: Env, c: Clock, t0: int, delay: int, late: int, n: nat, since: int)
    requires OnTime(e, c, t0, delay, late, n) && LastRound(e, n) && StopsFrom(e, c, since, n)
    requires delay >= 0 && late >= 0
    ensures ReturnTime(e, c, n) <= Max(since, c.check(0)) + delay + late
  {
    if e.stop(n) {
      if n > 0 {
        assert !Ends(e, n - 1);
        assert c.check(n - 1) < since;
        DeadlineNear(e, c, t0, delay, late, n, n - 1);
        assert RoundOnTime(e, c, t0, delay, late, n, n - 1);
      }
    } else {
      assert c.check(n) < since;
      DeadlineNear(e, c, t0, delay, late, n, n);
      assert RoundOnTime(e, c, t0, delay, late, n, n);
    }
  }

  // ---------------------------------------------------------------------------------------
  // Without a stop callback, and with a single deadline

  /** `sem_wait` and `sem_timedwait` with a fixed deadline are repeated while interrupted: the
      outcome is the first answer that is not an interruption, and there is none as long as all are.
      The loop is watched for `watch` more answers than the first. */
  method RetryInterrupted(answer: nat -> Answer, watch: nat) returns (res: Option<Answer>, rounds: nat)
    ensures res.Some? ==> res.value == answer(rounds) != Failed(EINTR) && rounds <= watch
    ensures res.None? <==> forall k: nat :: k <= watch ==> answer(k) == Failed(EINTR)
    ensures res.Some? ==> forall k: nat :: k < rounds ==> answer(k) == Failed(EINTR)
  {
    rounds := 0;
    var a := answer(0);
    while a == Failed(EINTR) && rounds < watch
      invariant a == answer(rounds) && rounds <= watch
      invariant forall k: nat :: k < rounds ==> answer(k) == Failed(EINTR)
    {
      rounds := rounds + 1;
      a := answer(rounds);
    }
    res := if a == Failed(EINTR) then None else Some(a);
  }
}
