/** Runs of `urt_get_free_name` (src/registry.c, doc/urt_utils): which names are handed out,
    while other processes change the registry between the calls. */
module FreeNames {
  import opened Common
  import opened Names
  import opened RegistryTable
  import opened Odometer

  /** The part of the shared structure that the generator owns. */
  datatype Generator = Generator(next: nat, exhausted: bool)

  const FIRST: Generator := Generator(0, false)

  /** The indices of the slots in use. */
  function UsedSlots(slots: seq<Slot>): set<nat>
  {
    set i: nat | i < |slots| && InUse(slots[i])
  }

  /** `_find_by_name` finds the name. */
  predicate Taken(t: Table, name: string) { Shaped(t) && Lookup(t, name).Some? }

  /** The `a`-th name after number `v`. */
  ghost function Ahead(v: nat, a: nat): string { FreeName(Position(v, a)) }

  /** The counter's number `a` increments after it was `v`. */
  function Position(v: nat, a: nat): (r: nat)
    ensures r < PERIOD
  {
    (v + a) % PERIOD
  }

  predicate Moves(g: Generator, steps: nat, g': Generator)
  {
    && g.next < PERIOD && steps > 0
    && g' == Generator(Position(g.next, steps), g.exhausted || g.next + steps >= PERIOD)
    && (!g.exhausted ==> steps == 1)
  }

  /** One successful call on a table: `steps` increments of the counter, the last name read is
      returned.  Before exhaustion the registry is not consulted. */
  ghost predicate Call(t: Table, g: Generator, name: string, steps: nat, g': Generator)
  {
    && Moves(g, steps, g')
    && name == Ahead(g.next, steps - 1)
    && (g.exhausted ==> Reaches(t, g.next, name, steps))
  }

  /** The next `n` names are all in the registry. */
  ghost predicate AllTaken(t: Table, v: nat, n: nat)
  {
    forall a: nat :: a < n ==> Taken(t, Ahead(v, a))
  }

  /** `name` is the first name from number `v` on that is not found in the registry. */
  ghost predicate Reaches(t: Table, v: nat, name: string, steps: nat)
  {
    && steps > 0 && name == Ahead(v, steps - 1) && !Taken(t, name)
    && AllTaken(t, v, steps - 1)
  }

  // ---------------------------------------------------------------------------------------
  // The pigeonhole argument

  /** The `n` names from number `v` on. */
  ghost function Tried(v: nat, n: nat): set<string>
  {
    if n == 0 then {} else Tried(v, n - 1) + {Ahead(v, n - 1)}
  }

  lemma {:induction false} TriedAt(v: nat, n: nat, name: string) returns (a: nat)
    requires name in Tried(v, n)
    ensures a < n && Ahead(v, a) == name
  {
    if name == Ahead(v, n - 1) {
      a := n - 1;
    } else {
      a := TriedAt(v, n - 1, name);
    }
  }

  lemma ModShift(z: nat, n: nat)
    ensures (z + n * PERIOD) % PERIOD == z % PERIOD
  {
    if n > 0 {
      ModShift(z, n - 1);
      assert z + n * PERIOD == (z + (n - 1) * PERIOD) + PERIOD;
    }
  }

  lemma AddMod(x: nat, y: nat)
    ensures (x % PERIOD + y) % PERIOD == (x + y) % PERIOD
  {
    assert x == x / PERIOD * PERIOD + x % PERIOD;
    ModShift(x % PERIOD + y, x / PERIOD);
  }

  lemma EqualRemaindersIff(x: nat, y: nat)
    requires x <= y
    ensures x % PERIOD == y % PERIOD <==> (y - x) % PERIOD == 0
  {
    var d := y - x;
    assert x == x / PERIOD * PERIOD + x % PERIOD && d == d / PERIOD * PERIOD + d % PERIOD;
    AddMod(x, d);
    ModShift(x % PERIOD + d % PERIOD, d / PERIOD);
  }

  /** Two names are the same exactly when the way between them is a number of whole rounds. */
  lemma AheadEqualIff(v: nat, a: nat, b: nat)
    requires a <= b
    ensures Ahead(v, a) == Ahead(v, b) <==> (b - a) % PERIOD == 0
  {
    EqualRemaindersIff(v + a, v + b);
    if Ahead(v, a) == Ahead(v, b) {
      FreeNameInjective(Position(v, a), Position(v, b));
    }
  }

  lemma {:induction false} TriedSize(v: nat, n: nat)
    requires n <= PERIOD
    ensures |Tried(v, n)| == n
  {
    if n > 0 {
      TriedSize(v, n - 1);
      forall a: nat | a < n - 1 ensures Ahead(v, a) != Ahead(v, n - 1) {
        AheadEqualIff(v, a, n - 1);
      }
      NotTried(v, n - 1, Ahead(v, n - 1));
    }
  }

  lemma {:induction false} NotTried(v: nat, n: nat, name: string)
    requires forall a: nat :: a < n ==> Ahead(v, a) != name
    ensures name !in Tried(v, n)
  {
    if n > 0 {
      NotTried(v, n - 1, name);
    }
  }

  /** Distinct taken names sit in distinct slots. */
  lemma {:induction false} TakenFitsSlots(slots: seq<Slot>, names: set<string>, used: set<nat>)
    requires used <= UsedSlots(slots)
    requires forall n :: n in names ==> exists i :: i in used && slots[i].name == n
    ensures |names| <= |used|
    decreases |names|
  {
    if names != {} {
      var n :| n in names;
      var i :| i in used && slots[i].name == n;
      forall m | m in names - {n} ensures exists j :: j in used - {i} && slots[j].name == m {
        var j :| j in used && slots[j].name == m;
      }
      TakenFitsSlots(slots, names - {n}, used - {i});
    }
  }

  /** A run of taken names is no longer than the number of slots in use. */
  lemma TakenRunBounded(t: Table, v: nat, n: nat)
    requires n <= PERIOD && AllTaken(t, v, n)
    ensures n <= |UsedSlots(t.slots)| <= |t.slots|
  {
    UsedBounded(t.slots);
    TriedSize(v, n);
    forall m | m in Tried(v, n)
      ensures exists i :: i in UsedSlots(t.slots) && t.slots[i].name == m
    {
      var a := TriedAt(v, n, m);
      assert Taken(t, Ahead(v, a));
      var i := Lookup(t, m).value;
      assert i in UsedSlots(t.slots);
    }
    TakenFitsSlots(t.slots, Tried(v, n), UsedSlots(t.slots));
  }

  lemma {:induction false} UsedBounded(slots: seq<Slot>)
    ensures |UsedSlots(slots)| <= |slots|
  {
    if slots != [] {
      var n := |slots| - 1;
      UsedBounded(slots[..n]);
      var sum := UsedSlots(slots[..n]) + {n};
      assert UsedSlots(slots) <= sum;
      SubsetSize(UsedSlots(slots), sum);
    }
  }

  /** One call never steps further than one past the number of slots in use. */
  lemma CallSteps(t: Table, g: Generator, name: string, steps: nat, g': Generator)
    requires Call(t, g, name, steps, g')
    ensures steps <= |UsedSlots(t.slots)| + 1 <= |t.slots| + 1
  {
    UsedBounded(t.slots);
    if g.exhausted {
      ReachBounded(t, g.next, name, steps);
    }
  }

  lemma ReachBounded(t: Table, v: nat, name: string, steps: nat)
    requires Reaches(t, v, name, steps)
    ensures steps <= |UsedSlots(t.slots)| + 1
  {
    if steps > PERIOD {
      AheadEqualIff(v, steps - 1 - PERIOD, steps - 1);
    } else {
      TakenRunBounded(t, v, steps - 1);
    }
  }

  // ---------------------------------------------------------------------------------------
  // The search

  /** Some generated name is not found in the registry. */
  ghost predicate SomeFree(t: Table)
  {
    exists v: nat :: v < PERIOD && !Taken(t, FreeName(v))
  }

  /** So it is with fewer than 37^5 slots. */
  lemma SmallHasFree(t: Table)
    requires |t.slots| < PERIOD
    ensures SomeFree(t)
  {
    if !SomeFree(t) {
      TakenRunBounded(t, 0, PERIOD);
    }
  }

  /** The search passes over what the counter holds: the increment reports an error, or the name is
      found in the registry. */
  predicate Rejected(t: Table, s: string)
    requires |s| == NAME_LEN
  {
    Incremented(s).1 < 0 || Taken(t, Key(s))
  }

  /** From counter `s`, the first contents that are not passed over are those after `steps - 1`
      increments, and `name` is a copy of them. */
  ghost predicate Stops(t: Table, s: string, name: string, steps: nat)
    requires |s| == NAME_LEN
  {
    && steps > 0 && name == Key(Advanced(s, steps - 1)) && !Rejected(t, Advanced(s, steps - 1))
    && AllRejected(t, s, steps - 1)
  }

  ghost predicate AllRejected(t: Table, s: string, n: nat)
    requires |s| == NAME_LEN
  {
    forall m: nat :: m < n ==> Rejected(t, Advanced(s, m))
  }

  lemma PositionStep(v: nat, a: nat)
    ensures Position(Position(v, a), 1) == Position(v, a + 1)
  {
    AddMod(v + a, 1);
  }

  lemma {:induction false} AdvancedWellFormed(s: string, n: nat)
    requires WellFormed(s)
    ensures WellFormed(Advanced(s, n)) && Number(Advanced(s, n)) == Position(Number(s), n)
  {
    if n > 0 {
      AdvancedWellFormed(s, n - 1);
      IncrementedNumber(Advanced(s, n - 1));
      PositionStep(Number(s), n - 1);
    }
  }

  /** One turn of the search ends it, or the name of the bound `last` is still to come. */
  lemma SearchTurn(t: Table, s: string, steps: nat, last: nat)
    requires |s| == NAME_LEN && AllRejected(t, s, steps)
    requires steps <= last && !Rejected(t, Advanced(s, last))
    ensures Advanced(s, steps + 1) == Incremented(Advanced(s, steps)).0
    ensures if Rejected(t, Advanced(s, steps)) then AllRejected(t, s, steps + 1) && steps + 1 <= last
            else Stops(t, s, Key(Advanced(s, steps)), steps + 1)
  {}

  /** A well-formed counter runs through the numbers. */
  lemma AdvancedNumber(s: string, n: nat)
    requires WellFormed(s)
    ensures WellFormed(Advanced(s, n)) && Number(Advanced(s, n)) == Position(Number(s), n)
    ensures Advanced(s, n) == Ahead(Number(s), n)
  {
    AdvancedWellFormed(s, n);
    FreeNameOfNumber(Advanced(s, n));
  }

  lemma RejectedIffTaken(t: Table, s: string, n: nat)
    requires WellFormed(s)
    ensures Rejected(t, Advanced(s, n)) <==> Taken(t, Ahead(Number(s), n))
  {
    AdvancedNumber(s, n);
    IncrementedNumber(Advanced(s, n));
    FreeNamesAreApart(Advanced(s, n), "");
  }

  /** A well-formed counter comes to every name within one round. */
  lemma ComesTo(s: string, v: nat) returns (n: nat)
    requires WellFormed(s) && v < PERIOD
    ensures n < PERIOD && Ahead(Number(s), n) == FreeName(v)
  {
    n := if v >= Number(s) then v - Number(s) else v + PERIOD - Number(s);
  }

  lemma ComesToFree(t: Table, s: string) returns (n: nat)
    requires WellFormed(s) && SomeFree(t)
    ensures !Rejected(t, Advanced(s, n))
  {
    var v: nat :| v < PERIOD && !Taken(t, FreeName(v));
    n := ComesTo(s, v);
    RejectedIffTaken(t, s, n);
  }

  /** Whatever the counter holds: with a free name the search comes to an end. */
  lemma SearchEnds(t: Table, s: string) returns (n: nat)
    requires |s| == NAME_LEN && SomeFree(t)
    ensures !Rejected(t, Advanced(s, n))
  {
    var m := WellFormedInTime(s);
    var k := ComesToFree(t, Advanced(s, m));
    AdvancedFrom(s, m, k);
    n := m + k;
  }

  lemma {:induction false} AdvancedFrom(s: string, m: nat, n: nat)
    requires |s| == NAME_LEN
    ensures Advanced(Advanced(s, m), n) == Advanced(s, m + n)
  {
    if n > 0 {
      AdvancedFrom(s, m, n - 1);
    }
  }

  /** Without one, from a well-formed counter, it does not. */
  lemma SearchEndsIff(t: Table, s: string)
    requires WellFormed(s)
    ensures SomeFree(t) <==> exists n :: !Rejected(t, Advanced(s, n))
  {
    if SomeFree(t) {
      var n := SearchEnds(t, s);
    }
    if n :| !Rejected(t, Advanced(s, n)) {
      RejectedIffTaken(t, s, n);
    }
  }

  /** On a well-formed counter the search ends in the first name that is not found. */
  lemma StopsReaches(t: Table, s: string, name: string, steps: nat)
    requires WellFormed(s) && Stops(t, s, name, steps)
    ensures Reaches(t, Number(s), name, steps)
  {
    var n: nat := steps - 1;
    RejectedTaken(t, s, n);
    StopsAhead(t, s, n);
  }

  lemma RejectedTaken(t: Table, s: string, n: nat)
    requires WellFormed(s) && AllRejected(t, s, n)
    ensures AllTaken(t, Number(s), n)
  {
    forall a: nat | a < n ensures Taken(t, Ahead(Number(s), a)) {
      RejectedIffTaken(t, s, a);
    }
  }

  lemma StopsAhead(t: Table, s: string, n: nat)
    requires WellFormed(s) && !Rejected(t, Advanced(s, n))
    ensures Key(Advanced(s, n)) == Ahead(Number(s), n) && !Taken(t, Ahead(Number(s), n))
  {
    RejectedIffTaken(t, s, n);
    AdvancedNumber(s, n);
    FreeNamesAreApart(Advanced(s, n), "");
  }

  /** What `urt_get_free_name` does to a well-formed counter is a call. */
  lemma CallOnWellFormed(t: Table, s: string, exhausted: bool, name: string, steps: nat)
    requires WellFormed(s)
    requires if exhausted then Stops(t, s, name, steps) else steps == 1 && name == Key(s)
    ensures Incremented(s).1 >= 0 && WellFormed(Advanced(s, steps))
    ensures Call(t, Generator(Number(s), exhausted), name, steps,
                 Generator(Number(Advanced(s, steps)), exhausted || Incremented(s).1 != 0))
  {
    AdvancedWellFormed(s, steps);
    IncrementedNumber(s);
    if exhausted {
      StopsReaches(t, s, name, steps);
    } else {
      UncheckedName(s);
    }
  }

  lemma UncheckedName(s: string)
    requires WellFormed(s)
    ensures Key(s) == Ahead(Number(s), 0)
  {
    FreeNamesAreApart(s, "");
    FreeNameOfNumber(s);
  }

  // ---------------------------------------------------------------------------------------
  // Whole runs.  tables[k] is the registry at the k-th call: nothing relates one to the next.

  datatype Run = Run(tables: seq<Table>, states: seq<Generator>, names: seq<string>, steps: seq<nat>)

  ghost predicate IsRun(r: Run)
  {
    && |r.names| == |r.tables| == |r.steps| && |r.states| == |r.names| + 1
    && forall k :: 0 <= k < |r.names| ==>
         Call(r.tables[k], r.states[k], r.names[k], r.steps[k], r.states[k + 1])
  }

  lemma RunMoves(r: Run)
    requires IsRun(r)
    ensures AllMove(r.states, r.steps)
  {
    forall k | 0 <= k < |r.steps| ensures Moves(r.states[k], r.steps[k], r.states[k + 1]) {
      RunCall(r, k);
    }
  }

  lemma RunCall(r: Run, k: nat)
    requires IsRun(r) && k < |r.names|
    ensures Moves(r.states[k], r.steps[k], r.states[k + 1])
    ensures r.names[k] == Ahead(r.states[k].next, r.steps[k] - 1)
  {
    assert Call(r.tables[k], r.states[k], r.names[k], r.steps[k], r.states[k + 1]);
  }

  ghost predicate AllMove(states: seq<Generator>, steps: seq<nat>)
  {
    && |states| == |steps| + 1
    && forall k :: 0 <= k < |steps| ==> Moves(states[k], steps[k], states[k + 1])
  }

  /** Until the counter wraps, each call moves it by one. */
  lemma {:induction false} FirstRoundStates(states: seq<Generator>, steps: seq<nat>, v: nat, k: nat)
    requires AllMove(states, steps) && states[0] == Generator(v, false)
    requires k < |steps| && v + k < PERIOD
    ensures states[k] == Generator(v + k, false) && steps[k] == 1
    ensures states[k + 1].exhausted <==> v + k == PERIOD - 1
  {
    if k > 0 {
      FirstRoundStates(states, steps, v, k - 1);
      assert Moves(states[k - 1], steps[k - 1], states[k - 1 + 1]);
    }
    assert Moves(states[k], steps[k], states[k + 1]);
  }

  /** Before exhaustion, from a counter that reads `v`: the k-th call returns name number v + k, and
      exhaustion is flagged by exactly the call that returns the last name. */
  lemma RoundFrom(r: Run, v: nat, k: nat)
    requires IsRun(r) && r.states[0] == Generator(v, false) && k < |r.names| && v + k < PERIOD
    ensures r.names[k] == FreeName(v + k)
    ensures r.states[k] == Generator(v + k, false)
    ensures r.states[k + 1].exhausted <==> v + k == PERIOD - 1
  {
    RunMoves(r);
    FirstRoundStates(r.states, r.steps, v, k);
    assert r.names[k] == Ahead(v + k, 0) by { RunCall(r, k); }
    assert Position(v + k, 0) == v + k;
  }

  /** From initialisation: the k-th call returns name number k, and exhaustion is flagged by exactly
      the last of the 37^5 calls. */
  lemma FirstRound(r: Run, k: nat)
    requires IsRun(r) && r.states[0] == FIRST && k < |r.names| && k < PERIOD
    ensures r.names[k] == FreeName(k)
    ensures r.states[k] == Generator(k, false)
    ensures r.states[k + 1].exhausted <==> k == PERIOD - 1
  {
    RoundFrom(r, 0, k);
  }

  /** All 37^5 generated names are issued in the first round, each exactly once. */
  lemma FirstRoundIssuesAll(r: Run, name: string)
    requires IsRun(r) && r.states[0] == FIRST && |r.names| >= PERIOD && WellFormed(name)
    ensures r.names[Number(name)] == name
    ensures forall k :: 0 <= k < PERIOD && r.names[k] == name ==> k == Number(name)
  {
    FirstRound(r, Number(name));
    FreeNameOfNumber(name);
    forall k | 0 <= k < PERIOD && r.names[k] == name ensures k == Number(name) {
      FirstRound(r, k);
      NumberOfFreeName(k);
    }
  }

  // ---------------------------------------------------------------------------------------
  // A crash in the middle of an increment

  /** A process dies in the call after the first `v` ones, when the carry has blanked `n` digits, and
      others go on from what it has left: `before` are the calls up to there, `after` the others. */
  ghost predicate Crashed(before: Run, after: Run, v: nat, n: nat)
  {
    && IsRun(before) && before.states[0] == FIRST && |before.names| == v < PERIOD
    && n <= CarryLength(FreeName(v))
    && IsRun(after) && after.states[0] == Generator(Number(Torn(FreeName(v), n)), false)
  }

  /** The counter is set back by 37^n - 1, so the k-th call returns name number v - (37^n - 1) + k. */
  lemma AfterCrash(before: Run, after: Run, v: nat, n: nat, k: nat)
    requires Crashed(before, after, v, n)
    requires k < |after.names| && v - (Power(n) - 1) + k < PERIOD
    ensures 0 <= v - (Power(n) - 1) && after.states[0].next == v - (Power(n) - 1)
    ensures after.names[k] == FreeName(v - (Power(n) - 1) + k)
  {
    TornCounter(FreeName(v), n);
    NumberOfFreeName(v);
    RoundFrom(after, v - (Power(n) - 1), k);
  }

  /** What is issued a second time are exactly the names numbered v - (37^n - 1) to v - 1, by the
      first 37^n - 1 calls. */
  lemma ReissuedIff(before: Run, after: Run, v: nat, n: nat, k: nat)
    requires Crashed(before, after, v, n)
    requires k < |after.names| && v - (Power(n) - 1) + k < PERIOD
    ensures (exists j :: 0 <= j < v && before.names[j] == after.names[k]) <==> k < Power(n) - 1
  {
    AfterCrash(before, after, v, n, k);
    var number: nat := v - (Power(n) - 1) + k;
    if number < v {
      FirstRound(before, number);
    } else {
      forall j | 0 <= j < v ensures before.names[j] != after.names[k] {
        FirstRound(before, j);
        if FreeName(j) == FreeName(number) {
          FreeNameInjective(j, number);
        }
      }
    }
  }

  lemma PowerGrows(n: nat)
    ensures Power(n) == 1 <==> n == 0
  {}

  /** A name is issued twice within the round if and only if the crash was inside a carry and
      anybody calls again. */
  lemma CrashRepeatsIff(before: Run, after: Run, v: nat, n: nat)
    requires Crashed(before, after, v, n)
    ensures (exists j, k :: 0 <= j < v && 0 <= k < |after.names| && v - (Power(n) - 1) + k < PERIOD
                            && before.names[j] == after.names[k])
            <==> n > 0 && |after.names| > 0
  {
    PowerGrows(n);
    if j, k :| 0 <= j < v && 0 <= k < |after.names| && v - (Power(n) - 1) + k < PERIOD
               && before.names[j] == after.names[k]
    {
      ReissuedIff(before, after, v, n, k);
    }
    if n > 0 && |after.names| > 0 {
      ReissuedIff(before, after, v, n, 0);
    }
  }

  /** The longest carry there is: a crash in the very last call of the first round starts the whole
      round again, with the names not yet marked as exhausted. */
  lemma WholeRoundRepeats(before: Run, after: Run)
    requires Crashed(before, after, PERIOD - 1, DIGITS)
    ensures after.states[0] == FIRST
    ensures forall k :: 0 <= k < |after.names| && k < PERIOD - 1 ==> after.names[k] == before.names[k]
  {
    PeriodIsPower();
    TornCounter(FreeName(PERIOD - 1), DIGITS);
    NumberOfFreeName(PERIOD - 1);
    forall k | 0 <= k < |after.names| && k < PERIOD - 1 ensures after.names[k] == before.names[k] {
      FirstRound(after, k);
      FirstRound(before, k);
    }
  }

  /** The crash that `WholeRoundRepeats` starts from exists: the last name is all carry. */
  lemma LastNameIsAllCarry()
    ensures CarryLength(FreeName(PERIOD - 1)) == DIGITS
  {
    NumberOfFreeName(PERIOD - 1);
    IncrementedNumber(FreeName(PERIOD - 1));
  }

  // ---------------------------------------------------------------------------------------
  // Distinct names

  /** The counter's position after k calls, not reduced modulo 37^5. */
  function Travelled(steps: seq<nat>, k: nat): nat
    requires k <= |steps|
  {
    if k == 0 then 0 else Travelled(steps, k - 1) + steps[k - 1]
  }

  lemma {:induction false} NextIsTravelled(states: seq<Generator>, steps: seq<nat>, k: nat)
    requires AllMove(states, steps) && k < |steps|
    ensures states[k].next == (states[0].next + Travelled(steps, k)) % PERIOD
  {
    assert Moves(states[k], steps[k], states[k + 1]);
    if k > 0 {
      NextIsTravelled(states, steps, k - 1);
      assert Moves(states[k - 1], steps[k - 1], states[k]);
      AddMod(states[0].next + Travelled(steps, k - 1), steps[k - 1]);
    }
  }

  lemma AheadOfWrapped(v: nat, a: nat, b: nat)
    ensures Ahead((v + a) % PERIOD, b) == Ahead(v, a + b)
  {
    AddMod(v + a, b);
  }

  /** The k-th name is the one just before the counter's position. */
  lemma NameIsTravelled(r: Run, k: nat)
    requires IsRun(r) && k < |r.names|
    ensures Travelled(r.steps, k + 1) > 0
    ensures r.names[k] == Ahead(r.states[0].next, Travelled(r.steps, k + 1) - 1)
  {
    RunMoves(r);
    RunCall(r, k);
    NextIsTravelled(r.states, r.steps, k);
    AheadOfWrapped(r.states[0].next, Travelled(r.steps, k), r.steps[k] - 1);
  }

  lemma {:induction false} TravelledGrows(steps: seq<nat>, j: nat, k: nat, limit: nat)
    requires j <= k <= |steps|
    requires forall i :: 0 <= i < |steps| ==> 0 < steps[i] <= limit + 1
    ensures k - j <= Travelled(steps, k) - Travelled(steps, j) <= (k - j) * (limit + 1)
  {
    if j < k {
      TravelledGrows(steps, j, k - 1, limit);
      assert (k - j) * (limit + 1) == (k - 1 - j) * (limit + 1) + (limit + 1);
    }
  }

  lemma {:induction false} TravelledMonotone(steps: seq<nat>, j: nat, k: nat)
    requires j <= k <= |steps|
    ensures Travelled(steps, j) <= Travelled(steps, k)
  {
    if j < k {
      TravelledMonotone(steps, j, k - 1);
    }
  }

  /** Two calls of a run return the same name exactly when the counter has travelled a number of
      whole rounds between them. */
  lemma SameNameIff(r: Run, j: nat, k: nat)
    requires IsRun(r) && j < k < |r.names|
    ensures r.names[j] == r.names[k]
            <==> (Travelled(r.steps, k + 1) - Travelled(r.steps, j + 1)) % PERIOD == 0
  {
    NameIsTravelled(r, j);
    NameIsTravelled(r, k);
    TravelledMonotone(r.steps, j + 1, k + 1);
    AheadEqualIff(r.states[0].next, Travelled(r.steps, j + 1) - 1, Travelled(r.steps, k + 1) - 1);
  }

  /** However the registry changes between the calls, and whether or not the names are
      exhausted, any two among K successive calls return different names as long as
      K * (URT_MAX_OBJECTS + 1) <= 37^5. */
  lemma SuccessiveNamesDistinct(r: Run, limit: nat, j: nat, k: nat)
    requires IsRun(r) && j < k < |r.names|
    requires forall i :: 0 <= i < |r.tables| ==> |r.tables[i].slots| <= limit
    requires |r.names| * (limit + 1) <= PERIOD
    ensures r.names[j] != r.names[k]
  {
    forall i | 0 <= i < |r.steps| ensures 0 < r.steps[i] <= limit + 1 {
      CallSteps(r.tables[i], r.states[i], r.names[i], r.steps[i], r.states[i + 1]);
    }
    TravelledGrows(r.steps, j + 1, k + 1, limit);
    ScaledBelow(k - j, |r.names|, limit + 1);
    SameNameIff(r, j, k);
  }

  lemma ScaledBelow(a: nat, b: nat, c: nat)
    requires a < b && 0 < c
    ensures a * c < b * c
  {}
}
