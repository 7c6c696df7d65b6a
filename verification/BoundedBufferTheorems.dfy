/** What every run of `BoundedBuffer` has, and that every run ends. */
module BoundedBufferTheorems {
  import opened Common
  import opened BoundedBuffer

  // ---------------------------------------------------------------------------------------
  // What every run has

  ghost predicate Reachable(g: Config, s: State)
  {
    exists ss, acts :: IsRun(g, ss, acts) && ss[|ss| - 1] == s
  }

  lemma ReachableInv(g: Config, s: State)
    requires Reachable(g, s)
    ensures Inv(g, s)
  {
    var ss, acts :| IsRun(g, ss, acts) && ss[|ss| - 1] == s;
    RunInv(g, ss, acts, |ss| - 1);
  }

  /** There is an initial state for every number of items, cells and consumers. */
  lemma InitialExists(g: Config)
    requires g.capacity > 0 && g.consumers > 0
    ensures Initial(g, State(seq(g.capacity, _ => 0), 0, 0, 0, None, if g.items == 0 then DLock else PLock, 0,
                             seq(g.consumers, _ => CLock), []))
  {}

  /** Whoever waits may wake up at any time without a signal, and goes on where a signal would have
      sent it. */
  lemma WaitersMayWake(g: Config, s: State, k: nat)
    requires Reachable(g, s)
    ensures |s.cells| == g.capacity > 0
    ensures s.producer == PWait ==>
              Enabled(s, Spurious(Producer)) && Apply(g, s, Spurious(Producer)) == s.(producer := PWoken)
    ensures s.producer == DWait ==>
              Enabled(s, Spurious(Producer)) && Apply(g, s, Spurious(Producer)) == s.(producer := DWoken)
    ensures k < |s.consumers| && s.consumers[k] == CWait ==>
              Enabled(s, Spurious(Consumer(k)))
              && Apply(g, s, Spurious(Consumer(k))) == s.(consumers := s.consumers[k := CWoken])
  {
    ReachableInv(g, s);
  }

  predicate Finished(s: State)
  {
    s.producer == PDone && forall k :: 0 <= k < |s.consumers| ==> s.consumers[k] == CDone
  }

  /** At most one thread is inside the critical section, and none leaves it by the `break`. */
  lemma MutualExclusion(g: Config, s: State, j: nat, k: nat)
    requires Reachable(g, s) && j < |s.consumers| && k < |s.consumers|
    ensures CHolds(s.consumers[j]) ==> !PHolds(s.producer)
    ensures CHolds(s.consumers[j]) && CHolds(s.consumers[k]) ==> j == k
    ensures s.consumers[j] != CStuck
  {
    ReachableInv(g, s);
    assert ConsumerOk(g, s, j);
  }

  /** Every item is consumed once and in the order it was produced; what is in the ring is
      exactly what is missing; the sum is that of the items taken. */
  lemma FirstInFirstOut(g: Config, s: State)
    requires Reachable(g, s)
    ensures |s.cells| == g.capacity > 0
    ensures |s.log| == s.start && forall i :: 0 <= i < |s.log| ==> s.log[i] == i
    ensures s.start + s.count == Stored(s) <= g.items && 0 <= s.count <= g.capacity
    ensures forall j :: s.start <= j < s.start + s.count ==> s.cells[j % g.capacity] == j
    ensures 2 * s.sum == s.start * (s.start - 1)
  {
    ReachableInv(g, s);
    forall j | s.start <= j < s.start + s.count ensures s.cells[j % g.capacity] == j {
      assert Cell(g, s, j) == j;
      RemainderIs(j, g.capacity);
    }
    SumOfFirst(s.start);
  }

  lemma {:induction false} SumOfFirst(n: nat)
    ensures 2 * Sum(FirstItems(n)) == n * (n - 1)
  {
    if n > 0 {
      SumOfFirst(n - 1);
      assert FirstItems(n)[..n - 1] == FirstItems(n - 1);
    }
  }

  /** Who sleeps unsignalled has reason to: a producer only while there is something to consume,
      a consumer only while there is nothing in the ring and something still to come, except
      for the moment between the change and the signal that follows it. */
  lemma SleepersHaveReason(g: Config, s: State, k: nat)
    requires Reachable(g, s) && k < |s.consumers|
    ensures s.producer in {PWait, DWait} && !Signalling(s) ==> s.count > 0
    ensures s.consumers[k] == CWait && s.producer != PBroadcast ==>
              s.count == 0 && s.start < g.items
    ensures s.producer in {DLock, DCheck, DWait, DWoken, DUnlock, PDone} ==> s.consumers[k] != CWait
  {
    ReachableInv(g, s);
    assert ConsumerOk(g, s, k);
  }

  /** No deadlock: as long as not everybody has finished, some thread can take a step of its
      own. */
  lemma NoDeadlock(g: Config, s: State)
    requires Reachable(g, s) && !Finished(s)
    ensures exists t :: Enabled(s, Run(t))
  {
    ReachableInv(g, s);
    assert ConsumerOk(g, s, 0);
    if CanProduce(s) {
      assert Enabled(s, Run(Producer));
    } else if s.owner.Some? && s.owner.value.Consumer? && s.owner.value.k < |s.consumers| {
      var k := s.owner.value.k;
      assert ConsumerOk(g, s, k);
      assert Enabled(s, Run(Consumer(k)));
    } else if exists k :: 0 <= k < |s.consumers| && s.consumers[k] in {CLock, CWoken} {
      var k :| 0 <= k < |s.consumers| && s.consumers[k] in {CLock, CWoken};
      OwnerIsAThread(g, s);
      assert Enabled(s, Run(Consumer(k)));
    } else {
      OwnerIsAThread(g, s);
      AllAsleepMeansFinished(g, s);
    }
  }

  ghost predicate OwnerExists(s: State)
  {
    s.owner.Some? && s.owner.value.Consumer? ==> s.owner.value.k < |s.consumers|
  }

  lemma OwnerIsAThread(g: Config, s: State)
    requires Reachable(g, s)
    ensures OwnerExists(s)
  {
    var ss, acts :| IsRun(g, ss, acts) && ss[|ss| - 1] == s;
    OwnerRun(g, ss, acts, |ss| - 1);
  }

  lemma {:induction false} OwnerRun(g: Config, ss: seq<State>, acts: seq<Action>, n: nat)
    requires IsRun(g, ss, acts) && n < |ss|
    ensures OwnerExists(ss[n])
  {
    if n > 0 {
      OwnerRun(g, ss, acts, n - 1);
    }
  }

  lemma AllAsleepMeansFinished(g: Config, s: State)
    requires Inv(g, s) && s.owner.None? && s.producer in {PWait, DWait, PDone}
    requires forall k :: 0 <= k < |s.consumers| ==> s.consumers[k] in {CWait, CDone}
    ensures Finished(s)
  {
    assert ConsumerOk(g, s, 0);
    forall k | 0 <= k < |s.consumers| ensures s.consumers[k] == CDone {
      assert ConsumerOk(g, s, k);
    }
  }

  /** What a finished run has computed. */
  lemma FinishedResult(g: Config, s: State)
    requires Reachable(g, s) && Finished(s)
    ensures s.start == g.items && s.count == 0 && s.owner.None?
    ensures s.log == FirstItems(g.items)
    ensures 2 * s.sum == g.items * (g.items - 1)
  {
    ReachableInv(g, s);
    OwnerIsAThread(g, s);
    var k := if s.owner.Some? && s.owner.value.Consumer? then s.owner.value.k else 0;
    assert s.consumers[k] == CDone && ConsumerOk(g, s, k);
    SumOfFirst(s.start);
  }

  /** The constants of the test: 1000 items, and 499500 expected by `test_end`. */
  lemma TestResult(g: Config, s: State)
    requires Reachable(g, s) && Finished(s) && g.items == 1000
    ensures s.sum == 499500
  {
    FinishedResult(g, s);
  }

  // ---------------------------------------------------------------------------------------
  // Every run ends

  function PRank(g: Config, p: PPc): nat
  {
    match p
    case PLock => 3  case PWoken => 3  case PCheck => 2  case PWait => 0  case PPut => 1
    case PBroadcast => 5 + 3 * g.consumers  case PUnlock => 4
    case DLock => 3  case DWoken => 3  case DCheck => 2  case DWait => 0  case DUnlock => 1
    case PDone => 0
  }

  function CRank(c: CPc): nat
  {
    match c
    case CLock => 3  case CWoken => 3  case CCheck => 2  case CWait => 0  case CTake => 1
    case CSignal => 8  case CUnlock => 4  case CLeave => 1  case CDone => 0  case CStuck => 0
  }

  function CRanks(cs: seq<CPc>): nat
  {
    if cs == [] then 0 else CRanks(cs[..|cs| - 1]) + CRank(cs[|cs| - 1])
  }

  lemma {:induction false} CRanksOfUpdate(cs: seq<CPc>, k: nat, c: CPc)
    requires k < |cs|
    ensures CRanks(cs[k := c]) == CRanks(cs) - CRank(cs[k]) + CRank(c)
  {
    var n := |cs| - 1;
    if k < n {
      CRanksOfUpdate(cs[..n], k, c);
      assert cs[k := c][..n] == cs[..n][k := c];
    } else {
      assert cs[k := c][..n] == cs[..n];
    }
  }

  lemma {:induction false} CRanksOfWoken(cs: seq<CPc>)
    ensures CRanks(Woken(cs)) <= CRanks(cs) + 3 * |cs|
  {
    if cs != [] {
      var n := |cs| - 1;
      CRanksOfWoken(cs[..n]);
      assert Woken(cs)[..n] == Woken(cs[..n]);
    }
  }

  /** How many steps a state is away from the end, spurious wake-ups aside. */
  function Potential(g: Config, s: State): int
  {
    (5 + 3 * g.consumers) * (g.items - s.start - s.count) + 8 * (g.items - s.start)
    + PRank(g, s.producer) + CRanks(s.consumers)
  }

  lemma PotentialNotNegative(g: Config, s: State)
    requires Inv(g, s)
    ensures Potential(g, s) >= 0
  {
    ProductNotNegative(5 + 3 * g.consumers, g.items - s.start - s.count);
  }

  lemma InitialPotential(g: Config, s: State)
    requires Initial(g, s)
    ensures Potential(g, s) == (3 * g.consumers + 13) * g.items + 3 * g.consumers + 3
  {
    CRanksAtStart(g.consumers);
    Distribute(3 * g.consumers + 5, 8, g.items);
  }

  lemma ProduceDecreases(g: Config, s: State)
    requires Inv(g, s) && CanProduce(s)
    ensures Potential(g, Produce(g, s)) < Potential(g, s)
  {
    match s.producer
    case PPut => PutDecreases(g, s);
    case PBroadcast => BroadcastDecreases(g, s);
    case _ => SamePending(g, s);
  }

  /** Storing an item trades its share of the potential for the rank of the broadcast. */
  lemma PutDecreases(g: Config, s: State)
    requires Inv(g, s) && s.producer == PPut
    ensures Potential(g, Produce(g, s)) < Potential(g, s)
  {
    OneLess(5 + 3 * g.consumers, g.items - s.start - s.count);
  }

  /** A broadcast may wake everybody. */
  lemma BroadcastDecreases(g: Config, s: State)
    requires Inv(g, s) && s.producer == PBroadcast
    ensures Potential(g, Produce(g, s)) < Potential(g, s)
  {
    CRanksOfWoken(s.consumers);
  }

  /** All other steps of the producer lower its own rank and nothing else. */
  lemma SamePending(g: Config, s: State)
    requires Inv(g, s) && CanProduce(s) && s.producer != PPut && s.producer != PBroadcast
    ensures Potential(g, Produce(g, s)) < Potential(g, s)
  {
    var s' := Produce(g, s);
    assert s'.start == s.start && s'.count == s.count && s'.consumers == s.consumers;
  }

  lemma ConsumeDecreases(g: Config, s: State, k: nat)
    requires Inv(g, s) && CanConsume(s, k)
    ensures Potential(g, Consume(g, s, k)) < Potential(g, s)
  {
    var s' := Consume(g, s, k);
    CRanksOfUpdate(s.consumers, k, s'.consumers[k]);
    if s.consumers[k] == CTake {
      TakeInv(g, s, k);
    }
  }

  lemma SpuriousAddsThree(g: Config, s: State, t: Thread)
    requires Inv(g, s) && Enabled(s, Spurious(t))
    ensures Potential(g, Apply(g, s, Spurious(t))) == Potential(g, s) + 3
  {
    if t.Consumer? {
      CRanksOfUpdate(s.consumers, t.k, CWoken);
    }
  }

  function SpuriousIn(acts: seq<Action>): nat
  {
    if acts == [] then 0
    else SpuriousIn(acts[..|acts| - 1]) + if acts[|acts| - 1].Spurious? then 1 else 0
  }

  lemma {:induction false} StepsSpendPotential(g: Config, ss: seq<State>, acts: seq<Action>, n: nat)
    requires IsRun(g, ss, acts) && n <= |acts|
    ensures n + Potential(g, ss[n]) <= Potential(g, ss[0]) + 4 * SpuriousIn(acts[..n])
  {
    if n > 0 {
      StepsSpendPotential(g, ss, acts, n - 1);
      RunInv(g, ss, acts, n - 1);
      assert acts[..n][..n - 1] == acts[..n - 1] && acts[..n][n - 1] == acts[n - 1];
      match acts[n - 1]
      case Run(Producer) => ProduceDecreases(g, ss[n - 1]);
      case Run(Consumer(k)) => ConsumeDecreases(g, ss[n - 1], k);
      case Spurious(t) => SpuriousAddsThree(g, ss[n - 1], t);
    }
  }

  lemma {:induction false} CRanksAtStart(n: nat)
    ensures CRanks(seq(n, _ => CLock)) == 3 * n
  {
    if n > 0 {
      CRanksAtStart(n - 1);
      var all := seq(n, _ => CLock);
      assert all[..n - 1] == seq(n - 1, _ => CLock);
    }
  }

  /** No run is longer than this, so a run with finitely many spurious wake-ups ends; by
      `NoDeadlock` it can only end with everybody finished. */
  lemma RunsAreBounded(g: Config, ss: seq<State>, acts: seq<Action>)
    requires IsRun(g, ss, acts)
    ensures |acts| <= (3 * g.consumers + 13) * g.items + 3 * g.consumers + 3 + 4 * SpuriousIn(acts)
  {
    var n := |acts|;
    StepsSpendPotential(g, ss, acts, n);
    RunInv(g, ss, acts, n);
    PotentialNotNegative(g, ss[n]);
    InitialPotential(g, ss[0]);
    assert acts[..n] == acts;
  }

  /** A run that no thread can continue has finished, with every item consumed once. */
  lemma MaximalRunFinishes(g: Config, ss: seq<State>, acts: seq<Action>)
    requires IsRun(g, ss, acts)
    requires forall t :: !Enabled(ss[|acts|], Run(t))
    ensures Finished(ss[|acts|]) && ss[|acts|].log == FirstItems(g.items)
    ensures 2 * ss[|acts|].sum == g.items * (g.items - 1)
  {
    var s := ss[|acts|];
    assert Reachable(g, s);
    if !Finished(s) {
      NoDeadlock(g, s);
    }
    FinishedResult(g, s);
  }
}
