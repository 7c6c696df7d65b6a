/** The producer and the consumers of tests/cond as threads that share a ring, a mutex and two
    condition variables, for any number of items, consumers and cells.

    A step is everything a thread does between two synchronisation operations, or one such
    operation; `owner` shows that no other thread looks at the shared memory meanwhile. */
module BoundedBuffer {
  import opened Common

  datatype Thread = Producer | Consumer(k: nat)

  /** Program points of `_check` (tests/cond/main.c).  The first five and the last but one group
      belong to the loop over the items, those starting with D to the final drain. */
  datatype PPc =
    | PLock | PCheck | PWait | PWoken | PPut | PBroadcast | PUnlock
    | DLock | DCheck | DWait | DWoken | DUnlock | PDone

  /** Program points of `_test` (tests/cond/other.c); `CStuck` is the `break` that leaves the
      mutex locked. */
  datatype CPc =
    | CLock | CCheck | CWait | CWoken | CTake | CSignal | CUnlock | CLeave | CDone | CStuck

  datatype Config = Config(items: nat, capacity: nat, consumers: nat)

  /** `mem[0..B]`, `mem[10]`, `mem[11]`, `mem[12]`; the mutex; the producer's loop variable; and as
      a history variable the values consumed so far. */
  datatype State = State(cells: seq<int>, start: nat, count: int, sum: int,
                         owner: Option<Thread>, producer: PPc, next: nat,
                         consumers: seq<CPc>, log: seq<int>)

  predicate PHolds(p: PPc)
  {
    p in {PCheck, PPut, PBroadcast, PUnlock, DCheck, DUnlock}
  }

  predicate CHolds(c: CPc)
  {
    c in {CCheck, CTake, CSignal, CUnlock, CLeave, CStuck}
  }

  // ---------------------------------------------------------------------------------------
  // Steps

  predicate Initial(g: Config, s: State)
  {
    && g.capacity > 0 && g.consumers > 0
    && s.cells == seq(g.capacity, _ => 0) && s.start == 0 && s.count == 0 && s.sum == 0
    && s.owner.None? && s.producer == (if g.items > 0 then PLock else DLock) && s.next == 0
    && s.consumers == seq(g.consumers, _ => CLock) && s.log == []
  }

  /** Where item `j` goes: `j % B`.  The count is never negative. */
  function Position(g: Config, j: int): (r: nat)
    requires g.capacity > 0
    ensures r < g.capacity
  {
    if j < 0 then 0 else Remainder(j, g.capacity)
  }

  predicate CanProduce(s: State)
  {
    if s.producer in {PLock, PWoken, DLock, DWoken} then s.owner.None? else PHolds(s.producer)
  }

  function Produce(g: Config, s: State): State
    requires g.capacity > 0 && |s.cells| == g.capacity && CanProduce(s)
  {
    match s.producer
    case PLock => s.(owner := Some(Producer), producer := PCheck)
    case PWoken => s.(owner := Some(Producer), producer := PCheck)
    case PCheck =>
      if s.count == g.capacity then s.(owner := None, producer := PWait)
      else s.(producer := PPut)
    case PPut =>
      s.(cells := s.cells[Position(g, s.start + s.count) := s.next], count := s.count + 1,
         producer := PBroadcast)
    case PBroadcast => s.(consumers := Woken(s.consumers), producer := PUnlock)
    case PUnlock =>
      s.(owner := None, next := s.next + 1,
         producer := if s.next + 1 < g.items then PLock else DLock)
    case DLock => s.(owner := Some(Producer), producer := DCheck)
    case DWoken => s.(owner := Some(Producer), producer := DCheck)
    case DCheck =>
      if s.count != 0 then s.(owner := None, producer := DWait) else s.(producer := DUnlock)
    case DUnlock => s.(owner := None, producer := PDone)
  }

  /** A broadcast on the consumers' condition. */
  function Woken(cs: seq<CPc>): (r: seq<CPc>)
    ensures |r| == |cs|
    ensures forall k :: 0 <= k < |cs| ==> r[k] == if cs[k] == CWait then CWoken else cs[k]
  {
    seq(|cs|, k requires 0 <= k < |cs| => if cs[k] == CWait then CWoken else cs[k])
  }

  /** A signal on the producer's condition. */
  function Signalled(p: PPc): PPc
  {
    if p == PWait then PWoken else if p == DWait then DWoken else p
  }

  predicate CanConsume(s: State, k: nat)
  {
    k < |s.consumers|
    && if s.consumers[k] in {CLock, CWoken} then s.owner.None?
       else CHolds(s.consumers[k]) && s.consumers[k] != CStuck
  }

  function Consume(g: Config, s: State, k: nat): State
    requires g.capacity > 0 && |s.cells| == g.capacity && CanConsume(s, k)
  {
    var cs := s.consumers;
    match cs[k]
    case CLock => s.(owner := Some(Consumer(k)), consumers := cs[k := CCheck])
    case CWoken => s.(owner := Some(Consumer(k)), consumers := cs[k := CCheck])
    case CCheck =>
      if s.count != 0 then s.(consumers := cs[k := CTake])
      else if s.start == g.items then s.(consumers := cs[k := CLeave])
      else s.(owner := None, consumers := cs[k := CWait])
    case CTake =>
      if s.start >= g.items then s.(consumers := cs[k := CStuck])
      else
        var item := s.cells[Position(g, s.start)];
        s.(sum := s.sum + item, start := s.start + 1, count := s.count - 1,
           consumers := cs[k := CSignal], log := s.log + [item])
    case CSignal => s.(producer := Signalled(s.producer), consumers := cs[k := CUnlock])
    case CUnlock => s.(owner := None, consumers := cs[k := CLock])
    case CLeave => s.(owner := None, consumers := cs[k := CDone])
  }

  datatype Action = Run(t: Thread) | Spurious(t: Thread)

  /** A thread's own step, or a waiting thread that wakes up without having been signalled. */
  predicate Enabled(s: State, a: Action)
  {
    match a
    case Run(Producer) => CanProduce(s)
    case Run(Consumer(k)) => CanConsume(s, k)
    case Spurious(Producer) => s.producer in {PWait, DWait}
    case Spurious(Consumer(k)) => k < |s.consumers| && s.consumers[k] == CWait
  }

  function Apply(g: Config, s: State, a: Action): State
    requires g.capacity > 0 && |s.cells| == g.capacity && Enabled(s, a)
  {
    match a
    case Run(Producer) => Produce(g, s)
    case Run(Consumer(k)) => Consume(g, s, k)
    case Spurious(Producer) => s.(producer := Signalled(s.producer))
    case Spurious(Consumer(k)) => s.(consumers := s.consumers[k := CWoken])
  }

  ghost predicate IsRun(g: Config, ss: seq<State>, acts: seq<Action>)
  {
    && |ss| == |acts| + 1 && Initial(g, ss[0])
    && forall n :: 0 <= n < |acts| ==>
         |ss[n].cells| == g.capacity && Enabled(ss[n], acts[n])
         && ss[n + 1] == Apply(g, ss[n], acts[n])
  }

  // ---------------------------------------------------------------------------------------
  // The invariant

  /** The number of items stored so far. */
  function Stored(s: State): nat
  {
    if s.producer in {PBroadcast, PUnlock} then s.next + 1 else s.next
  }

  predicate Signalling(s: State)
  {
    s.owner.Some? && s.owner.value.Consumer? && s.owner.value.k < |s.consumers|
    && s.consumers[s.owner.value.k] == CSignal
  }

  ghost predicate OwnerOk(s: State)
  {
    && (s.owner == Some(Producer) <==> PHolds(s.producer))
    && (forall k :: 0 <= k < |s.consumers| ==>
          (CHolds(s.consumers[k]) <==> s.owner == Some(Consumer(k))))
  }

  /** The ring holds the items stored and not yet taken, in order. */
  ghost predicate RingOk(g: Config, s: State)
  {
    && g.capacity > 0 && |s.cells| == g.capacity
    && 0 <= s.count <= g.capacity
    && s.start + s.count == Stored(s) <= g.items
    && (forall j :: s.start <= j < s.start + s.count ==> Cell(g, s, j) == j)
  }

  function Cell(g: Config, s: State, j: nat): int
    requires g.capacity > 0 && |s.cells| == g.capacity
  {
    s.cells[Position(g, j)]
  }

  ghost predicate ProducerOk(g: Config, s: State)
  {
    && (s.producer in {PLock, PCheck, PWait, PWoken, PPut, PBroadcast, PUnlock} ==> s.next < g.items)
    && (s.producer in {DLock, DCheck, DWait, DWoken, DUnlock, PDone} ==> s.next == g.items)
    && (s.producer == PPut ==> s.count < g.capacity)
    && (s.producer in {DUnlock, PDone} ==> s.count == 0)
    && (s.producer == PWait ==> s.count == g.capacity || Signalling(s))
    && (s.producer == DWait ==> s.count > 0 || Signalling(s))
  }

  predicate ConsumerOk(g: Config, s: State, k: nat)
    requires k < |s.consumers|
  {
    && s.consumers[k] != CStuck
    && (s.consumers[k] == CTake ==> s.count > 0)
    && (s.consumers[k] in {CLeave, CDone} ==> s.start == g.items)
    && (s.consumers[k] == CWait ==> s.producer == PBroadcast || (s.count == 0 && s.start < g.items))
  }

  ghost predicate Inv(g: Config, s: State)
  {
    && g.consumers > 0 && |s.consumers| == g.consumers
    && OwnerOk(s) && RingOk(g, s) && ProducerOk(g, s)
    && (forall k :: 0 <= k < |s.consumers| ==> ConsumerOk(g, s, k))
    && s.log == FirstItems(s.start) && s.sum == Sum(s.log)
  }

  /** 0, 1, ..., n - 1 */
  function FirstItems(n: nat): seq<int>
  {
    seq(n, i => i)
  }

  function Sum(xs: seq<int>): int
  {
    if xs == [] then 0 else Sum(xs[..|xs| - 1]) + xs[|xs| - 1]
  }

  lemma InitialInv(g: Config, s: State)
    requires Initial(g, s)
    ensures Inv(g, s)
  {}

  lemma PutInv(g: Config, s: State)
    requires Inv(g, s) && s.producer == PPut
    ensures Inv(g, Produce(g, s))
  {
    var s' := Produce(g, s);
    var last := s.start + s.count;
    forall j | s'.start <= j < s'.start + s'.count ensures Cell(g, s', j) == j {
      if j < last {
        RemaindersApart(j, last, g.capacity);
        assert Cell(g, s, j) == j;
      }
    }
    forall k | 0 <= k < |s'.consumers| ensures ConsumerOk(g, s', k) {
      assert ConsumerOk(g, s, k);
    }
  }

  lemma ProduceInv(g: Config, s: State)
    requires Inv(g, s) && CanProduce(s)
    ensures Inv(g, Produce(g, s))
  {
    var s' := Produce(g, s);
    if s.producer == PPut {
      PutInv(g, s);
    } else {
      assert forall j :: s.start <= j < s.start + s.count ==> Cell(g, s', j) == Cell(g, s, j);
      forall k | 0 <= k < |s'.consumers| ensures ConsumerOk(g, s', k) {
        assert ConsumerOk(g, s, k);
      }
    }
  }

  lemma TakeInv(g: Config, s: State, k: nat)
    requires Inv(g, s) && k < |s.consumers| && s.consumers[k] == CTake
    ensures Inv(g, Consume(g, s, k))
    ensures s.start < g.items
  {
    assert ConsumerOk(g, s, k);
    var s' := Consume(g, s, k);
    assert Cell(g, s, s.start) == s.start;
    assert FirstItems(s.start + 1) == FirstItems(s.start) + [s.start];
    assert s'.log[..s.start] == s.log;
    forall j | s'.start <= j < s'.start + s'.count ensures Cell(g, s', j) == j {
      assert Cell(g, s, j) == j;
    }
    forall i | 0 <= i < |s'.consumers| ensures ConsumerOk(g, s', i) {
      assert ConsumerOk(g, s, i);
    }
  }

  lemma ConsumeInv(g: Config, s: State, k: nat)
    requires Inv(g, s) && CanConsume(s, k)
    ensures Inv(g, Consume(g, s, k))
  {
    var s' := Consume(g, s, k);
    if s.consumers[k] == CTake {
      TakeInv(g, s, k);
    } else {
      assert forall j :: s.start <= j < s.start + s.count ==> Cell(g, s', j) == Cell(g, s, j);
      forall i | 0 <= i < |s'.consumers| ensures ConsumerOk(g, s', i) {
        assert ConsumerOk(g, s, i);
      }
    }
  }

  lemma SpuriousInv(g: Config, s: State, t: Thread)
    requires Inv(g, s) && Enabled(s, Spurious(t))
    ensures Inv(g, Apply(g, s, Spurious(t)))
  {
    var s' := Apply(g, s, Spurious(t));
    assert forall j :: s.start <= j < s.start + s.count ==> Cell(g, s', j) == Cell(g, s, j);
    forall i | 0 <= i < |s'.consumers| ensures ConsumerOk(g, s', i) {
      assert ConsumerOk(g, s, i);
    }
  }

  lemma {:induction false} RunInv(g: Config, ss: seq<State>, acts: seq<Action>, n: nat)
    requires IsRun(g, ss, acts) && n < |ss|
    ensures Inv(g, ss[n])
  {
    if n == 0 {
      InitialInv(g, ss[0]);
    } else {
      RunInv(g, ss, acts, n - 1);
      match acts[n - 1]
      case Run(Producer) => ProduceInv(g, ss[n - 1]);
      case Run(Consumer(k)) => ConsumeInv(g, ss[n - 1], k);
      case Spurious(t) => SpuriousInv(g, ss[n - 1], t);
    }
  }
}
