/** What the calls achieve: nobody is stuck, creating and attaching succeed whenever they can, and
    everything can always be given back. */
module ProtocolProgress {
  import opened Common
  import opened Names
  import opened RegistryTable
  import opened Backend
  import opened Protocol
  import opened ProtocolProofs
  import opened ProtocolTheorems
  import opened ProtocolRuns

  // ---------------------------------------------------------------------------------------
  // Nobody is stuck

  /** The step that a call takes next; whether a creation finds the back-end willing is open. */
  function NextStep(c: nat, p: Phase, willing: bool): Action
  {
    match p
    case Reserving => NewCreate(c, willing)
    case CreateFailed => NewAbort(c)
    case Created => Book(c)
    case Booked => NewPublish(c)
    case Counted => AttachOpen(c)
    case OpenFailed => AttachAbort(c)
    case Opened => Book(c)
    case Holding => DropHandle(c)
  }

  /** Every living call can take its next step, and its process can die. */
  lemma NextStepEnabled(w: World, foreign: Namespace, c: nat, willing: bool)
    requires Inv(w, foreign) && Alive(w, c)
    ensures Allowed(w, NextStep(c, w.calls[c].phase, willing)) && Allowed(w, Die(c))
  {
    assert CallOk(w, w.calls[c]);
    if w.calls[c].phase.Holding? {
      HandleKnowsSlot(w, foreign, c);
    }
  }

  /** Anybody can start a creation or an attach at any time, for any kind of object. */
  lemma StartEnabled(w: World, foreign: Namespace, c: nat, name: string, kind: ObjType)
    requires Inv(w, foreign) && c !in w.calls && kind != Untyped
    ensures Enabled(w, NewReserve(c, name, kind)) && Enabled(w, AttachCount(c, name, kind))
    ensures Enabled(w, ForceClear(name))
  {}

  /** There is an initial world of any size, whatever exists beside the library. */
  lemma InitialExists(n: nat, foreign: Namespace)
    requires n > 0
    ensures Initial(World(Table(seq(n, _ => FREE_SLOT), 0), foreign, map[], map[], 0, seq(n, _ => None)),
                    foreign)
  {}

  // ---------------------------------------------------------------------------------------
  // Everything can be given back

  /** How many steps a call has before it at most. */
  function Rank(p: Phase): nat
  {
    match p
    case CreateFailed => 1  case OpenFailed => 1  case Holding => 1
    case Booked => 2  case Opened => 2  case Created => 3  case Counted => 3  case Reserving => 4
  }

  /** A step of a call that has begun. */
  predicate Closing(a: Action)
  {
    !a.NewReserve? && !a.AttachCount? && !a.Die? && !a.ForceClear?
  }

  /** The next step brings the call nearer to its end, or is its end, and leaves the other calls
      alone. */
  lemma NextStepNearer(w: World, c: nat, willing: bool)
    requires Alive(w, c) && Enabled(w, NextStep(c, w.calls[c].phase, willing))
    ensures var w' := Apply(w, NextStep(c, w.calls[c].phase, willing));
            && w'.calls - {c} == w.calls - {c}
            && (c in w'.calls ==> w'.calls[c].alive && Rank(w'.calls[c].phase) < Rank(w.calls[c].phase))
  {
    var w' := Apply(w, NextStep(c, w.calls[c].phase, willing));
    assert w'.calls == w.calls - {c} || (c in w'.calls && w'.calls == w.calls[c := w'.calls[c]]);
  }

  lemma Advance(w: World, foreign: Namespace, c: nat) returns (a: Action, w1: World)
    requires Inv(w, foreign) && Alive(w, c)
    ensures StepTo(w, a, w1) && Closing(a) && Inv(w1, foreign) && w1.calls - {c} == w.calls - {c}
    ensures c in w1.calls ==> Alive(w1, c) && Rank(w1.calls[c].phase) < Rank(w.calls[c].phase)
  {
    a := NextStep(c, w.calls[c].phase, true);
    assert Enabled(w, a) by { NextStepEnabled(w, foreign, c, true); }
    w1 := Nearer(w, c, a);
    assert Inv(w1, foreign) by { FreeStepInv(w, foreign, a, w1); }
  }

  lemma Nearer(w: World, c: nat, a: Action) returns (w1: World)
    requires Alive(w, c) && a == NextStep(c, w.calls[c].phase, true) && Enabled(w, a)
    ensures StepTo(w, a, w1) && Closing(a) && Free(a) && w1.calls - {c} == w.calls - {c}
    ensures c in w1.calls ==> Alive(w1, c) && Rank(w1.calls[c].phase) < Rank(w.calls[c].phase)
  {
    w1 := Apply(w, a);
    NextStepNearer(w, c, true);
  }

  /** The steps are steps of calls that have begun, and end call `c`. */
  ghost predicate Ends(w: World, acts: seq<Action>, w': World, c: nat)
  {
    Leads(w, acts, w') && w'.calls == w.calls - {c} && forall a :: a in acts ==> Closing(a)
  }

  lemma EndsNow(w: World, a: Action, w1: World, c: nat)
    requires StepTo(w, a, w1) && Closing(a) && w1.calls - {c} == w.calls - {c} && c !in w1.calls
    ensures Ends(w, [a], w1, c)
  {
    assert IsPath([w, w1], [a]);
    assert w1.calls - {c} == w1.calls;
  }

  lemma EndsLater(w: World, a: Action, w1: World, acts: seq<Action>, w': World, c: nat)
    requires StepTo(w, a, w1) && Closing(a) && w1.calls - {c} == w.calls - {c} && Ends(w1, acts, w', c)
    ensures Ends(w, [a] + acts, w', c)
  {
    LeadsFirst(w, a, w1, acts, w');
  }

  /** A living call can be brought to its end without any other call taking a step. */
  lemma {:induction false} FinishCall(w: World, foreign: Namespace, c: nat, r: nat)
    returns (acts: seq<Action>, w': World)
    requires Inv(w, foreign) && Alive(w, c) && Rank(w.calls[c].phase) <= r
    ensures Ends(w, acts, w', c) && Inv(w', foreign)
    decreases r
  {
    var a, w1 := Advance(w, foreign, c);
    if c in w1.calls {
      acts, w' := FinishCall(w1, foreign, c, r - 1);
      EndsLater(w, a, w1, acts, w', c);
      acts := [a] + acts;
    } else {
      acts, w' := [a], w1;
      EndsNow(w, a, w1, c);
    }
  }

  /** From every state of the invariant with all processes alive, steps of the calls that have begun
      lead to an empty registry and the namespace as it was at the start. */
  lemma {:induction false} CanFinish(w: World, foreign: Namespace) returns (acts: seq<Action>, w': World)
    requires Inv(w, foreign) && forall c :: c in w.calls ==> Alive(w, c)
    ensures Leads(w, acts, w') && GivenBack(w', foreign) && forall a :: a in acts ==> Closing(a)
    decreases |w.calls|
  {
    if w.calls == map[] {
      NoCallsLeft(w, foreign);
      acts, w' := [], w;
      assert IsPath([w], []);
    } else {
      var c :| c in w.calls;
      var first, w1 := FinishCall(w, foreign, c, 4);
      FewerKeys(w1.calls, w.calls, c);
      var rest;
      rest, w' := CanFinish(w1, foreign);
      LeadsConcat(w, first, w1, rest, w');
      acts := first + rest;
    }
  }

  /** And when no such step is left, they have. */
  lemma StuckMeansGivenBack(w: World, foreign: Namespace)
    requires Inv(w, foreign) && forall c :: c in w.calls ==> Alive(w, c)
    requires forall a :: Closing(a) ==> !Enabled(w, a)
    ensures GivenBack(w, foreign)
  {
    if c :| c in w.calls {
      NextStepEnabled(w, foreign, c, true);
    }
    NoCallsLeft(w, foreign);
  }

  // ---------------------------------------------------------------------------------------
  // Creating and attaching succeed whenever they can

  /** The name is new and can be converted, there is a slot and nobody has the back-end's name. */
  predicate CanCreate(w: World, name: string, kind: ObjType)
    requires Shaped(w.table)
  {
    && Reserve(w.table, name).Reserved? && OsName(Key(name)).Some?
    && OsKey(SpaceOf(kind), OsName(Key(name)).value) !in w.os
  }

  function NewActions(c: nat, name: string, kind: ObjType): seq<Action>
  {
    [NewReserve(c, name, kind)] + [NewCreate(c, true), Book(c), NewPublish(c)]
  }

  /** What a successful creation makes of the world. */
  ghost predicate Made(w: World, w': World, c: nat, name: string, kind: ObjType, obj: nat)
    requires Shaped(w.table) && CanCreate(w, name, kind)
  {
    var i := Reserve(w.table, name).index;
    && w'.os == w.os[OsKey(SpaceOf(kind), OsName(Key(name)).value) := obj]
    && w'.calls == w.calls[c := Call(Holding, i, Key(name), kind, obj, i, true)]
    && |w'.births| == |w'.table.slots| == |w.table.slots| && Shaped(w'.table) && i < |w.table.slots|
    && w'.table.slots[i].name == Key(name) && w'.table.slots[i].kind == kind
    && w'.table.slots[i].count == 1 && !w'.table.slots[i].reserved
    && forall j :: 0 <= j < |w.table.slots| && j != i ==> w'.table.slots[j] == w.table.slots[j]
  }

  lemma NewPath(w: World, c: nat, name: string, kind: ObjType)
    returns (w1: World, w2: World, w3: World, w': World)
    requires Shaped(w.table) && |w.births| == |w.table.slots| && c !in w.calls && kind != Untyped
    requires CanCreate(w, name, kind)
    ensures StepTo(w, NewReserve(c, name, kind), w1) && StepTo(w1, NewCreate(c, true), w2)
    ensures StepTo(w2, Book(c), w3) && StepTo(w3, NewPublish(c), w')
    ensures Leads(w1, [NewCreate(c, true), Book(c), NewPublish(c)], w')
    ensures c in w'.calls && Made(w, w', c, name, kind, w'.calls[c].obj)
  {
    w1 := Reserves(w, c, name, kind);
    w2, w3, w' := CreatorFinishes(w1, c);
    OthersUntouched(w1, w2, w3, w', c);
  }

  lemma Reserves(w: World, c: nat, name: string, kind: ObjType) returns (w1: World)
    requires Shaped(w.table) && |w.births| == |w.table.slots| && c !in w.calls && kind != Untyped
    requires CanCreate(w, name, kind)
    ensures var i := Reserve(w.table, name).index;
            && StepTo(w, NewReserve(c, name, kind), w1) && w1.os == w.os
            && w1.calls == w.calls[c := Call(Reserving, i, Key(name), kind, 0, 0, true)]
            && |w1.births| == |w1.table.slots| == |w.table.slots| && Shaped(w1.table)
            && i < |w.table.slots| && w1.table.slots[i] == ReservedSlot(Key(name))
            && forall j :: 0 <= j < |w.table.slots| && j != i ==> w1.table.slots[j] == w.table.slots[j]
  {
    w1 := DoReserve(w, c, name, kind);
  }

  /** The steps of one call leave the others alone. */
  lemma OthersUntouched(w1: World, w2: World, w3: World, w4: World, c: nat)
    requires StepTo(w1, NewCreate(c, true), w2) && StepTo(w2, Book(c), w3) && StepTo(w3, NewPublish(c), w4)
    ensures c in w4.calls && w4.calls == w1.calls[c := w4.calls[c]]
    ensures |w4.births| == |w4.table.slots| && Shaped(w4.table)
  {}

  /** A creation then ends in a handle for a new object of the kind and name asked for, and changes
      nothing else. */
  lemma NewSucceeds(w: World, foreign: Namespace, c: nat, name: string, kind: ObjType)
    returns (w': World, obj: nat)
    requires Inv(w, foreign) && c !in w.calls && kind != Untyped && CanCreate(w, name, kind)
    ensures Leads(w, NewActions(c, name, kind), w') && Inv(w', foreign)
    ensures Made(w, w', c, name, kind, obj)
  {
    var w1, w2, w3;
    w1, w2, w3, w' := NewPath(w, c, name, kind);
    obj := w'.calls[c].obj;
    LeadsFirst(w, NewReserve(c, name, kind), w1, [NewCreate(c, true), Book(c), NewPublish(c)], w');
    assert Inv(w', foreign) by { NewPathInv(w, w1, w2, w3, w', foreign, c, name, kind); }
  }

  lemma NewPathInv(w: World, w1: World, w2: World, w3: World, w4: World, foreign: Namespace,
                   c: nat, name: string, kind: ObjType)
    requires Inv(w, foreign) && StepTo(w, NewReserve(c, name, kind), w1)
    requires StepTo(w1, NewCreate(c, true), w2) && StepTo(w2, Book(c), w3) && StepTo(w3, NewPublish(c), w4)
    ensures Inv(w4, foreign)
  {
    assert Inv(w2, foreign) by {
      FreeStepInv(w, foreign, NewReserve(c, name, kind), w1);
      FreeStepInv(w1, foreign, NewCreate(c, true), w2);
    }
    assert Inv(w4, foreign) by {
      FreeStepInv(w2, foreign, Book(c), w3);
      FreeStepInv(w3, foreign, NewPublish(c), w4);
    }
  }

  function AttachActions(c: nat, name: string, kind: ObjType): seq<Action>
  {
    [AttachCount(c, name, kind), AttachOpen(c)] + [Book(c)]
  }

  lemma AttachPath(w: World, c: nat, name: string, kind: ObjType, i: nat, obj: nat)
    returns (w1: World, w2: World)
    requires Shaped(w.table) && |w.births| == |w.table.slots| && c !in w.calls && kind != Untyped
    requires Lookup(w.table, Key(name)) == Some(i)
    requires OsName(Key(name)).Some? && OsKey(SpaceOf(kind), OsName(Key(name)).value) in w.os
    requires obj == w.os[OsKey(SpaceOf(kind), OsName(Key(name)).value)]
    ensures StepTo(w, AttachCount(c, name, kind), w1) && StepTo(w1, AttachOpen(c), w2)
    ensures w2.os == w.os && w2.births == w.births && w2.table == Count(w.table, i)
    ensures w2.calls == w.calls[c := Call(Opened, i, Key(name), kind, obj, 0, true)]
  {
    w1 := DoAttach(w, c, name, kind);
    assert w1.calls[c] == Call(Counted, i, Key(name), kind, 0, 0, true) && w1.os == w.os;
    w2 := DoOpen(w1, c);
  }

  lemma BookOpened(w: World, c: nat) returns (w': World)
    requires Shaped(w.table) && |w.births| == |w.table.slots| && InPhase(w, c, Opened)
    requires w.calls[c].slot < |w.table.slots|
    requires w.table.slots[w.calls[c].slot].hasBookkeeping == SpaceOf(w.calls[c].kind).Shm?
    ensures StepTo(w, Book(c), w') && w'.os == w.os && w'.table == w.table
    ensures w'.calls == w.calls[c := w.calls[c].(phase := Holding, id := w.calls[c].slot)]
  {
    w' := DoBook(w, c);
    assert w'.table.slots == w.table.slots;
  }

  lemma AttachPathInv(w: World, w1: World, w2: World, w3: World, foreign: Namespace,
                      c: nat, name: string, kind: ObjType)
    requires Inv(w, foreign) && Allowed(w, AttachCount(c, name, kind))
    requires StepTo(w, AttachCount(c, name, kind), w1) && StepTo(w1, AttachOpen(c), w2) && StepTo(w2, Book(c), w3)
    ensures Inv(w3, foreign)
  {
    assert Inv(w1, foreign) by { StepInv(w, foreign, AttachCount(c, name, kind)); }
    assert Inv(w2, foreign) by { FreeStepInv(w1, foreign, AttachOpen(c), w2); }
    FreeStepInv(w2, foreign, Book(c), w3);
  }

  /** An allowed attach to a name in use ends in a handle for the object of that name, and changes
      nothing else but the count. */
  lemma AttachSucceeds(w: World, foreign: Namespace, c: nat, name: string, kind: ObjType, i: nat)
    returns (w': World)
    requires Inv(w, foreign) && c !in w.calls && kind != Untyped
    requires Lookup(w.table, Key(name)) == Some(i) && AttachAllowed(w, name, kind)
    ensures i < |w.births| && w.births[i].Some?
    ensures Leads(w, AttachActions(c, name, kind), w') && Inv(w', foreign) && w'.os == w.os
    ensures w'.calls == w.calls[c := Call(Holding, i, Key(name), kind, w.births[i].value.obj, i, true)]
    ensures w'.table == Count(w.table, i)
  {
    AttachReady(w, foreign, name, kind, i);
    var w1, w2;
    w1, w2, w' := AttachWhole(w, c, name, kind, i, w.births[i].value.obj);
    assert Inv(w', foreign) by { AttachPathInv(w, w1, w2, w', foreign, c, name, kind); }
  }

  lemma AttachReady(w: World, foreign: Namespace, name: string, kind: ObjType, i: nat)
    requires Inv(w, foreign) && Lookup(w.table, Key(name)) == Some(i) && AttachAllowed(w, name, kind)
    ensures i < |w.births| && w.births[i].Some?
    ensures var b := w.births[i].value;
            && OsName(Key(name)) == Some(b.key.name) && SpaceOf(kind) == b.key.space
            && b.key in w.os && w.os[b.key] == b.obj
            && w.table.slots[i].hasBookkeeping == SpaceOf(kind).Shm?
  {
    assert BirthOk(w, foreign, i) && SlotOk(w.table.slots[i]);
  }

  lemma AttachWhole(w: World, c: nat, name: string, kind: ObjType, i: nat, obj: nat)
    returns (w1: World, w2: World, w': World)
    requires Shaped(w.table) && |w.births| == |w.table.slots| && c !in w.calls && kind != Untyped
    requires Lookup(w.table, Key(name)) == Some(i)
    requires w.table.slots[i].hasBookkeeping == SpaceOf(kind).Shm?
    requires OsName(Key(name)).Some? && OsKey(SpaceOf(kind), OsName(Key(name)).value) in w.os
    requires obj == w.os[OsKey(SpaceOf(kind), OsName(Key(name)).value)]
    ensures StepTo(w, AttachCount(c, name, kind), w1) && StepTo(w1, AttachOpen(c), w2)
    ensures StepTo(w2, Book(c), w') && Leads(w, AttachActions(c, name, kind), w')
    ensures w'.os == w.os && w'.table == Count(w.table, i)
    ensures w'.calls == w.calls[c := Call(Holding, i, Key(name), kind, obj, i, true)]
  {
    w1, w2 := AttachPath(w, c, name, kind, i, obj);
    w' := BookOpened(w2, c);
    LeadsTwo(w, w1, w2, AttachCount(c, name, kind), AttachOpen(c));
    assert IsPath([w2, w'], [Book(c)]);
    LeadsConcat(w, [AttachCount(c, name, kind), AttachOpen(c)], w2, [Book(c)], w');
  }

  /** Creating an object and dropping its handle restores everything that is in use. */
  lemma NewThenDrop(w: World, foreign: Namespace, c: nat, name: string, kind: ObjType) returns (w': World)
    requires Inv(w, foreign) && c !in w.calls && kind != Untyped && CanCreate(w, name, kind)
    ensures Leads(w, NewActions(c, name, kind) + [DropHandle(c)], w')
    ensures w'.os == w.os && w'.calls == w.calls && |w'.table.slots| == |w.table.slots|
    ensures forall j :: 0 <= j < |w.table.slots| ==>
              if InUse(w.table.slots[j]) then w'.table.slots[j] == w.table.slots[j]
              else !InUse(w'.table.slots[j])
  {
    var w1, obj := NewSucceeds(w, foreign, c, name, kind);
    assert DropTarget(w1, w1.calls[c]) == w1.calls[c].slot by { HandleKnowsSlot(w1, foreign, c); }
    w' := DropOnly(w1, c);
    MadeAndDropped(w, w1, w', c, name, kind, obj);
    LeadsConcat(w, NewActions(c, name, kind), w1, [DropHandle(c)], w');
  }

  lemma MadeAndDropped(w: World, w1: World, w': World, c: nat, name: string, kind: ObjType, obj: nat)
    requires Shaped(w.table) && CanCreate(w, name, kind) && Made(w, w1, c, name, kind, obj) && c !in w.calls
    requires w'.os == w1.os - {CallKey(w1.calls[c]).value} && w'.calls == w1.calls - {c}
    requires |w'.table.slots| == |w1.table.slots| && !InUse(w'.table.slots[w1.calls[c].slot])
    requires forall j :: 0 <= j < |w1.table.slots| && j != w1.calls[c].slot ==>
               w'.table.slots[j] == w1.table.slots[j]
    ensures w'.os == w.os && w'.calls == w.calls
    ensures forall j :: 0 <= j < |w.table.slots| ==>
              if InUse(w.table.slots[j]) then w'.table.slots[j] == w.table.slots[j]
              else !InUse(w'.table.slots[j])
  {
    assert w'.calls == w.calls && w'.os == w.os;
  }

  /** Dropping the only handle of a slot. */
  lemma DropOnly(w: World, c: nat) returns (w': World)
    requires Shaped(w.table) && |w.births| == |w.table.slots| && InPhase(w, c, Holding)
    requires DropTarget(w, w.calls[c]) == w.calls[c].slot < |w.table.slots|
    requires w.table.slots[w.calls[c].slot].count == 1 && CallKey(w.calls[c]).Some?
    requires w.table.slots[w.calls[c].slot].name == w.calls[c].name
    ensures Leads(w, [DropHandle(c)], w')
    ensures w'.os == w.os - {CallKey(w.calls[c]).value} && w'.calls == w.calls - {c}
    ensures |w'.table.slots| == |w.table.slots| && !InUse(w'.table.slots[w.calls[c].slot])
    ensures forall j :: 0 <= j < |w.table.slots| && j != w.calls[c].slot ==>
              w'.table.slots[j] == w.table.slots[j]
  {
    w' := DoDrop(w, c);
    assert IsPath([w, w'], [DropHandle(c)]);
  }

  /** A refused reservation or an attach to an unknown name ends the call and changes nothing; a
      refused creation gives the slot back. */
  lemma Refusals(w: World, foreign: Namespace, c: nat, name: string, kind: ObjType)
    requires Inv(w, foreign)
    ensures !Reserve(w.table, name).Reserved? ==> DoReserve(w, c, name, kind) == w
    ensures Lookup(w.table, Key(name)).None? ==> DoAttach(w, c, name, kind) == w && DoClear(w, name) == w
    ensures InPhase(w, c, CreateFailed) ==>
              && Enabled(w, NewAbort(c)) && w.calls[c].slot < |w.table.slots|
              && var w', i := Apply(w, NewAbort(c)), w.calls[c].slot;
                 && w'.calls == w.calls - {c} && w'.os == w.os && |w'.table.slots| == |w.table.slots|
                 && !InUse(w'.table.slots[i])
                 && forall j :: 0 <= j < |w.table.slots| && j != i ==> w'.table.slots[j] == w.table.slots[j]
  {
    if InPhase(w, c, CreateFailed) {
      assert CallOk(w, w.calls[c]);
      assert SlotOk(w.table.slots[w.calls[c].slot]);
    }
  }
}
