/** Runs in which an attach or a force-clear does not keep to its obligations, from a fresh registry
    to the damage. */
module ProtocolRuns {
  import opened Common
  import opened Names
  import opened RegistryTable
  import opened Backend
  import opened Protocol
  import opened ProtocolProofs
  import opened ProtocolTheorems

  /** The steps are possible one after the other from `w`, and end in `w'`. */
  ghost predicate Leads(w: World, acts: seq<Action>, w': World)
  {
    exists ws :: IsPath(ws, acts) && ws[0] == w && ws[|acts|] == w'
  }

  /** From an initial state this is a run. */
  lemma LeadsIsRun(w: World, acts: seq<Action>, w': World, foreign: Namespace) returns (ws: seq<World>)
    requires Leads(w, acts, w') && Initial(w, foreign)
    ensures IsRun(ws, acts, foreign) && ws[0] == w && ws[|acts|] == w'
  {
    ws :| IsPath(ws, acts) && ws[0] == w && ws[|acts|] == w';
  }

  lemma LeadsTwo(w: World, w1: World, w2: World, a: Action, b: Action)
    requires StepTo(w, a, w1) && StepTo(w1, b, w2)
    ensures Leads(w, [a, b], w2)
  {
    assert IsPath([w, w1, w2], [a, b]);
  }

  lemma LeadsThree(w: World, w1: World, w2: World, w3: World, a: Action, b: Action, c: Action)
    requires StepTo(w, a, w1) && StepTo(w1, b, w2) && StepTo(w2, c, w3)
    ensures Leads(w, [a, b, c], w3)
  {
    assert IsPath([w, w1, w2, w3], [a, b, c]);
  }

  lemma LeadsConcat(w: World, a: seq<Action>, w1: World, b: seq<Action>, w2: World)
    requires Leads(w, a, w1) && Leads(w1, b, w2)
    ensures Leads(w, a + b, w2)
  {
    var ws :| IsPath(ws, a) && ws[0] == w && ws[|a|] == w1;
    var vs :| IsPath(vs, b) && vs[0] == w1 && vs[|b|] == w2;
    PathConcat(ws, a, vs, b);
    assert (ws + vs[1..])[|a + b|] == w2;
  }

  lemma LeadsFirst(w: World, a: Action, w1: World, acts: seq<Action>, w2: World)
    requires StepTo(w, a, w1) && Leads(w1, acts, w2)
    ensures Leads(w, [a] + acts, w2)
  {
    assert IsPath([w, w1], [a]);
    assert Leads(w, [a], w1);
    LeadsConcat(w, [a], w1, acts, w2);
  }

  lemma PathConcat(ws: seq<World>, a: seq<Action>, vs: seq<World>, b: seq<Action>)
    requires IsPath(ws, a) && IsPath(vs, b) && ws[|a|] == vs[0]
    ensures IsPath(ws + vs[1..], a + b)
  {
    var us, acts := ws + vs[1..], a + b;
    forall k | 0 <= k < |acts| ensures StepTo(us[k], acts[k], us[k + 1]) {
      if k < |a| {
        assert StepTo(ws[k], a[k], ws[k + 1]);
      } else {
        assert StepTo(vs[k - |a|], b[k - |a|], vs[k - |a| + 1]);
        assert us[k] == vs[k - |a|];
      }
    }
  }

  // ---------------------------------------------------------------------------------------
  // A creator loses its reservation

  /** A reserved slot that is freed under its creator: the bound is lowered below it. */
  lemma ReservationLost(t: Table, i: nat)
    requires Sound(t) && i < |t.slots| && i == t.maxIndex > 0
    requires t.slots[i].reserved && t.slots[i].count == 0
    ensures Drop(t, i).slots == t.slots[i := Freed(t.slots[i])] && Drop(t, i).maxIndex < i
    ensures Drop(Count(t, i), i) == Drop(t, i) && Cleared(t, i) == Drop(t, i)
  {
    var slots := t.slots[i := Freed(t.slots[i])];
    assert Count(t, i).slots[i := Freed(t.slots[i])] == slots;
    assert forall j :: i < j < |slots| ==> slots[j] == t.slots[j] && !InUse(slots[j]);
    var top := Top(slots, |slots| - 1);
    assert top == 0 || InUse(slots[top]);
  }

  /** Creating, booking and publishing, on a slot that is still reserved or not. */
  lemma CreatorFinishes(w: World, c: nat) returns (w1: World, w2: World, w': World)
    requires Shaped(w.table) && |w.births| == |w.table.slots|
    requires InPhase(w, c, Reserving) && w.calls[c].slot < |w.table.slots|
    requires CallKey(w.calls[c]).Some? && CallKey(w.calls[c]).value !in w.os
    requires w.table.slots[w.calls[c].slot].count == 0
    ensures StepTo(w, NewCreate(c, true), w1) && StepTo(w1, Book(c), w2) && StepTo(w2, NewPublish(c), w')
    ensures Leads(w, [NewCreate(c, true), Book(c), NewPublish(c)], w')
    ensures InPhase(w', c, Holding) && w'.calls.Keys == w.calls.Keys
    ensures w'.calls[c] == w.calls[c].(phase := Holding, obj := w'.calls[c].obj, id := w.calls[c].slot)
    ensures w'.os == w.os[CallKey(w.calls[c]).value := w'.calls[c].obj]
    ensures w'.table.maxIndex == w.table.maxIndex && |w'.table.slots| == |w.table.slots|
    ensures forall j :: 0 <= j < |w.table.slots| && j != w.calls[c].slot ==>
              w'.table.slots[j] == w.table.slots[j]
    ensures var s, s', x := w.table.slots[w.calls[c].slot], w'.table.slots[w.calls[c].slot], w.calls[c];
            && s'.name == s.name && s'.count == 1 && !s'.reserved && s'.kind == x.kind
            && s'.hasBookkeeping == SpaceOf(x.kind).Shm?
  {
    w1 := DoCreate(w, c, true);
    assert w1.calls[c].phase == Created && w1.table == w.table;
    w2 := DoBook(w1, c);
    assert w2.calls[c].phase == Booked && |w2.births| == |w2.table.slots|;
    w' := Apply(w2, NewPublish(c));
    LeadsThree(w, w1, w2, w', NewCreate(c, true), Book(c), NewPublish(c));
  }

  /** The handle `c` works, but the slot is above the cached bound: no lookup finds the name, and the
      next creator of the same name is given a second slot if there is one. */
  ghost predicate Hidden(w: World, c: nat, i: nat, name: string)
  {
    var t := w.table;
    && InPhase(w, c, Holding) && w.calls[c].slot == i
    && t.maxIndex < i < |t.slots| && Holds(t.slots[i], name) && Lookup(t, name).None?
    && (FirstFree(t.slots, 0) < |t.slots| ==>
          Reserve(t, name).Reserved? && !Unique(Reserve(t, name).table.slots))
  }

  /** A name in use above the bound is not found and can be reserved again. */
  lemma SecondSlotGranted(before: Table, t: Table, i: nat)
    requires Sound(before) && |t.slots| == |before.slots| && i < |t.slots|
    requires forall j :: 0 <= j < |t.slots| && j != i ==> t.slots[j] == before.slots[j]
    requires InUse(before.slots[i]) && InUse(t.slots[i]) && t.slots[i].name == before.slots[i].name
    requires t.maxIndex < i && Key(t.slots[i].name) == t.slots[i].name
    ensures Lookup(t, t.slots[i].name).None?
    ensures FirstFree(t.slots, 0) < |t.slots| ==>
              Reserve(t, t.slots[i].name).Reserved?
              && !Unique(Reserve(t, t.slots[i].name).table.slots)
  {
    var name := t.slots[i].name;
    assert forall j :: 0 <= j < i ==> !Holds(t.slots[j], name);
    if FirstFree(t.slots, 0) < |t.slots| {
      var r := Reserve(t, name);
      assert r.index != i && InUse(r.table.slots[r.index]) && InUse(r.table.slots[i]);
      assert r.table.slots[r.index].name == r.table.slots[i].name;
    }
  }

  /** Call `c` has reserved the highest slot in use, and its object is still to be created. */
  ghost predicate OnTop(w: World, foreign: Namespace, c: nat)
  {
    && Inv(w, foreign) && InPhase(w, c, Reserving) && w.calls[c].slot == w.table.maxIndex > 0
    && CallKey(w.calls[c]).Some? && CallKey(w.calls[c]).value !in w.os
  }

  /** The state of affairs once its slot was freed under it. */
  function Robbed(w: World, c: nat): World
    requires c in w.calls && w.calls[c].slot < |w.table.slots|
  {
    w.(table := Drop(w.table, w.calls[c].slot))
  }

  lemma OnTopSlot(w: World, foreign: Namespace, c: nat)
    requires OnTop(w, foreign, c)
    ensures var x := w.calls[c];
            && x.slot < |w.table.slots| == |w.births| && Key(x.name) == x.name
            && var s := w.table.slots[x.slot];
               s.name == x.name && s.reserved && s.count == 0 && s.kind.Untyped?
    ensures Lookup(w.table, w.calls[c].name) == Some(w.calls[c].slot)
  {
    assert CallOk(w, w.calls[c]);
    assert SlotOk(w.table.slots[w.calls[c].slot]);
    LookupFinds(w.table, w.calls[c].slot);
  }

  /** The creator does not notice, and hides its object by finishing. */
  lemma RobbedFinishes(w: World, foreign: Namespace, c: nat) returns (w': World)
    requires OnTop(w, foreign, c)
    ensures w.calls[c].slot < |w.table.slots|
    ensures Leads(Robbed(w, c), [NewCreate(c, true), Book(c), NewPublish(c)], w')
    ensures Hidden(w', c, w.calls[c].slot, w.calls[c].name)
  {
    OnTopSlot(w, foreign, c);
    w' := RobbedSteps(w, c);
  }

  lemma RobbedSteps(w: World, c: nat) returns (w': World)
    requires Sound(w.table) && |w.births| == |w.table.slots| && InPhase(w, c, Reserving)
    requires w.calls[c].slot == w.table.maxIndex > 0 && Key(w.calls[c].name) == w.calls[c].name
    requires CallKey(w.calls[c]).Some? && CallKey(w.calls[c]).value !in w.os
    requires var s := w.table.slots[w.calls[c].slot];
             s.name == w.calls[c].name && s.reserved && s.count == 0
    ensures Leads(Robbed(w, c), [NewCreate(c, true), Book(c), NewPublish(c)], w')
    ensures Hidden(w', c, w.calls[c].slot, w.calls[c].name)
  {
    var i := w.calls[c].slot;
    ReservationLost(w.table, i);
    var w1, w2;
    w1, w2, w' := CreatorFinishes(Robbed(w, c), c);
    SecondSlotGranted(w.table, w'.table, i);
  }

  /** One way to be robbed: another call attaches to the name, is refused by the back-end, and gives
      its count back. */
  lemma AttachRobs(w: World, foreign: Namespace, c: nat, d: nat)
    requires OnTop(w, foreign, c) && d !in w.calls
    ensures w.calls[c].slot < |w.table.slots|
    ensures var x := w.calls[c];
            Leads(w, [AttachCount(d, x.name, x.kind), AttachOpen(d), AttachAbort(d)], Robbed(w, c))
  {
    OnTopSlot(w, foreign, c);
    var x := w.calls[c];
    ReservationLost(w.table, x.slot);
    AttachSteps(w, c, d);
  }

  lemma AttachSteps(w: World, c: nat, d: nat)
    requires Shaped(w.table) && |w.births| == |w.table.slots|
    requires c in w.calls && d !in w.calls && !w.calls[c].kind.Untyped?
    requires w.calls[c].slot < |w.table.slots|
    requires Key(w.calls[c].name) == w.calls[c].name
    requires Lookup(w.table, w.calls[c].name) == Some(w.calls[c].slot)
    requires CallKey(w.calls[c]).Some? && CallKey(w.calls[c]).value !in w.os
    requires Drop(Count(w.table, w.calls[c].slot), w.calls[c].slot) == Drop(w.table, w.calls[c].slot)
    ensures var x := w.calls[c];
            Leads(w, [AttachCount(d, x.name, x.kind), AttachOpen(d), AttachAbort(d)], Robbed(w, c))
  {
    var x := w.calls[c];
    var w1 := DoAttach(w, d, x.name, x.kind);
    assert w1.calls[d] == Call(Counted, x.slot, x.name, x.kind, 0, 0, true);
    var w2 := DoOpen(w1, d);
    assert w2.calls[d].phase == OpenFailed;
    assert w2.calls - {d} == w.calls;
    LeadsThree(w, w1, w2, Robbed(w, c), AttachCount(d, x.name, x.kind), AttachOpen(d), AttachAbort(d));
  }

  /** The other: the name is force-cleared. */
  lemma ClearRobs(w: World, foreign: Namespace, c: nat)
    requires OnTop(w, foreign, c)
    ensures w.calls[c].slot < |w.table.slots|
    ensures StepTo(w, ForceClear(w.calls[c].name), Robbed(w, c))
  {
    OnTopSlot(w, foreign, c);
    var i := w.calls[c].slot;
    ReservationLost(w.table, i);
    forall d | d in w.calls && w.calls[d].slot == i ensures w.calls[d].alive {
      CreatorIsAlone(w, foreign, c, d);
    }
    assert WithoutDead(w.calls, i) == w.calls;
  }

  /** An attach to a slot that is still only reserved ends with the creator's object hidden. */
  lemma AttachToReservedHidesObject(w: World, foreign: Namespace, c: nat, d: nat) returns (w': World)
    requires OnTop(w, foreign, c) && d !in w.calls
    ensures var x := w.calls[c];
            && Leads(w, [AttachCount(d, x.name, x.kind), AttachOpen(d), AttachAbort(d)]
                        + [NewCreate(c, true), Book(c), NewPublish(c)], w')
            && Hidden(w', c, x.slot, x.name)
  {
    var x := w.calls[c];
    AttachRobs(w, foreign, c, d);
    w' := RobbedFinishes(w, foreign, c);
    LeadsConcat(w, [AttachCount(d, x.name, x.kind), AttachOpen(d), AttachAbort(d)], Robbed(w, c),
                [NewCreate(c, true), Book(c), NewPublish(c)], w');
  }

  /** So does a force-clear under a creator that is alive. */
  lemma ClearUnderCreatorHidesObject(w: World, foreign: Namespace, c: nat) returns (w': World)
    requires OnTop(w, foreign, c)
    ensures var x := w.calls[c];
            && Leads(w, [ForceClear(x.name)] + [NewCreate(c, true), Book(c), NewPublish(c)], w')
            && Hidden(w', c, x.slot, x.name)
  {
    var x := w.calls[c];
    ClearRobs(w, foreign, c);
    w' := RobbedFinishes(w, foreign, c);
    LeadsFirst(w, ForceClear(x.name), Robbed(w, c), [NewCreate(c, true), Book(c), NewPublish(c)], w');
  }

  // ---------------------------------------------------------------------------------------
  // The same from a fresh registry

  lemma OneLetter(name: string)
    requires name == "A" || name == "B"
    ensures Key(name) == name && OsName(name) == Some(if name == "A" then "/A" else "/B")
  {
    KeyUnique(name, name);
    CanonicalIffUnchanged(name);
    assert "/" + "A" == "/A" && "/" + "B" == "/B";
  }

  lemma TwoReserved(t: Table)
    requires |t.slots| >= 2 && t.maxIndex == 0
    requires forall i :: 0 <= i < |t.slots| ==> t.slots[i] == FREE_SLOT
    ensures var r := Reserve(t, "A");
            && r.Reserved? && r.index == 0 && Shaped(r.table) && |r.table.slots| == |t.slots|
            && r.table == Table(t.slots[0 := ReservedSlot("A")], 0)
            && var q := Reserve(r.table, "B");
               q.Reserved? && q.index == 1 == q.table.maxIndex && |q.table.slots| == |t.slots|
  {
    OneLetter("A");
    OneLetter("B");
    var t1 := Reserve(t, "A").table;
    assert t1.slots[0] == ReservedSlot("A") && t1.slots[1] == FREE_SLOT && t1.maxIndex == 0;
    assert "A"[0] != "B"[0];
    assert FirstFree(t1.slots, 0) == 1;
  }

  /** The steps that make the start of the two runs above. */
  function ReserveBoth(kind: ObjType): seq<Action>
  {
    [NewReserve(0, "A", kind), NewReserve(1, "B", kind)]
  }

  /** Steps that anybody may take at any time. */
  predicate Free(a: Action) { !a.AttachCount? && !a.ForceClear? }

  lemma FreeStepInv(w: World, foreign: Namespace, a: Action, w': World)
    requires Inv(w, foreign) && StepTo(w, a, w') && Free(a)
    ensures Inv(w', foreign)
  {
    StepInv(w, foreign, a);
  }

  lemma FirstStepInv(w: World, foreign: Namespace, a: Action, w': World)
    requires Initial(w, foreign) && StepTo(w, a, w') && Free(a)
    ensures Inv(w', foreign)
  {
    InitialInv(w, foreign);
    FreeStepInv(w, foreign, a, w');
  }

  lemma ReserveTwice(w: World, kind: ObjType) returns (w1: World, w2: World)
    requires |w.table.slots| == |w.births| >= 2 && w.table.maxIndex == 0 && w.calls == map[]
    requires forall i :: 0 <= i < |w.table.slots| ==> w.table.slots[i] == FREE_SLOT
    requires !kind.Untyped?
    ensures StepTo(w, NewReserve(0, "A", kind), w1) && StepTo(w1, NewReserve(1, "B", kind), w2)
    ensures w2.calls.Keys == {0, 1} && w2.calls[1] == Call(Reserving, 1, "B", kind, 0, 0, true)
    ensures w2.table.maxIndex == 1 && w2.os == w.os
  {
    TwoReserved(w.table);
    OneLetter("B");
    w1 := DoReserve(w, 0, "A", kind);
    w2 := DoReserve(w1, 1, "B", kind);
  }

  lemma OnTopIsReachable(w: World, foreign: Namespace, kind: ObjType) returns (w': World)
    requires Initial(w, foreign) && |w.table.slots| >= 2 && !kind.Untyped?
    requires OsKey(SpaceOf(kind), "/B") !in foreign
    ensures Leads(w, ReserveBoth(kind), w') && OnTop(w', foreign, 1)
    ensures w'.calls[1].slot == 1 && w'.calls[1].name == "B" && w'.calls[1].kind == kind
    ensures 2 !in w'.calls
  {
    OneLetter("B");
    var w1;
    w1, w' := ReserveTwice(w, kind);
    LeadsTwo(w, w1, w', NewReserve(0, "A", kind), NewReserve(1, "B", kind));
    assert Inv(w', foreign) by {
      FirstStepInv(w, foreign, NewReserve(0, "A", kind), w1);
      FreeStepInv(w1, foreign, NewReserve(1, "B", kind), w');
    }
  }

  /** A whole run to a hidden object by an attach to a reserved slot. */
  lemma HiddenByAttach(w: World, foreign: Namespace, kind: ObjType) returns (ws: seq<World>)
    requires Initial(w, foreign) && |w.table.slots| >= 2 && !kind.Untyped?
    requires OsKey(SpaceOf(kind), "/B") !in foreign
    ensures IsRun(ws, ReserveBoth(kind)
                      + ([AttachCount(2, "B", kind), AttachOpen(2), AttachAbort(2)]
                         + [NewCreate(1, true), Book(1), NewPublish(1)]), foreign)
    ensures ws[0] == w && Hidden(ws[8], 1, 1, "B")
  {
    var w1 := OnTopIsReachable(w, foreign, kind);
    var w2 := AttachToReservedHidesObject(w1, foreign, 1, 2);
    var acts := [AttachCount(2, "B", kind), AttachOpen(2), AttachAbort(2)]
                + [NewCreate(1, true), Book(1), NewPublish(1)];
    LeadsConcat(w, ReserveBoth(kind), w1, acts, w2);
    ws := LeadsIsRun(w, ReserveBoth(kind) + acts, w2, foreign);
  }

  /** A whole run to a hidden object by a force-clear. */
  lemma HiddenByClear(w: World, foreign: Namespace, kind: ObjType) returns (ws: seq<World>)
    requires Initial(w, foreign) && |w.table.slots| >= 2 && !kind.Untyped?
    requires OsKey(SpaceOf(kind), "/B") !in foreign
    ensures IsRun(ws, ReserveBoth(kind)
                      + ([ForceClear("B")] + [NewCreate(1, true), Book(1), NewPublish(1)]), foreign)
    ensures ws[0] == w && Hidden(ws[6], 1, 1, "B")
  {
    var w1 := OnTopIsReachable(w, foreign, kind);
    var w2 := ClearUnderCreatorHidesObject(w1, foreign, 1);
    var acts := [ForceClear("B")] + [NewCreate(1, true), Book(1), NewPublish(1)];
    LeadsConcat(w, ReserveBoth(kind), w1, acts, w2);
    ws := LeadsIsRun(w, ReserveBoth(kind) + acts, w2, foreign);
  }

  // ---------------------------------------------------------------------------------------
  // One handle, and what goes wrong around it

  /** Call 0 alone, reserving "A" in a fresh registry. */
  lemma OneReserving(w: World, kind: ObjType) returns (w': World)
    requires |w.table.slots| == |w.births| >= 1 && w.table.maxIndex == 0 && w.calls == map[]
    requires forall i :: 0 <= i < |w.table.slots| ==> w.table.slots[i] == FREE_SLOT
    requires !kind.Untyped?
    ensures StepTo(w, NewReserve(0, "A", kind), w') && |w'.births| == |w'.table.slots|
    ensures w'.calls == map[0 := Call(Reserving, 0, "A", kind, 0, 0, true)] && w'.os == w.os
    ensures w'.table == Table(w.table.slots[0 := ReservedSlot("A")], 0)
    ensures CallKey(w'.calls[0]) == Some(OsKey(SpaceOf(kind), "/A"))
  {
    OneLetter("A");
    w' := DoReserve(w, 0, "A", kind);
    assert !Holds(w.table.slots[0], "A");
    assert FirstFree(w.table.slots, 0) == 0;
  }

  function NewSteps(kind: ObjType): seq<Action>
  {
    [NewReserve(0, "A", kind)] + [NewCreate(0, true), Book(0), NewPublish(0)]
  }

  /** Call 0 has its handle. */
  lemma OneHolding(w: World, foreign: Namespace, kind: ObjType) returns (w': World)
    requires Initial(w, foreign) && !kind.Untyped? && OsKey(SpaceOf(kind), "/A") !in foreign
    ensures Leads(w, NewSteps(kind), w') && Inv(w', foreign) && InPhase(w', 0, Holding)
    ensures w'.calls.Keys == {0} && w'.calls[0].slot == 0
    ensures w'.calls[0].name == "A" && w'.calls[0].kind == kind
    ensures |w'.table.slots| == |w.table.slots| > 0 && w'.table.maxIndex == 0
    ensures w'.table.slots[0].count == 1 && w'.table.slots[0].name == "A"
    ensures w'.os.Keys == foreign.Keys + {OsKey(SpaceOf(kind), "/A")}
    ensures CallKey(w'.calls[0]) == Some(OsKey(SpaceOf(kind), "/A"))
  {
    var w1, w2, w3;
    w1, w2, w3, w' := NewRun(w, kind);
    assert Inv(w', foreign) by {
      FirstStepInv(w, foreign, NewReserve(0, "A", kind), w1);
      FreeStepInv(w1, foreign, NewCreate(0, true), w2);
      FreeStepInv(w2, foreign, Book(0), w3);
      FreeStepInv(w3, foreign, NewPublish(0), w');
    }
  }

  lemma NewRun(w: World, kind: ObjType) returns (w1: World, w2: World, w3: World, w4: World)
    requires |w.table.slots| == |w.births| >= 1 && w.table.maxIndex == 0 && w.calls == map[]
    requires forall i :: 0 <= i < |w.table.slots| ==> w.table.slots[i] == FREE_SLOT
    requires !kind.Untyped? && OsKey(SpaceOf(kind), "/A") !in w.os
    ensures StepTo(w, NewReserve(0, "A", kind), w1) && StepTo(w1, NewCreate(0, true), w2)
    ensures StepTo(w2, Book(0), w3) && StepTo(w3, NewPublish(0), w4) && Leads(w, NewSteps(kind), w4)
    ensures InPhase(w4, 0, Holding) && w4.calls.Keys == {0} && w4.calls[0].slot == 0
    ensures w4.calls[0].name == "A" && w4.calls[0].kind == kind
    ensures |w4.table.slots| == |w.table.slots| && w4.table.maxIndex == 0
    ensures w4.table.slots[0].count == 1 && w4.table.slots[0].name == "A"
    ensures w4.os.Keys == w.os.Keys + {OsKey(SpaceOf(kind), "/A")}
    ensures CallKey(w4.calls[0]) == Some(OsKey(SpaceOf(kind), "/A"))
  {
    w1 := OneReserving(w, kind);
    w2, w3, w4 := CreatorFinishes(w1, 0);
    LeadsFirst(w, NewReserve(0, "A", kind), w1, [NewCreate(0, true), Book(0), NewPublish(0)], w4);
  }

  // An attach in the wrong namespace

  /** A handle `h` is the only user of its slot, another call attaches to the name as an object of
      the other namespace, and `h` is dropped, not as the last user any more. */
  lemma CountThenDrop(w: World, h: nat, d: nat, kind: ObjType) returns (w1: World, w2: World)
    requires Shaped(w.table) && |w.births| == |w.table.slots|
    requires InPhase(w, h, Holding) && d !in w.calls && !kind.Untyped?
    requires DropTarget(w, w.calls[h]) == w.calls[h].slot < |w.table.slots|
    requires w.table.slots[w.calls[h].slot].count == 1
    requires Key(w.calls[h].name) == w.calls[h].name
    requires Lookup(w.table, w.calls[h].name) == Some(w.calls[h].slot)
    ensures StepTo(w, AttachCount(d, w.calls[h].name, kind), w1) && StepTo(w1, DropHandle(h), w2)
    ensures var x, i := w.calls[h], w.calls[h].slot;
            && InPhase(w2, d, Counted) && w2.calls[d].slot == i
            && CallKey(w2.calls[d]) == CallKey(x.(kind := kind))
            && w2.os == w.os && w2.births == w.births && Shaped(w2.table)
            && w2.table.slots == w.table.slots[i := w.table.slots[i].(count := 1, reserved := false)]
  {
    var x, i := w.calls[h], w.calls[h].slot;
    w1 := DoAttach(w, d, x.name, kind);
    assert w1.table.slots[i].count == 2 && w1.calls[h] == x;
    w2 := DoDrop(w1, h);
    assert w2.os == w.os && w2.calls[d] == w1.calls[d];
  }

  /** The attach is refused and gives its count back, without a release callback. */
  lemma RefuseAndAbort(w: World, d: nat) returns (w1: World, w2: World)
    requires Shaped(w.table) && |w.births| == |w.table.slots|
    requires InPhase(w, d, Counted) && w.calls[d].slot < |w.table.slots|
    requires w.table.slots[w.calls[d].slot].count == 1
    requires CallKey(w.calls[d]).Some? ==> CallKey(w.calls[d]).value !in w.os
    ensures StepTo(w, AttachOpen(d), w1) && StepTo(w1, AttachAbort(d), w2)
    ensures w2.os == w.os && w2.births == w.births
    ensures w2.table.slots == w.table.slots[w.calls[d].slot := Freed(w.table.slots[w.calls[d].slot])]
  {
    w1 := DoOpen(w, d);
    assert w1.calls[d].phase == OpenFailed;
    w2 := Apply(w1, AttachAbort(d));
  }

  function LeakSteps(h: nat, d: nat, name: string, kind: ObjType): seq<Action>
  {
    [AttachCount(d, name, kind), DropHandle(h)] + [AttachOpen(d), AttachAbort(d)]
  }

  /** The slot is free in the end, the object is not unlinked, and nothing in the registry refers to
      it. */
  lemma AttachAcrossNamespacesLeaks(w: World, foreign: Namespace, h: nat, d: nat, kind: ObjType)
    returns (w': World)
    requires Inv(w, foreign) && InPhase(w, h, Holding) && d !in w.calls && !kind.Untyped?
    requires SpaceOf(kind) != SpaceOf(w.calls[h].kind)
    requires w.calls[h].slot < |w.table.slots| && w.table.slots[w.calls[h].slot].count == 1
    requires CallKey(w.calls[h].(kind := kind)).Some? ==>
               CallKey(w.calls[h].(kind := kind)).value !in w.os
    ensures Leads(w, LeakSteps(h, d, w.calls[h].name, kind), w')
    ensures CallKey(w.calls[h]).Some? && Leaked(w', foreign, CallKey(w.calls[h]).value)
    ensures w.calls[h].slot < |w'.table.slots| && !InUse(w'.table.slots[w.calls[h].slot])
  {
    var x, i := w.calls[h], w.calls[h].slot;
    HandleKnowsSlot(w, foreign, h);
    assert CallOk(w, x) && BirthOk(w, foreign, i) && SlotOk(w.table.slots[i]);
    LookupFinds(w.table, i);
    w' := LeakPath(w, h, d, kind);
    NobodyElseOwns(w, w', foreign, i);
  }

  lemma LeakPath(w: World, h: nat, d: nat, kind: ObjType) returns (w': World)
    requires Shaped(w.table) && |w.births| == |w.table.slots|
    requires InPhase(w, h, Holding) && d !in w.calls && !kind.Untyped?
    requires DropTarget(w, w.calls[h]) == w.calls[h].slot < |w.table.slots|
    requires w.table.slots[w.calls[h].slot].count == 1
    requires Key(w.calls[h].name) == w.calls[h].name
    requires Lookup(w.table, w.calls[h].name) == Some(w.calls[h].slot)
    requires CallKey(w.calls[h].(kind := kind)).Some? ==>
               CallKey(w.calls[h].(kind := kind)).value !in w.os
    ensures Leads(w, LeakSteps(h, d, w.calls[h].name, kind), w')
    ensures w'.os == w.os && w'.births == w.births
    ensures w'.table.slots == w.table.slots[w.calls[h].slot := Freed(w.table.slots[w.calls[h].slot])]
  {
    var name, w1, w2, w3 := w.calls[h].name, w, w, w;
    w1, w2 := CountThenDrop(w, h, d, kind);
    LeadsTwo(w, w1, w2, AttachCount(d, name, kind), DropHandle(h));
    w3, w' := RefuseAndAbort(w2, d);
    LeadsTwo(w2, w3, w', AttachOpen(d), AttachAbort(d));
    LeadsConcat(w, [AttachCount(d, name, kind), DropHandle(h)], w2, [AttachOpen(d), AttachAbort(d)], w');
  }

  lemma KeyOfA(x: Call)
    requires x.name == "A"
    ensures CallKey(x) == Some(OsKey(SpaceOf(x.kind), "/A"))
  {
    OneLetter("A");
  }

  /** A whole run to a leaked object by an attach in the wrong namespace. */
  lemma LeakedByAttach(w: World, foreign: Namespace, kind: ObjType, other: ObjType)
    returns (ws: seq<World>)
    requires Initial(w, foreign) && !kind.Untyped? && !other.Untyped? && SpaceOf(kind) != SpaceOf(other)
    requires OsKey(SpaceOf(kind), "/A") !in foreign && OsKey(SpaceOf(other), "/A") !in foreign
    ensures IsRun(ws, NewSteps(kind) + LeakSteps(0, 1, "A", other), foreign)
    ensures ws[0] == w && Leaked(ws[8], foreign, OsKey(SpaceOf(kind), "/A"))
  {
    var w1 := OneHolding(w, foreign, kind);
    KeyOfA(w1.calls[0].(kind := other));
    var w2 := AttachAcrossNamespacesLeaks(w1, foreign, 0, 1, other);
    LeadsConcat(w, NewSteps(kind), w1, LeakSteps(0, 1, "A", other), w2);
    ws := LeadsIsRun(w, NewSteps(kind) + LeakSteps(0, 1, "A", other), w2, foreign);
  }

  // A creator that dies at the wrong moment

  /** A whole run to a leaked object by a creator that dies between creating its object and writing
      the slot's type: the force-clear unlinks nothing, and nobody is left to do it. */
  lemma LeakedByClear(w: World, foreign: Namespace, kind: ObjType) returns (ws: seq<World>)
    requires Initial(w, foreign) && !kind.Untyped? && OsKey(SpaceOf(kind), "/A") !in foreign
    ensures IsRun(ws, [NewReserve(0, "A", kind), NewCreate(0, true)] + [Die(0), ForceClear("A")], foreign)
    ensures ws[0] == w && ws[4].calls == map[] && Leaked(ws[4], foreign, OsKey(SpaceOf(kind), "/A"))
  {
    var w2, w3 := DeadCreator(w, foreign, kind);
    OneLetter("A");
    LookupFinds(w3.table, 0);
    ClearLeavesObject(w3, foreign, "A", 0);
    var w4 := DoClear(w3, "A");
    LeadsTwo(w2, w3, w4, Die(0), ForceClear("A"));
    LeadsConcat(w, [NewReserve(0, "A", kind), NewCreate(0, true)], w2, [Die(0), ForceClear("A")], w4);
    ws := LeadsIsRun(w, [NewReserve(0, "A", kind), NewCreate(0, true)] + [Die(0), ForceClear("A")],
                     w4, foreign);
  }

  lemma DeadCreator(w: World, foreign: Namespace, kind: ObjType) returns (w2: World, w3: World)
    requires Initial(w, foreign) && !kind.Untyped? && OsKey(SpaceOf(kind), "/A") !in foreign
    ensures Leads(w, [NewReserve(0, "A", kind), NewCreate(0, true)], w2) && StepTo(w2, Die(0), w3)
    ensures Inv(w3, foreign) && w3.calls.Keys == {0} && w3.calls[0].phase.Created?
    ensures !w3.calls[0].alive && w3.calls[0].slot == 0
    ensures CallKey(w3.calls[0]) == Some(OsKey(SpaceOf(kind), "/A"))
    ensures w3.table == Table(w.table.slots[0 := ReservedSlot("A")], 0)
  {
    var w1 := OneReserving(w, kind);
    w2, w3 := CreateThenDie(w1);
    LeadsTwo(w, w1, w2, NewReserve(0, "A", kind), NewCreate(0, true));
    assert Inv(w3, foreign) by {
      FirstStepInv(w, foreign, NewReserve(0, "A", kind), w1);
      FreeStepInv(w1, foreign, NewCreate(0, true), w2);
      FreeStepInv(w2, foreign, Die(0), w3);
    }
  }

  lemma CreateThenDie(w: World) returns (w1: World, w2: World)
    requires Shaped(w.table) && |w.births| == |w.table.slots|
    requires w.calls.Keys == {0} && InPhase(w, 0, Reserving) && w.calls[0].slot < |w.births|
    requires CallKey(w.calls[0]).Some? && CallKey(w.calls[0]).value !in w.os
    ensures StepTo(w, NewCreate(0, true), w1) && StepTo(w1, Die(0), w2)
    ensures w2.calls.Keys == {0} && w2.table == w.table
    ensures w2.calls[0] == w.calls[0].(phase := Created, obj := w2.calls[0].obj, alive := false)
  {
    w1 := DoCreate(w, 0, true);
    w2 := Apply(w1, Die(0));
  }

  // A handle that outlives its slot

  /** A whole run in which a handle is dropped after its name was force-cleared and its slot given to
      another creator: the drop takes that creator's reservation away. */
  lemma StaleDropRobs(w: World, foreign: Namespace, kind: ObjType) returns (ws: seq<World>)
    requires Initial(w, foreign) && !kind.Untyped? && OsKey(SpaceOf(kind), "/A") !in foreign
    ensures IsRun(ws, NewSteps(kind) + [ForceClear("A"), NewReserve(1, "B", kind), DropHandle(0)], foreign)
    ensures ws[0] == w && InPhase(ws[7], 1, Reserving) && ws[7].calls[1].slot == 0
    ensures |ws[7].table.slots| > 0 && !InUse(ws[7].table.slots[0])
  {
    var w1 := OneHolding(w, foreign, kind);
    HandleKnowsSlot(w1, foreign, 0);
    var w2, w3, w4 := ClearReserveDrop(w1, kind);
    LeadsThree(w1, w2, w3, w4, ForceClear("A"), NewReserve(1, "B", kind), DropHandle(0));
    LeadsConcat(w, NewSteps(kind), w1, [ForceClear("A"), NewReserve(1, "B", kind), DropHandle(0)], w4);
    ws := LeadsIsRun(w, NewSteps(kind) + [ForceClear("A"), NewReserve(1, "B", kind), DropHandle(0)],
                     w4, foreign);
  }

  lemma ClearReserveDrop(w: World, kind: ObjType) returns (w1: World, w2: World, w3: World)
    requires Sound(w.table) && |w.births| == |w.table.slots| && w.table.maxIndex == 0 && !kind.Untyped?
    requires InPhase(w, 0, Holding) && w.calls.Keys == {0} && w.calls[0].slot == 0
    requires DropTarget(w, w.calls[0]) == 0
    requires w.table.slots[0].count == 1 && w.table.slots[0].name == "A"
    ensures StepTo(w, ForceClear("A"), w1) && StepTo(w1, NewReserve(1, "B", kind), w2)
    ensures StepTo(w2, DropHandle(0), w3)
    ensures InPhase(w3, 1, Reserving) && w3.calls[1].slot == 0
    ensures |w3.table.slots| > 0 && !InUse(w3.table.slots[0])
  {
    OneLetter("A");
    OneLetter("B");
    assert Holds(w.table.slots[0], "A");
    ClearedToEmpty(w.table);
    w1 := DoClear(w, "A");
    assert w1.calls == w.calls;
    w2, w3 := ReserveThenDrop(w1, kind);
  }

  lemma ReserveThenDrop(w: World, kind: ObjType) returns (w1: World, w2: World)
    requires Shaped(w.table) && |w.births| == |w.table.slots| && !kind.Untyped?
    requires InPhase(w, 0, Holding) && w.calls.Keys == {0} && w.calls[0].slot == 0
    requires DropTarget(w, w.calls[0]) == 0
    requires Reserve(w.table, "B").Reserved? && Reserve(w.table, "B").index == 0
    ensures StepTo(w, NewReserve(1, "B", kind), w1) && StepTo(w1, DropHandle(0), w2)
    ensures InPhase(w2, 1, Reserving) && w2.calls[1].slot == 0
    ensures |w2.table.slots| > 0 && !InUse(w2.table.slots[0])
  {
    w1 := DoReserve(w, 1, "B", kind);
    w2 := DoDrop(w1, 0);
  }

  lemma ClearedToEmpty(t: Table)
    requires Sound(t) && t.maxIndex == 0
    ensures var t' := Cleared(t, 0);
            && |t'.slots| == |t.slots| && t'.maxIndex == 0 && Reserve(t', "B").Reserved?
            && Reserve(t', "B").index == 0
  {
    ClearedSlots(t, 0);
    ClearedSound(t, 0);
    var t' := Cleared(t, 0);
    assert !InUse(t'.slots[0]);
    assert FirstFree(t'.slots, 0) == 0;
  }

  // ---------------------------------------------------------------------------------------
  // An attach to a slot whose object exists already, but is not published

  /** Another call attaches to the name and gets its handle. */
  lemma AttachOpens(w: World, c: nat, d: nat) returns (w1: World, w2: World)
    requires Shaped(w.table) && |w.births| == |w.table.slots|
    requires c in w.calls && d !in w.calls && !w.calls[c].kind.Untyped?
    requires w.calls[c].slot < |w.table.slots| && w.table.slots[w.calls[c].slot].count == 0
    requires Key(w.calls[c].name) == w.calls[c].name
    requires Lookup(w.table, w.calls[c].name) == Some(w.calls[c].slot)
    requires CallKey(w.calls[c]).Some? && CallKey(w.calls[c]).value in w.os
    ensures var x := w.calls[c];
            && StepTo(w, AttachCount(d, x.name, x.kind), w1) && StepTo(w1, AttachOpen(d), w2)
            && w2.table == Count(w.table, x.slot) && w2.births == w.births && w2.os == w.os
            && w2.calls == w.calls[d := Call(Opened, x.slot, x.name, x.kind,
                                             w.os[CallKey(x).value], 0, true)]
  {
    var x := w.calls[c];
    w1 := DoAttach(w, d, x.name, x.kind);
    assert w1.calls[d] == Call(Counted, x.slot, x.name, x.kind, 0, 0, true);
    w2 := DoOpen(w1, d);
  }

  /** It drops the handle, as the only user: the slot is free and the object unlinked. */
  lemma BookThenDrop(w: World, d: nat) returns (w1: World, w2: World)
    requires Shaped(w.table) && |w.births| == |w.table.slots| && InPhase(w, d, Opened)
    requires w.calls[d].slot < |w.table.slots| && w.table.slots[w.calls[d].slot].count == 1
    requires CallKey(w.calls[d]).Some? && w.table.slots[w.calls[d].slot].name == w.calls[d].name
    ensures StepTo(w, Book(d), w1) && StepTo(w1, DropHandle(d), w2)
    ensures w2.calls == w.calls - {d} && w2.births == w.births
    ensures w2.os == w.os - {CallKey(w.calls[d]).value}
    ensures |w2.table.slots| == |w.table.slots| && Shaped(w2.table)
    ensures !InUse(w2.table.slots[w.calls[d].slot])
  {
    w1 := DoBook(w, d);
    assert w1.calls[d].phase == Holding && DropTarget(w1, w1.calls[d]) == w.calls[d].slot;
    w2 := DoDrop(w1, d);
    assert w2.calls == w.calls - {d};
  }

  /** The registry counts the handle `c` as the slot's user, but its object has no name any more: no
      attach can open it. */
  ghost predicate Orphaned(w: World, c: nat)
  {
    && InPhase(w, c, Holding) && w.calls[c].slot < |w.table.slots|
    && w.table.slots[w.calls[c].slot].count == 1
    && CallKey(w.calls[c]).Some? && CallKey(w.calls[c]).value !in w.os
  }

  function Visit(d: nat, name: string, kind: ObjType): seq<Action>
  {
    [AttachCount(d, name, kind), AttachOpen(d)] + [Book(d), DropHandle(d)]
  }

  lemma VisitUnlinks(w: World, foreign: Namespace, c: nat, d: nat) returns (w': World)
    requires Inv(w, foreign) && (InPhase(w, c, Created) || InPhase(w, c, Booked)) && d !in w.calls
    ensures var x := w.calls[c];
            && Leads(w, Visit(d, x.name, x.kind), w') && w'.calls == w.calls
            && CallKey(x).Some? && w'.os == w.os - {CallKey(x).value}
            && x.slot < |w'.table.slots| == |w'.births| && Shaped(w'.table)
            && !InUse(w'.table.slots[x.slot])
  {
    var x := w.calls[c];
    assert CallOk(w, x) && BirthOk(w, foreign, x.slot) && SlotOk(w.table.slots[x.slot]);
    LookupFinds(w.table, x.slot);
    w' := VisitSteps(w, c, d);
  }

  lemma VisitSteps(w: World, c: nat, d: nat) returns (w': World)
    requires Shaped(w.table) && |w.births| == |w.table.slots|
    requires c in w.calls && d !in w.calls && !w.calls[c].kind.Untyped?
    requires w.calls[c].slot < |w.table.slots| && w.table.slots[w.calls[c].slot].count == 0
    requires w.table.slots[w.calls[c].slot].name == w.calls[c].name == Key(w.calls[c].name)
    requires Lookup(w.table, w.calls[c].name) == Some(w.calls[c].slot)
    requires CallKey(w.calls[c]).Some? && CallKey(w.calls[c]).value in w.os
    ensures var x := w.calls[c];
            && Leads(w, Visit(d, x.name, x.kind), w') && w'.calls == w.calls
            && w'.os == w.os - {CallKey(x).value}
            && x.slot < |w'.table.slots| == |w'.births| && Shaped(w'.table)
            && !InUse(w'.table.slots[x.slot])
  {
    var w1, w2 := AttachOpens(w, c, d);
    assert w2.calls - {d} == w.calls;
    var w3;
    w3, w' := BookThenDrop(w2, d);
    VisitLeads(w, w1, w2, w3, w', d, w.calls[c].name, w.calls[c].kind);
  }

  lemma VisitLeads(w: World, w1: World, w2: World, w3: World, w4: World, d: nat, name: string,
                   kind: ObjType)
    requires StepTo(w, AttachCount(d, name, kind), w1) && StepTo(w1, AttachOpen(d), w2)
    requires StepTo(w2, Book(d), w3) && StepTo(w3, DropHandle(d), w4)
    ensures Leads(w, Visit(d, name, kind), w4)
  {
    LeadsTwo(w, w1, w2, AttachCount(d, name, kind), AttachOpen(d));
    LeadsTwo(w2, w3, w4, Book(d), DropHandle(d));
    LeadsConcat(w, [AttachCount(d, name, kind), AttachOpen(d)], w2, [Book(d), DropHandle(d)], w4);
  }

  lemma PublishOrphan(w: World, c: nat) returns (w': World)
    requires Shaped(w.table) && |w.births| == |w.table.slots| && InPhase(w, c, Booked)
    requires w.calls[c].slot < |w.table.slots| && w.table.slots[w.calls[c].slot].count == 0
    requires CallKey(w.calls[c]).Some? && CallKey(w.calls[c]).value !in w.os
    ensures StepTo(w, NewPublish(c), w') && Orphaned(w', c)
  {
    w' := Apply(w, NewPublish(c));
  }

  lemma BookKeeps(w: World, c: nat) returns (w': World)
    requires Shaped(w.table) && |w.births| == |w.table.slots| && InPhase(w, c, Created)
    requires w.calls[c].slot < |w.table.slots| && w.table.slots[w.calls[c].slot].count == 0
    ensures StepTo(w, Book(c), w') && InPhase(w', c, Booked) && w'.os == w.os
    ensures CallKey(w'.calls[c]) == CallKey(w.calls[c]) && w'.calls[c].slot == w.calls[c].slot
    ensures |w'.births| == |w'.table.slots| == |w.table.slots| && Shaped(w'.table)
    ensures w'.table.slots[w.calls[c].slot].count == 0
  {
    w' := DoBook(w, c);
  }

  /** What the creator has left to do. */
  function Rest(c: nat, p: Phase): seq<Action>
  {
    if p.Created? then [Book(c), NewPublish(c)] else [NewPublish(c)]
  }

  /** A call attaches to a slot that its creator has not published yet, and drops its handle again:
      the object is unlinked under the creator, which does not notice. */
  lemma AttachToUnpublishedOrphans(w: World, foreign: Namespace, c: nat, d: nat) returns (w': World)
    requires Inv(w, foreign) && (InPhase(w, c, Created) || InPhase(w, c, Booked)) && d !in w.calls
    ensures var x := w.calls[c];
            Leads(w, Visit(d, x.name, x.kind) + Rest(c, x.phase), w') && Orphaned(w', c)
  {
    var x := w.calls[c];
    var w1 := VisitUnlinks(w, foreign, c, d);
    w' := RestOrphans(w1, c);
    LeadsConcat(w, Visit(d, x.name, x.kind), w1, Rest(c, x.phase), w');
  }

  lemma RestOrphans(w: World, c: nat) returns (w': World)
    requires Shaped(w.table) && |w.births| == |w.table.slots|
    requires InPhase(w, c, Created) || InPhase(w, c, Booked)
    requires w.calls[c].slot < |w.table.slots| && w.table.slots[w.calls[c].slot].count == 0
    requires CallKey(w.calls[c]).Some? && CallKey(w.calls[c]).value !in w.os
    ensures Leads(w, Rest(c, w.calls[c].phase), w') && Orphaned(w', c)
  {
    if w.calls[c].phase.Created? {
      var w1 := BookKeeps(w, c);
      w' := PublishOrphan(w1, c);
      LeadsTwo(w, w1, w', Book(c), NewPublish(c));
    } else {
      w' := PublishOrphan(w, c);
      assert IsPath([w, w'], [NewPublish(c)]);
    }
  }

  lemma CreateThenBook(w: World) returns (w1: World, w2: World)
    requires Shaped(w.table) && |w.births| == |w.table.slots|
    requires w.calls.Keys == {0} && InPhase(w, 0, Reserving) && w.calls[0].slot < |w.births|
    requires CallKey(w.calls[0]).Some? && CallKey(w.calls[0]).value !in w.os
    ensures StepTo(w, NewCreate(0, true), w1) && StepTo(w1, Book(0), w2)
    ensures InPhase(w1, 0, Created) && InPhase(w2, 0, Booked) && w1.calls.Keys == w2.calls.Keys == {0}
    ensures w1.calls[0].name == w2.calls[0].name == w.calls[0].name
    ensures w1.calls[0].kind == w2.calls[0].kind == w.calls[0].kind
  {
    w1 := DoCreate(w, 0, true);
    w2 := DoBook(w1, 0);
  }

  /** The creator's steps before the visit, which comes before or after its book-keeping. */
  function Begin(kind: ObjType, booked: bool): seq<Action>
  {
    [NewReserve(0, "A", kind)] + if booked then [NewCreate(0, true), Book(0)] else [NewCreate(0, true)]
  }

  lemma UnpublishedIsReachable(w: World, foreign: Namespace, kind: ObjType, booked: bool)
    returns (w': World)
    requires Initial(w, foreign) && !kind.Untyped? && OsKey(SpaceOf(kind), "/A") !in foreign
    ensures Leads(w, Begin(kind, booked), w') && Inv(w', foreign) && w'.calls.Keys == {0}
    ensures InPhase(w', 0, if booked then Booked else Created)
    ensures w'.calls[0].name == "A" && w'.calls[0].kind == kind
  {
    var w1 := OneReserving(w, kind);
    var w2, w3 := CreateThenBook(w1);
    w' := if booked then w3 else w2;
    if booked {
      LeadsTwo(w1, w2, w3, NewCreate(0, true), Book(0));
    } else {
      assert IsPath([w1, w2], [NewCreate(0, true)]);
    }
    LeadsFirst(w, NewReserve(0, "A", kind), w1,
               if booked then [NewCreate(0, true), Book(0)] else [NewCreate(0, true)], w');
    assert Inv(w', foreign) by {
      FirstStepInv(w, foreign, NewReserve(0, "A", kind), w1);
      FreeStepInv(w1, foreign, NewCreate(0, true), w2);
      FreeStepInv(w2, foreign, Book(0), w3);
    }
  }

  /** Whole runs to that state. */
  lemma OrphanedByAttach(w: World, foreign: Namespace, kind: ObjType, booked: bool)
    returns (ws: seq<World>)
    requires Initial(w, foreign) && !kind.Untyped? && OsKey(SpaceOf(kind), "/A") !in foreign
    ensures IsRun(ws, Begin(kind, booked)
                      + (Visit(1, "A", kind) + Rest(0, if booked then Booked else Created)), foreign)
    ensures ws[0] == w && Orphaned(ws[|ws| - 1], 0)
  {
    var w1 := UnpublishedIsReachable(w, foreign, kind, booked);
    var w2 := AttachToUnpublishedOrphans(w1, foreign, 0, 1);
    var acts := Visit(1, "A", kind) + Rest(0, if booked then Booked else Created);
    LeadsConcat(w, Begin(kind, booked), w1, acts, w2);
    ws := LeadsIsRun(w, Begin(kind, booked) + acts, w2, foreign);
  }
}
