/** What holds in every interleaving of new, attach, drop, death and force-clear, and exactly when
    an attach or a force-clear keeps it so. */
module ProtocolTheorems {
  import opened Common
  import opened Names
  import opened RegistryTable
  import opened Backend
  import opened Protocol
  import opened ProtocolProofs

  ghost predicate Reachable(w: World, foreign: Namespace)
  {
    exists ws, acts :: IsAllowedRun(ws, acts, foreign) && ws[|ws| - 1] == w
  }

  lemma ReachableInv(w: World, foreign: Namespace)
    requires Reachable(w, foreign)
    ensures Inv(w, foreign)
  {
    var ws, acts :| IsAllowedRun(ws, acts, foreign) && ws[|ws| - 1] == w;
    RunInv(ws, acts, foreign, |ws| - 1);
  }

  // ---------------------------------------------------------------------------------------
  // Safety

  /** The calls counted on slot `i`, its handles and the attaches still in progress: those of
      living processes, or those of dead ones. */
  function Users(w: World, i: nat, alive: bool): set<nat>
  {
    set c | c in w.calls && w.calls[c].slot == i && w.calls[c].alive == alive
            && !Creating(w.calls[c].phase)
  }

  function Creators(w: World, i: nat): set<nat>
  {
    set c | c in w.calls && w.calls[c].slot == i && Creating(w.calls[c].phase)
  }

  /** A slot's count is the number of its users, plus those that died without dropping; it is
      reserved exactly while one call, and never more than one, is creating it or died doing so;
      the two do not overlap. */
  lemma CountsAreUsers(w: World, foreign: Namespace, i: nat)
    requires Reachable(w, foreign) && i < |w.table.slots|
    ensures w.table.slots[i].count == |Users(w, i, true)| + |Users(w, i, false)|
    ensures w.table.slots[i].reserved <==> |Creators(w, i)| == 1
    ensures !w.table.slots[i].reserved <==> Creators(w, i) == {}
    ensures w.table.slots[i].reserved ==> Users(w, i, true) + Users(w, i, false) == {}
  {
    ReachableInv(w, foreign);
    UsersAreMembers(w, i);
    assert |Members(w.calls, i, false)| == Expected(w.table.slots[i], false);
    assert |Members(w.calls, i, true)| == Expected(w.table.slots[i], true);
    assert SlotOk(w.table.slots[i]);
  }

  lemma UsersAreMembers(w: World, i: nat)
    ensures Users(w, i, true) + Users(w, i, false) == Members(w.calls, i, false)
    ensures |Users(w, i, true)| + |Users(w, i, false)| == |Members(w.calls, i, false)|
    ensures Creators(w, i) == Members(w.calls, i, true)
  {
    assert Users(w, i, true) + Users(w, i, false) == Members(w.calls, i, false);
    assert Users(w, i, true) !! Users(w, i, false);
  }

  /** While a slot has users, the object created for its name exists under its converted name
      and is no foreign object; every user that has mapped an object has mapped that one. */
  lemma ObjectOutlivesUsers(w: World, foreign: Namespace, i: nat)
    requires Reachable(w, foreign) && i < |w.table.slots| && w.table.slots[i].count > 0
    ensures i < |w.births| && w.births[i].Some?
    ensures var s, b := w.table.slots[i], w.births[i].value;
            && OsName(s.name) == Some(b.key.name) && SpaceOf(s.kind) == b.key.space
            && b.key in w.os && w.os[b.key] == b.obj && b.key !in foreign
            && (forall c :: c in Users(w, i, true) && !w.calls[c].phase.Counted? ==>
                              w.calls[c].obj == b.obj)
  {
    ReachableInv(w, foreign);
    assert BirthOk(w, foreign, i);
    forall c | c in Users(w, i, true) && !w.calls[c].phase.Counted?
      ensures w.calls[c].obj == w.births[i].value.obj
    {
      assert CallOk(w, w.calls[c]);
    }
  }

  /** Call `c` has been counted before and after, on the same slot, and the slot has the same
      object. */
  ghost predicate SameIncarnation(w: World, w': World, c: nat)
  {
    && c in w.calls && c in w'.calls
    && !Creating(w.calls[c].phase) && !Creating(w'.calls[c].phase)
    && w'.calls[c].slot == w.calls[c].slot < |w.births| == |w'.births|
    && w'.births[w.calls[c].slot] == w.births[w.calls[c].slot]
  }

  /** No allowed step changes that for a call that is still there. */
  lemma IncarnationStep(w: World, foreign: Namespace, a: Action, c: nat)
    requires Inv(w, foreign) && Allowed(w, a)
    requires c in w.calls && !Creating(w.calls[c].phase)
    ensures c in Apply(w, a).calls ==> SameIncarnation(w, Apply(w, a), c)
  {
    assert CallOk(w, w.calls[c]);
    assert a.NewCreate? ==> CallOk(w, w.calls[a.c]);
    if c in Apply(w, a).calls {
      CallStays(w, a, c);
      BirthsChange(w, a, w.calls[c].slot);
    }
  }

  /** A call keeps its slot, and once counted it stays so. */
  lemma CallStays(w: World, a: Action, c: nat)
    requires Enabled(w, a) && c in w.calls && c in Apply(w, a).calls
    ensures Apply(w, a).calls[c].slot == w.calls[c].slot
    ensures !Creating(w.calls[c].phase) ==> !Creating(Apply(w, a).calls[c].phase)
  {}

  /** Only reserving a free slot or creating its object changes the history of a slot. */
  lemma BirthsChange(w: World, a: Action, i: nat)
    requires Enabled(w, a) && i < |w.births| && InUse(w.table.slots[i])
    requires a.NewCreate? ==> w.calls[a.c].slot != i
    ensures |Apply(w, a).births| == |w.births| && Apply(w, a).births[i] == w.births[i]
  {}

  /** From the moment a call is counted until it drops its handle, the slot has the same object. */
  lemma {:induction false} IncarnationRun(ws: seq<World>, acts: seq<Action>, foreign: Namespace,
                                          j: nat, k: nat, c: nat)
    requires IsAllowedRun(ws, acts, foreign) && j <= k < |ws|
    requires forall m :: j <= m <= k ==> c in ws[m].calls
    requires SameIncarnation(ws[j], ws[j], c)
    ensures SameIncarnation(ws[j], ws[k], c)
    decreases k
  {
    if j < k {
      IncarnationRun(ws, acts, foreign, j, k - 1, c);
      IncarnationNext(ws, acts, foreign, k - 1, c);
    }
  }

  lemma IncarnationNext(ws: seq<World>, acts: seq<Action>, foreign: Namespace, k: nat, c: nat)
    requires IsAllowedRun(ws, acts, foreign) && k < |acts|
    requires SameIncarnation(ws[k], ws[k], c) && c in ws[k + 1].calls
    ensures SameIncarnation(ws[k], ws[k + 1], c)
  {
    RunInv(ws, acts, foreign, k);
    assert StepTo(ws[k], acts[k], ws[k + 1]) && Allowed(ws[k], acts[k]);
    IncarnationStep(ws[k], foreign, acts[k], c);
  }

  /** A counted call's slot has an object, and it exists. */
  lemma UserHasObject(w: World, foreign: Namespace, c: nat)
    requires Inv(w, foreign) && c in w.calls && !Creating(w.calls[c].phase)
    ensures w.calls[c].slot < |w.births| && w.births[w.calls[c].slot].Some?
    ensures var b := w.births[w.calls[c].slot].value;
            CallKey(w.calls[c]) == Some(b.key) && b.key in w.os && w.os[b.key] == b.obj
  {
    assert CallOk(w, w.calls[c]);
    assert BirthOk(w, foreign, w.calls[c].slot);
  }

  /** Through whatever other calls do and whoever dies, it is the same object, and it exists. */
  lemma IncarnationKept(ws: seq<World>, acts: seq<Action>, foreign: Namespace,
                                           j: nat, k: nat, c: nat)
    requires IsAllowedRun(ws, acts, foreign) && j <= k < |ws|
    requires forall m :: j <= m <= k ==> c in ws[m].calls
    requires !Creating(ws[j].calls[c].phase)
    ensures SameIncarnation(ws[j], ws[k], c) && ws[j].births[ws[j].calls[c].slot].Some?
    ensures var b := ws[j].births[ws[j].calls[c].slot].value;
            b.key in ws[k].os && ws[k].os[b.key] == b.obj
  {
    assert Inv(ws[j], foreign) by { RunInv(ws, acts, foreign, j); }
    UserHasObject(ws[j], foreign, c);
    IncarnationRun(ws, acts, foreign, j, k, c);
    assert Inv(ws[k], foreign) by { RunInv(ws, acts, foreign, k); }
    UserHasObject(ws[k], foreign, c);
  }

  /** An attach that is counted at one moment and opens at a later one opens the object that the
      name stood for when it was counted, whatever happened in between. */
  lemma AttachOpensTheObject(ws: seq<World>, acts: seq<Action>, foreign: Namespace,
                             j: nat, k: nat, c: nat)
    requires IsAllowedRun(ws, acts, foreign) && j <= k < |ws|
    requires forall m :: j <= m <= k ==> InPhase(ws[m], c, Counted)
    ensures InPhase(ws[j], c, Counted) && Enabled(ws[k], AttachOpen(c))
    ensures var x, i := Apply(ws[k], AttachOpen(c)).calls[c], ws[j].calls[c].slot;
            && x.phase == Opened && x.slot == i < |ws[j].births| && ws[j].births[i].Some?
            && CallKey(ws[j].calls[c]) == Some(ws[j].births[i].value.key)
            && x.obj == ws[j].births[i].value.obj
            && CallKey(ws[j].calls[c]).value in ws[j].os
            && ws[j].os[CallKey(ws[j].calls[c]).value] == x.obj
  {
    assert InPhase(ws[j], c, Counted) && InPhase(ws[k], c, Counted);
    IncarnationKept(ws, acts, foreign, j, k, c);
    assert Inv(ws[j], foreign) by { RunInv(ws, acts, foreign, j); }
    UserHasObject(ws[j], foreign, c);
    assert Inv(ws[k], foreign) by { RunInv(ws, acts, foreign, k); }
    OpenFindsBirth(ws[k], foreign, c);
  }

  /** Nothing but foreign objects and the objects of slots in use exists: every other object is the
      one created for the current name of a slot, in its namespace.  The foreign objects are the
      ones there were at the start. */
  lemma NamespaceAccounted(w: World, foreign: Namespace, k: OsKey)
    requires Reachable(w, foreign)
    ensures |w.births| == |w.table.slots|
    ensures k in foreign ==> k in w.os && w.os[k] == foreign[k]
    ensures k in w.os && k !in foreign ==>
              exists i: nat :: Owns(w, i, k) && w.births[i].value.obj == w.os[k]
                               && OsName(w.table.slots[i].name) == Some(k.name)
  {
    ReachableInv(w, foreign);
    if k in w.os && k !in foreign {
      var i :| Owns(w, i, k);
      assert BirthOk(w, foreign, i);
    }
  }

  /** A handle can always be dropped, and the drop goes to the slot it was counted on.  The last
      one frees the slot and unlinks its object; any other leaves the namespace alone.  No object
      of another slot in use is touched. */
  lemma DropUnlinksLast(w: World, foreign: Namespace, c: nat)
    requires Reachable(w, foreign) && InPhase(w, c, Holding)
    ensures Enabled(w, DropHandle(c))
    ensures var i, w' := w.calls[c].slot, Apply(w, DropHandle(c));
            && i < |w.table.slots| == |w'.table.slots| && w.births[i].Some?
            && DropTarget(w, w.calls[c]) == i
            && (w.table.slots[i].count == 1 ==>
                  !InUse(w'.table.slots[i]) && w'.os == w.os - {w.births[i].value.key})
            && (w.table.slots[i].count > 1 ==> InUse(w'.table.slots[i]) && w'.os == w.os)
            && forall j :: 0 <= j < |w.births| && j != i && InUse(w.table.slots[j]) && w.births[j].Some?
                 ==> w.births[j].value.key in w'.os
                     && w'.os[w.births[j].value.key] == w.births[j].value.obj
  {
    ReachableInv(w, foreign);
    HandleKnowsSlot(w, foreign, c);
    var i := w.calls[c].slot;
    assert CallOk(w, w.calls[c]);
    assert BirthOk(w, foreign, i);
    forall j | 0 <= j < |w.births| && j != i && InUse(w.table.slots[j]) && w.births[j].Some?
      ensures w.births[j].value.key in w.os - {w.births[i].value.key}
              && w.os[w.births[j].value.key] == w.births[j].value.obj
    {
      assert BirthOk(w, foreign, j);
    }
  }

  /** Once every call has ended and every handle is dropped, the registry is empty again and the
      namespace is exactly what it was before the run. */
  lemma EverythingGivenBack(w: World, foreign: Namespace)
    requires Reachable(w, foreign) && w.calls == map[]
    ensures GivenBack(w, foreign)
  {
    ReachableInv(w, foreign);
    NoCallsLeft(w, foreign);
  }

  ghost predicate GivenBack(w: World, foreign: Namespace)
  {
    && w.calls == map[] && w.os == foreign && w.table.maxIndex == 0
    && forall i :: 0 <= i < |w.table.slots| ==> !InUse(w.table.slots[i])
  }

  lemma NoCallsLeft(w: World, foreign: Namespace)
    requires Inv(w, foreign) && w.calls == map[]
    ensures GivenBack(w, foreign)
  {
    forall i | 0 <= i < |w.table.slots| ensures !InUse(w.table.slots[i]) {
      assert Members(w.calls, i, true) == {} && Members(w.calls, i, false) == {};
      assert |Members(w.calls, i, false)| == Expected(w.table.slots[i], false);
      assert |Members(w.calls, i, true)| == Expected(w.table.slots[i], true);
    }
    assert w.os.Keys == foreign.Keys;
  }

  /** Clearing the names one after the other, each time as the library asks for it. */
  ghost predicate ClearsTo(w: World, names: seq<string>, w': World)
    decreases |names|
  {
    if names == [] then w' == w
    else Allowed(w, ForceClear(names[0])) && ClearsTo(DoClear(w, names[0]), names[1..], w')
  }

  ghost predicate CanBeGivenBack(w: World, foreign: Namespace)
  {
    exists names, w' :: ClearsTo(w, names, w') && GivenBack(w', foreign)
  }

  lemma ClearFirst(w: World, name: string, foreign: Namespace)
    requires Allowed(w, ForceClear(name)) && CanBeGivenBack(DoClear(w, name), foreign)
    ensures CanBeGivenBack(w, foreign)
  {
    var names, w' :| ClearsTo(DoClear(w, name), names, w') && GivenBack(w', foreign);
    assert ([name] + names)[1..] == names;
    assert ClearsTo(w, [name] + names, w');
  }

  /** Every process has died, but none between creating an object and writing its type. */
  ghost predicate AllDead(w: World)
  {
    forall c :: c in w.calls ==> !w.calls[c].alive && !w.calls[c].phase.Created?
  }

  /** What force-clear is for: when every process has died, wherever it was except between creating
      an object and writing its type, clearing names gives everything back. */
  lemma {:induction false} ClearingGivesBack(w: World, foreign: Namespace)
    requires Inv(w, foreign) && AllDead(w)
    ensures CanBeGivenBack(w, foreign)
    decreases |w.calls|
  {
    if w.calls == map[] {
      NoCallsLeft(w, foreign);
      assert ClearsTo(w, [], w);
    } else {
      var c :| c in w.calls;
      var name := ClearOne(w, foreign, c);
      ClearingGivesBack(DoClear(w, name), foreign);
      ClearFirst(w, name, foreign);
    }
  }

  /** No allowed clear removes a call that has just created its object. */
  lemma {:induction false} CreatedStays(w: World, names: seq<string>, w': World, c: nat)
    requires ClearsTo(w, names, w') && c in w.calls && w.calls[c].phase.Created?
    ensures c in w'.calls
    decreases |names|
  {
    if names != [] {
      CreatedStays(DoClear(w, names[0]), names[1..], w', c);
    }
  }

  /** With all processes dead, clearing can give everything back if and only if none of them died
      between creating an object and writing its type. */
  lemma GivenBackIff(w: World, foreign: Namespace)
    requires Inv(w, foreign) && forall c :: c in w.calls ==> !w.calls[c].alive
    ensures CanBeGivenBack(w, foreign) <==> forall c :: c in w.calls ==> !w.calls[c].phase.Created?
  {
    if c :| c in w.calls && w.calls[c].phase.Created? {
      forall names, w' | ClearsTo(w, names, w') ensures !GivenBack(w', foreign) {
        CreatedStays(w, names, w', c);
      }
    } else {
      ClearingGivesBack(w, foreign);
    }
  }

  /** Clearing the name of a dead call's slot removes the call. */
  lemma ClearOne(w: World, foreign: Namespace, c: nat) returns (name: string)
    requires Inv(w, foreign) && AllDead(w) && c in w.calls
    ensures Allowed(w, ForceClear(name))
    ensures Inv(DoClear(w, name), foreign) && AllDead(DoClear(w, name))
    ensures |DoClear(w, name).calls| < |w.calls|
  {
    assert CallOk(w, w.calls[c]);
    name := w.calls[c].name;
    assert SlotOk(w.table.slots[w.calls[c].slot]);
    LookupFinds(w.table, w.calls[c].slot);
    ClearInv(w, foreign, name);
    FewerKeys(DoClear(w, name).calls, w.calls, c);
  }

  lemma FewerKeys(a: map<nat, Call>, b: map<nat, Call>, c: nat)
    requires a.Keys <= b.Keys && c in b && c !in a
    ensures |a| < |b|
  {
    assert a.Keys <= b.Keys - {c};
    SubsetSize(a.Keys, b.Keys - {c});
    assert |a| == |a.Keys| && |b| == |b.Keys|;
  }

  /** The cached bound is exact and the names are unique in every reachable state. */
  lemma TableStaysSound(w: World, foreign: Namespace)
    requires Reachable(w, foreign)
    ensures Sound(w.table)
  {
    ReachableInv(w, foreign);
  }

  /** Slots only ever hold keys. */
  lemma {:induction false} StoredNamesAreKeys(ws: seq<World>, acts: seq<Action>, foreign: Namespace, k: nat)
    requires IsRun(ws, acts, foreign) && k < |ws|
    ensures KeyedNames(ws[k].table.slots)
  {
    if k == 0 {
      KeyUnique("", "");
    } else {
      StoredNamesAreKeys(ws, acts, foreign, k - 1);
      assert StepTo(ws[k - 1], acts[k - 1], ws[k - 1 + 1]);
      KeyedStep(ws[k - 1], acts[k - 1]);
    }
  }

  lemma KeyedStep(w: World, a: Action)
    requires Enabled(w, a) && KeyedNames(w.table.slots)
    ensures KeyedNames(Apply(w, a).table.slots)
  {
    var slots' := Apply(w, a).table.slots;
    if a.NewReserve? {
      KeyOfKey(a.name);
      assert forall j :: 0 <= j < |slots'| ==>
        slots'[j] == w.table.slots[j] || slots'[j].name == Key(a.name);
    } else {
      NamesUnchanged(w, a);
    }
  }

  /** Only a reservation changes names. */
  lemma NamesUnchanged(w: World, a: Action)
    requires Enabled(w, a) && !a.NewReserve?
    ensures var slots, slots' := w.table.slots, Apply(w, a).table.slots;
            |slots'| == |slots| && forall j :: 0 <= j < |slots| ==> slots'[j].name == slots[j].name
  {
    if a.ForceClear? && Lookup(w.table, Key(a.name)).Some? {
      ClearedSlots(w.table, Lookup(w.table, Key(a.name)).value);
    }
  }

  ghost predicate CanonicalNames(slots: seq<Slot>)
  {
    forall i :: 0 <= i < |slots| && InUse(slots[i]) ==> Canonical(slots[i].name)
  }

  /** With canonical names the back-end never refuses a creation because the name exists,
      unless a foreign object has it. */
  lemma CanonicalNamesNeverClash(w: World, foreign: Namespace, c: nat)
    requires Reachable(w, foreign) && InPhase(w, c, Reserving) && CanonicalNames(w.table.slots)
    ensures CallKey(w.calls[c]).Some?
    ensures CallKey(w.calls[c]).value !in foreign ==>
              Enabled(w, NewCreate(c, true))
              && Apply(w, NewCreate(c, true)).calls[c].phase == Created
  {
    ReachableInv(w, foreign);
    assert CallOk(w, w.calls[c]);
    CanonicalOsNames(w.table.slots);
    KeyIsFree(w, foreign, c);
  }

  /** Slots in use have convertible names that stay different when converted. */
  ghost predicate OsDistinct(slots: seq<Slot>)
  {
    && (forall i :: 0 <= i < |slots| && InUse(slots[i]) ==> OsName(slots[i].name).Some?)
    && (forall i, j :: 0 <= i < j < |slots| && InUse(slots[i]) && InUse(slots[j])
                       ==> OsName(slots[i].name) != OsName(slots[j].name))
  }

  lemma CanonicalOsNames(slots: seq<Slot>)
    requires Unique(slots) && CanonicalNames(slots) && SlotsOk(slots)
    ensures OsDistinct(slots)
  {
    forall i, j | 0 <= i <= j < |slots| && InUse(slots[i]) && InUse(slots[j])
      ensures OsName(slots[i].name).Some?
      ensures i < j ==> OsName(slots[i].name) != OsName(slots[j].name)
    {
      assert SlotOk(slots[i]) && SlotOk(slots[j]);
      StoredNamesInjective(slots[i].name, slots[j].name);
    }
  }

  lemma KeyIsFree(w: World, foreign: Namespace, c: nat)
    requires Inv(w, foreign) && InPhase(w, c, Reserving) && OsDistinct(w.table.slots)
    ensures CallOk(w, w.calls[c]) && CallKey(w.calls[c]).Some?
    ensures CallKey(w.calls[c]).value !in foreign ==> CallKey(w.calls[c]).value !in w.os
  {
    var x := w.calls[c];
    assert CallOk(w, x);
    var k := CallKey(x).value;
    if k in w.os && k !in foreign {
      var i :| Owns(w, i, k);
      OwnerIsAnother(w, foreign, c, i);
    }
  }

  /** If the object a creator is about to make exists, it belongs to another slot whose name is
      converted to the same. */
  lemma OwnerIsAnother(w: World, foreign: Namespace, c: nat, i: nat)
    requires Inv(w, foreign) && InPhase(w, c, Reserving) && CallKey(w.calls[c]).Some?
    requires Owns(w, i, CallKey(w.calls[c]).value)
    ensures i != w.calls[c].slot && OsName(w.table.slots[i].name) == OsName(w.calls[c].name)
  {
    assert CallOk(w, w.calls[c]);
    assert BirthOk(w, foreign, i);
  }

  // ---------------------------------------------------------------------------------------
  // The obligations of an attach and of a force-clear are exactly what the invariant needs

  lemma AttachAllowedIff(w: World, foreign: Namespace, c: nat, name: string, kind: ObjType)
    requires Inv(w, foreign) && c !in w.calls && !kind.Untyped?
    requires Lookup(w.table, Key(name)).Some?
    requires w.table.slots[Lookup(w.table, Key(name)).value].count + 1 < UINT_RANGE
    ensures Inv(DoAttach(w, c, name, kind), foreign) <==> AttachAllowed(w, name, kind)
  {
    if AttachAllowed(w, name, kind) {
      AttachInv(w, foreign, c, name, kind);
    } else {
      var i, w' := Lookup(w.table, Key(name)).value, DoAttach(w, c, name, kind);
      var s := w.table.slots[i];
      if s.reserved {
        MembersOfUpdate(w.calls, c, w'.calls[c], i, true);
        assert |Members(w.calls, i, true)| == Expected(s, true) == 1;
        assert Expected(w'.table.slots[i], true) == 0;
        assert !CountsOk(w');
      } else {
        assert BirthOk(w, foreign, i);
        assert !CallOk(w', w'.calls[c]);
      }
    }
  }

  /** An object of the library that no slot in use owns. */
  ghost predicate Leaked(w: World, foreign: Namespace, key: OsKey)
  {
    && key in w.os && key !in foreign
    && |w.births| == |w.table.slots| && !exists i :: Owns(w, i, key)
  }

  /** Freeing slot `i` without unlinking leaves its object to nobody. */
  lemma NobodyElseOwns(w: World, w': World, foreign: Namespace, i: nat)
    requires |w.births| == |w.table.slots| && OsOk(w, foreign) && i < |w.births|
    requires InUse(w.table.slots[i]) && w.births[i].Some?
    requires w'.os == w.os && w'.births == w.births
    requires w'.table.slots == w.table.slots[i := Freed(w.table.slots[i])]
    ensures Leaked(w', foreign, w.births[i].value.key)
  {
    assert BirthOk(w, foreign, i);
    forall j | 0 <= j < |w'.births| && j != i ensures !Owns(w', j, w.births[i].value.key) {
      assert w'.table.slots[j] == w.table.slots[j];
    }
  }

  /** Clearing under a creator that died before it wrote the slot's type: the object is not
      unlinked, and belongs to nobody any more. */
  lemma ClearLeavesObject(w: World, foreign: Namespace, name: string, c: nat)
    requires Inv(w, foreign) && c in w.calls && w.calls[c].phase.Created?
    requires Lookup(w.table, Key(name)) == Some(w.calls[c].slot)
    ensures CallKey(w.calls[c]).Some? && Leaked(DoClear(w, name), foreign, CallKey(w.calls[c]).value)
  {
    var i := w.calls[c].slot;
    assert CallOk(w, w.calls[c]);
    ForceUnlinkExact(w, foreign, i);
    ClearedSlots(w.table, i);
    NobodyElseOwns(w, DoClear(w, name), foreign, i);
  }

  lemma ClearAllowedIff(w: World, foreign: Namespace, name: string)
    requires Inv(w, foreign)
    ensures Inv(DoClear(w, name), foreign) <==> ClearAllowed(w, name)
  {
    if ClearAllowed(w, name) {
      ClearInv(w, foreign, name);
    } else {
      var i, w' := Lookup(w.table, Key(name)).value, DoClear(w, name);
      var c :| c in w.calls && w.calls[c].slot == i
               && (w.calls[c].alive || w.calls[c].phase.Created?);
      if w.calls[c].alive {
        ClearedSlots(w.table, i);
        assert !CallOk(w', w'.calls[c]);
      } else {
        ClearLeavesObject(w, foreign, name, c);
      }
    }
  }
}
