/** What a crash inside a locked operation does to the operating-system objects, which `urt_recover`
    does not look at (src/registry.c, src/setup_common.c, sys/posix/src/mem.c, sys/posix/src/setup.c). */
module RecoveredNamespace {
  import opened Common
  import opened Names
  import opened RegistryTable
  import opened Backend
  import opened Protocol
  import opened ProtocolProofs
  import opened ProtocolTheorems
  import opened Recovery

  // ---------------------------------------------------------------------------------------
  // What a crash leaves of table and namespace together

  /** The last user's drop unlinks between clearing the flag and lowering the bound. */
  predicate DropLeavesBoth(t: Table, i: nat, os: Namespace, space: Space, t': Table, os': Namespace)
    requires i < |t.slots|
  {
    var s := t.slots[i];
    || (os' == os && (|| t' == t || t' == WithSlot(t, i, s.(count := CountDown(s.count)))
                      || t' == WithSlot(t, i, Dropped(s))))
    || (os' == Released(os, space, Dropped(s))
        && (t' == WithSlot(t, i, Dropped(s)) || t' == Drop(t, i)))
  }

  /** A force-clear unlinks before its first decrement. */
  predicate ClearLeavesBoth(t: Table, i: nat, os: Namespace, t': Table, os': Namespace)
    requires i < |t.slots|
  {
    || (t' == t && os' == os)
    || (os' == ForceUnlinked(os, t.slots[i]) && ClearLeaves(t, i, t'))
  }

  function Afterwards(w: World, t': Table, os': Namespace): World
    requires |t'.slots| > 0
  {
    w.(table := Recovered(t'), os := os')
  }

  /** Every object is foreign or belongs to a slot in use, and every slot in use whose object was
      created has it. */
  ghost predicate Accounted(w: World, foreign: Namespace)
  {
    |w.births| == |w.table.slots| && OsOk(w, foreign)
  }

  // ---------------------------------------------------------------------------------------

  /** In slot `i` nothing but the count and the flag have changed, and neither has grown. */
  predicate GivenUp(s: Slot, s': Slot)
  {
    && s' == s.(count := s'.count, reserved := s'.reserved)
    && s'.count <= s.count && (s'.reserved ==> s.reserved)
  }

  lemma {:induction false} ClearGivesUp(t: Table, i: nat, t': Table)
    requires i < |t.slots| && ClearLeaves(t, i, t')
    ensures |t'.slots| == |t.slots| && GivenUp(t.slots[i], t'.slots[i])
    ensures forall j :: 0 <= j < |t.slots| && j != i ==> t'.slots[j] == t.slots[j]
    decreases t.slots[i].count
  {
    if !DropLeaves(t, i, t') {
      ClearGivesUp(Drop(t, i), i, t');
    }
  }

  /** A slot whose object was never created can be given up without consequence. */
  lemma AccountedWithout(w: World, w': World, foreign: Namespace, i: nat)
    requires Accounted(w, foreign) && i < |w.births| && w.births[i].None?
    requires w'.births == w.births && w'.nextObj == w.nextObj && w'.os == w.os
    requires |w'.table.slots| == |w.table.slots| && GivenUp(w.table.slots[i], w'.table.slots[i])
    requires forall j :: 0 <= j < |w.births| && j != i ==> w'.table.slots[j] == w.table.slots[j]
    ensures Accounted(w', foreign)
  {
    assert BirthOk(w, foreign, i);
    if InUse(w'.table.slots[i]) {
      OsFrame(w, w', foreign);
    } else {
      FreeOs(w, w', foreign, i);
    }
  }

  /** Otherwise slot and object have to go together. */
  lemma AccountedIff(w: World, w': World, foreign: Namespace, i: nat)
    requires Accounted(w, foreign) && i < |w.births| && InUse(w.table.slots[i]) && w.births[i].Some?
    requires w'.births == w.births && w'.nextObj == w.nextObj
    requires w'.os == w.os || w'.os == w.os - {w.births[i].value.key}
    requires |w'.table.slots| == |w.table.slots| && GivenUp(w.table.slots[i], w'.table.slots[i])
    requires forall j :: 0 <= j < |w.births| && j != i ==> w'.table.slots[j] == w.table.slots[j]
    ensures Accounted(w', foreign) <==> (InUse(w'.table.slots[i]) <==> w.births[i].value.key in w'.os)
    ensures !InUse(w'.table.slots[i]) && w.births[i].value.key in w'.os ==>
              Leaked(w', foreign, w.births[i].value.key)
  {
    var key := w.births[i].value.key;
    assert BirthOk(w, foreign, i);
    if InUse(w'.table.slots[i]) && key in w'.os {
      OsFrame(w, w', foreign);
    } else if InUse(w'.table.slots[i]) {
      assert !BirthOk(w', foreign, i);
    } else if key in w'.os {
      NobodyLeft(w, w', foreign, i);
    } else {
      ReleaseOs(w, w', foreign, i);
    }
  }

  lemma NobodyLeft(w: World, w': World, foreign: Namespace, i: nat)
    requires Accounted(w, foreign) && i < |w.births| && InUse(w.table.slots[i]) && w.births[i].Some?
    requires w'.births == w.births && w'.os == w.os && |w'.table.slots| == |w.table.slots|
    requires !InUse(w'.table.slots[i])
    requires forall j :: 0 <= j < |w.births| && j != i ==> w'.table.slots[j] == w.table.slots[j]
    ensures Leaked(w', foreign, w.births[i].value.key) && !OsOk(w', foreign)
  {
    var key := w.births[i].value.key;
    assert BirthOk(w, foreign, i);
    forall j: nat | j < |w.births| && j != i ensures !Owns(w', j, key) {
      assert w'.table.slots[j] == w.table.slots[j];
    }
    assert !Owns(w', i, key);
  }

  // ---------------------------------------------------------------------------------------
  // Operation by operation

  /** A crash in the drop of handle `c`: everything is accounted for after recovery if and only if it
      is not the last user's drop, between the decrement and the unlink.  Then the object is leaked. */
  lemma DropCrashAccountedIff(w: World, foreign: Namespace, c: nat, t': Table, os': Namespace)
    requires Inv(w, foreign) && InPhase(w, c, Holding) && w.calls[c].slot < |w.table.slots|
    requires DropLeavesBoth(w.table, w.calls[c].slot, w.os, SpaceOf(w.calls[c].kind), t', os')
    ensures |t'.slots| == |w.table.slots| == |w.births| && w.births[w.calls[c].slot].Some?
    ensures var i := w.calls[c].slot;
            var torn := w.table.slots[i].count == 1 && t' != w.table && os' == w.os;
            && (Accounted(Afterwards(w, t', os'), foreign) <==> !torn)
            && (torn ==> Leaked(Afterwards(w, t', os'), foreign, w.births[i].value.key))
  {
    var i, x := w.calls[c].slot, w.calls[c];
    HandleKnowsSlot(w, foreign, c);
    assert CallOk(w, x) && BirthOk(w, foreign, i);
    DropBoth(w, i, SpaceOf(x.kind), t', os');
    AccountedIff(w, Afterwards(w, t', os'), foreign, i);
  }

  lemma DropBoth(w: World, i: nat, space: Space, t': Table, os': Namespace)
    requires |w.births| == |w.table.slots| && i < |w.births| && w.births[i].Some?
    requires w.table.slots[i].count > 0 && !w.table.slots[i].reserved
    requires OsName(w.table.slots[i].name) == Some(w.births[i].value.key.name)
    requires w.births[i].value.key.space == space && w.births[i].value.key in w.os
    requires DropLeavesBoth(w.table, i, w.os, space, t', os')
    ensures DropLeaves(w.table, i, t')
    ensures |t'.slots| == |w.table.slots| && GivenUp(w.table.slots[i], t'.slots[i])
    ensures forall j :: 0 <= j < |w.births| && j != i ==> t'.slots[j] == w.table.slots[j]
    ensures os' == w.os || os' == w.os - {w.births[i].value.key}
    ensures InUse(t'.slots[i]) <==> t' == w.table || w.table.slots[i].count > 1
    ensures w.births[i].value.key in os' <==> os' == w.os
    ensures w.table.slots[i].count > 1 || t' == w.table ==> os' == w.os
  {
    assert Dropped(w.table.slots[i]).count == w.table.slots[i].count - 1;
    assert w.births[i].value.key == OsKey(space, w.births[i].value.key.name);
  }

  /** A crash in a force-clear, whoever uses the slot: everything is accounted for after recovery if
      and only if the slot had no object, or is in use exactly if the object still exists. */
  lemma ClearCrashAccountedIff(w: World, foreign: Namespace, i: nat, t': Table, os': Namespace)
    requires Inv(w, foreign) && i < |w.table.slots| && InUse(w.table.slots[i])
    requires ClearLeavesBoth(w.table, i, w.os, t', os')
    ensures |t'.slots| == |w.table.slots| == |w.births|
    ensures Accounted(Afterwards(w, t', os'), foreign) <==>
              w.births[i].None? || (InUse(t'.slots[i]) <==> w.births[i].value.key in os')
  {
    ForceUnlinkExact(w, foreign, i);
    var w' := Afterwards(w, if |t'.slots| > 0 then t' else w.table, os');
    if t' == w.table && os' == w.os {
      assert BirthOk(w, foreign, i);
      OsFrame(w, w', foreign);
    } else {
      ClearGivesUp(w.table, i, t');
      if w.births[i].None? {
        AccountedWithout(w, w', foreign, i);
      } else {
        AccountedIff(w, w', foreign, i);
      }
    }
  }

  /** The two ways it can go wrong exist: the object is unlinked but the slot not yet free; or the
      slot is free, but the object of a creator that had not written the type was not unlinked. */
  lemma ClearCrashBreaks(w: World, foreign: Namespace, i: nat)
    requires Inv(w, foreign) && i < |w.table.slots| && InUse(w.table.slots[i]) && w.births[i].Some?
    ensures var s, os' := w.table.slots[i], ForceUnlinked(w.os, w.table.slots[i]);
            var t' := if s.kind.Untyped? then Cleared(w.table, i) else w.table;
            && ClearLeavesBoth(w.table, i, w.os, t', os') && |t'.slots| > 0
            && !Accounted(Afterwards(w, t', os'), foreign)
  {
    var s, os' := w.table.slots[i], ForceUnlinked(w.os, w.table.slots[i]);
    var t' := if s.kind.Untyped? then Cleared(w.table, i) else w.table;
    assert BirthOk(w, foreign, i);
    ForceUnlinkExact(w, foreign, i);
    ClearEnds(w.table, i);
    ClearedSlots(w.table, i);
    ClearCrashAccountedIff(w, foreign, i, t', os');
  }

  /** A crash in a reservation, whose slot has no object yet, loses none. */
  lemma ReserveCrashAccounted(w: World, foreign: Namespace, name: string, t': Table)
    requires Inv(w, foreign) && Reserve(w.table, name).Reserved?
    requires MayLeave(w.table, ReserveOp(name), t')
    ensures |t'.slots| == |w.table.slots| == |w.births|
    ensures Accounted(Afterwards(w.(births := w.births[Reserve(w.table, name).index := None]), t', w.os),
                      foreign)
  {
    var i := Reserve(w.table, name).index;
    assert Starts(w.table, ReserveOp(name)) by {
      forall j | 0 <= j < |w.table.slots| ensures Key(w.table.slots[j].name) == w.table.slots[j].name {
        assert SlotOk(w.table.slots[j]);
      }
    }
    ReserveTorn(w.table, name, t');
    var w' := Afterwards(w.(births := w.births[i := None]), t', w.os);
    ReserveOs(w, w', foreign, i);
  }

  /** Nor does a crash in counting a user. */
  lemma CountCrashAccounted(w: World, foreign: Namespace, i: nat, t': Table)
    requires Inv(w, foreign) && i < |w.table.slots| && InUse(w.table.slots[i])
    requires !w.table.slots[i].kind.Untyped? && w.table.slots[i].count + 1 < UINT_RANGE
    requires MayLeave(w.table, CountOp(i), t')
    ensures |t'.slots| == |w.table.slots| == |w.births|
    ensures Accounted(Afterwards(w, t', w.os), foreign)
  {
    TypedBirth(w, foreign, i);
    CountOsTorn(w, foreign, i, t');
  }

  lemma CountOsTorn(w: World, foreign: Namespace, i: nat, t': Table)
    requires Accounted(w, foreign) && Shaped(w.table) && i < |w.births| && InUse(w.table.slots[i])
    requires w.table.slots[i].count + 1 < UINT_RANGE && MayLeave(w.table, CountOp(i), t')
    requires w.births[i].Some? && w.births[i].value.key.space == SpaceOf(w.table.slots[i].kind)
    ensures |t'.slots| == |w.table.slots| && Accounted(Afterwards(w, t', w.os), foreign)
  {
    OsFrame(w, Afterwards(w, t', w.os), foreign);
  }

  lemma TypedBirth(w: World, foreign: Namespace, i: nat)
    requires Inv(w, foreign) && i < |w.table.slots| && InUse(w.table.slots[i])
    requires !w.table.slots[i].kind.Untyped?
    ensures w.births[i].Some? && w.births[i].value.key.space == SpaceOf(w.table.slots[i].kind)
  {
    assert BirthOk(w, foreign, i) && SlotOk(w.table.slots[i]);
    if w.table.slots[i].reserved {
      var c := CreatorOf(w, foreign, i);
      assert CallOk(w, w.calls[c]);
    }
  }

  /** A leaked object's name is refused to every new creation. */
  lemma LeakedNameRefused(w: World, foreign: Namespace, key: OsKey, c: nat, willing: bool)
    requires Leaked(w, foreign, key) && c in w.calls && w.calls[c].slot < |w.births|
    requires CallKey(w.calls[c]) == Some(key)
    ensures DoCreate(w, c, willing).calls[c].phase == CreateFailed && DoCreate(w, c, willing).os == w.os
  {}
}
