/** The invariant of `Protocol` is kept by every allowed step. */
module ProtocolProofs {
  import opened Common
  import opened Names
  import opened RegistryTable
  import opened Backend
  import opened Protocol

  // ---------------------------------------------------------------------------------------
  // Counting calls

  predicate IsMember(x: Call, i: nat, b: bool) { x.slot == i && Creating(x.phase) == b }

  function One(b: bool): nat { if b then 1 else 0 }

  lemma WithoutSize(s: set<nat>, c: nat)
    ensures |s - {c}| + One(c in s) == |s|
  {}

  lemma MembersOfUpdate(calls: map<nat, Call>, c: nat, x: Call, i: nat, b: bool)
    ensures |Members(calls[c := x], i, b)| + One(c in calls && IsMember(calls[c], i, b))
            == |Members(calls, i, b)| + One(IsMember(x, i, b))
  {
    var before, after := Members(calls, i, b), Members(calls[c := x], i, b);
    assert after - {c} == before - {c};
    WithoutSize(before, c);
    WithoutSize(after, c);
  }

  lemma MembersOfRemove(calls: map<nat, Call>, c: nat, i: nat, b: bool)
    requires c in calls
    ensures |Members(calls - {c}, i, b)| + One(IsMember(calls[c], i, b)) == |Members(calls, i, b)|
  {
    assert Members(calls - {c}, i, b) == Members(calls, i, b) - {c};
    WithoutSize(Members(calls, i, b), c);
  }

  /** A step that changes one call and one slot keeps the counts if it keeps that slot's. */
  lemma CountsUpdate(w: World, w': World, c: nat, x: Call, i: nat)
    requires CountsOk(w) && i < |w.table.slots| == |w'.table.slots|
    requires w'.calls == w.calls[c := x] && x.slot == i
    requires c in w.calls ==> w.calls[c].slot == i
    requires forall j :: 0 <= j < |w.table.slots| && j != i ==>
               w'.table.slots[j].count == w.table.slots[j].count
               && w'.table.slots[j].reserved == w.table.slots[j].reserved
    requires forall b :: Expected(w'.table.slots[i], b)
                         + One(c in w.calls && Creating(w.calls[c].phase) == b)
                         == Expected(w.table.slots[i], b) + One(Creating(x.phase) == b)
    ensures CountsOk(w')
  {
    forall j, b | 0 <= j < |w'.table.slots|
      ensures |Members(w'.calls, j, b)| == Expected(w'.table.slots[j], b)
    {
      MembersOfUpdate(w.calls, c, x, j, b);
      assert |Members(w.calls, j, b)| == Expected(w.table.slots[j], b);
    }
  }

  lemma CountsRemove(w: World, w': World, c: nat)
    requires CountsOk(w) && c in w.calls
    requires w.calls[c].slot < |w.table.slots| == |w'.table.slots|
    requires w'.calls == w.calls - {c}
    requires forall j :: 0 <= j < |w.table.slots| && j != w.calls[c].slot ==>
               w'.table.slots[j] == w.table.slots[j]
    requires forall b :: Expected(w'.table.slots[w.calls[c].slot], b)
                         + One(Creating(w.calls[c].phase) == b)
                         == Expected(w.table.slots[w.calls[c].slot], b)
    ensures CountsOk(w')
  {
    forall j, b | 0 <= j < |w'.table.slots|
      ensures |Members(w'.calls, j, b)| == Expected(w'.table.slots[j], b)
    {
      MembersOfRemove(w.calls, c, j, b);
      assert |Members(w.calls, j, b)| == Expected(w.table.slots[j], b);
    }
  }

  /** The creator of a reserved slot is the only call on it. */
  lemma CreatorIsAlone(w: World, foreign: Namespace, c: nat, d: nat)
    requires Inv(w, foreign) && c in w.calls && d in w.calls
    requires Creating(w.calls[c].phase) && w.calls[c].slot == w.calls[d].slot
    ensures c == d
  {
    var i := w.calls[c].slot;
    assert CallOk(w, w.calls[c]) && CallOk(w, w.calls[d]);
    var m := Members(w.calls, i, true);
    assert |m| == Expected(w.table.slots[i], true) == 1;
    WithoutSize(m, c);
    assert m - {c} == {};
    assert d in m;
  }

  // ---------------------------------------------------------------------------------------
  // Every step keeps the invariant

  lemma InitialInv(w: World, foreign: Namespace)
    requires Initial(w, foreign)
    ensures Inv(w, foreign)
  {
    KeyUnique("", "");
    forall i, b | 0 <= i < |w.table.slots|
      ensures |Members(w.calls, i, b)| == Expected(w.table.slots[i], b)
    {
      assert Members(w.calls, i, b) == {};
    }
  }

  lemma ReserveInv(w: World, foreign: Namespace, c: nat, name: string, kind: ObjType)
    requires Inv(w, foreign) && c !in w.calls && !kind.Untyped?
    ensures Inv(DoReserve(w, c, name, kind), foreign)
  {
    var r := Reserve(w.table, name);
    if r.Reserved? {
      var i, w' := r.index, DoReserve(w, c, name, kind);
      ReserveSound(w.table, name);
      KeyOfKey(name);
      CountsUpdate(w, w', c, w'.calls[c], i);
      ReserveCalls(w, w', foreign, c, i);
      ReserveOs(w, w', foreign, i);
    }
  }

  lemma ReserveCalls(w: World, w': World, foreign: Namespace, c: nat, i: nat)
    requires CallsOk(w) && i < |w.table.slots| == |w.births| && !InUse(w.table.slots[i])
    requires c in w'.calls && w'.calls == w.calls[c := w'.calls[c]]
    requires w'.calls[c].slot == i && w'.calls[c].phase.Reserving? && !w'.calls[c].kind.Untyped?
    requires w'.table.slots == w.table.slots[i := ReservedSlot(w'.calls[c].name)]
    requires w'.births == w.births[i := None] && w'.ids == w.ids
    ensures CallsOk(w')
  {
    forall d | d in w'.calls && d != c ensures CallOk(w', w'.calls[d]) {
      assert CallOk(w, w.calls[d]);
      CallFrame(w, w', w.calls[d]);
    }
  }

  lemma ReserveOs(w: World, w': World, foreign: Namespace, i: nat)
    requires |w.births| == |w.table.slots| && OsOk(w, foreign) && i < |w.births|
    requires !InUse(w.table.slots[i])
    requires |w'.table.slots| == |w.births| && w'.table.slots[i].count == 0
    requires w'.table.slots == w.table.slots[i := w'.table.slots[i]]
    requires w'.births == w.births[i := None] && w'.os == w.os && w'.nextObj == w.nextObj
    ensures OsOk(w', foreign)
  {
    forall j | 0 <= j < |w'.births| ensures BirthOk(w', foreign, j) {
      assert BirthOk(w, foreign, j);
    }
    forall k | k in w'.os && k !in foreign ensures exists j :: Owns(w', j, k) {
      var j :| Owns(w, j, k);
      assert Owns(w', j, k);
    }
  }

  /** The namespace is left alone and no slot changes hands. */
  lemma OsFrame(w: World, w': World, foreign: Namespace)
    requires |w.births| == |w.table.slots| == |w'.table.slots| && OsOk(w, foreign)
    requires w'.os == w.os && w'.births == w.births && w'.nextObj == w.nextObj
    requires forall j :: 0 <= j < |w.births| ==>
               InUse(w'.table.slots[j]) == InUse(w.table.slots[j])
               && w'.table.slots[j].name == w.table.slots[j].name
    requires forall j :: 0 <= j < |w.births| && w'.table.slots[j].count > 0 ==>
               || (w.table.slots[j].count > 0 && w'.table.slots[j].kind == w.table.slots[j].kind)
               || (w.births[j].Some? && w.births[j].value.key.space == SpaceOf(w'.table.slots[j].kind))
    ensures OsOk(w', foreign)
  {
    forall j | 0 <= j < |w'.births| ensures BirthOk(w', foreign, j) {
      assert BirthOk(w, foreign, j);
    }
    forall k | k in w'.os && k !in foreign ensures exists j :: Owns(w', j, k) {
      var j :| Owns(w, j, k);
      assert Owns(w', j, k);
    }
  }

  lemma CreateOs(w: World, w': World, foreign: Namespace, i: nat, key: OsKey)
    requires |w.births| == |w.table.slots| && OsOk(w, foreign) && i < |w.births|
    requires w'.table == w.table && w.table.slots[i].reserved && w.table.slots[i].count == 0
    requires w.births[i].None? && key !in w.os && OsName(w.table.slots[i].name) == Some(key.name)
    requires w'.os == w.os[key := w.nextObj] && w'.nextObj == w.nextObj + 1
    requires w'.births == w.births[i := Some(Birth(key, w.nextObj))]
    ensures OsOk(w', foreign)
  {
    forall j | 0 <= j < |w'.births| ensures BirthOk(w', foreign, j) {
      assert BirthOk(w, foreign, j);
    }
    forall k | k in w'.os && k !in foreign ensures exists j :: Owns(w', j, k) {
      if k == key {
        assert Owns(w', i, k);
      } else {
        var j :| Owns(w, j, k);
        assert Owns(w', j, k);
      }
    }
    forall j | 0 <= j < |w.births| && InUse(w.table.slots[j]) && w.births[j].Some?
      ensures w.births[j].value.key != key && w.births[j].value.obj != w.nextObj
    {
      assert BirthOk(w, foreign, j);
    }
  }

  /** A call is not disturbed by a step that leaves its slot, its object's book-keeping and the
      history of its slot as they were. */
  lemma CallFrame(w: World, w': World, x: Call)
    requires CallOk(w, x)
    requires x.slot < |w'.table.slots| && x.slot < |w'.births|
    requires w'.births[x.slot] == w.births[x.slot]
    requires w'.table.slots[x.slot].name == x.name && InUse(w'.table.slots[x.slot])
    requires w'.table.slots[x.slot].reserved == w.table.slots[x.slot].reserved
    requires Creating(x.phase) ==>
               w'.table.slots[x.slot].kind == w.table.slots[x.slot].kind
               && w'.table.slots[x.slot].hasBookkeeping == w.table.slots[x.slot].hasBookkeeping
    requires x.obj in w.ids ==> x.obj in w'.ids
    requires x.obj in w.ids && SpaceOf(x.kind).Shm? && (x.phase.Booked? || x.phase.Holding?) ==>
               w'.ids[x.obj] == w.ids[x.obj]
    ensures CallOk(w', x)
  {}

  lemma CreateInv(w: World, foreign: Namespace, c: nat, willing: bool)
    requires Inv(w, foreign) && InPhase(w, c, Reserving) && w.calls[c].slot < |w.births|
    ensures Inv(DoCreate(w, c, willing), foreign)
  {
    var x := w.calls[c];
    assert CallOk(w, x);
    var w', i := DoCreate(w, c, willing), x.slot;
    CountsUpdate(w, w', c, w'.calls[c], i);
    CreateCalls(w, foreign, c, willing);
    if w'.births != w.births {
      CreateOs(w, w', foreign, i, CallKey(x).value);
    } else {
      OsFrame(w, w', foreign);
    }
  }

  lemma CreateCalls(w: World, foreign: Namespace, c: nat, willing: bool)
    requires Inv(w, foreign) && InPhase(w, c, Reserving) && w.calls[c].slot < |w.births|
    ensures CallsOk(DoCreate(w, c, willing))
  {
    var x, w' := w.calls[c], DoCreate(w, c, willing);
    assert CallOk(w, x);
    forall d | d in w'.calls && d != c ensures CallOk(w', w'.calls[d]) {
      assert CallOk(w, w.calls[d]);
      if w.calls[d].slot == x.slot {
        CreatorIsAlone(w, foreign, c, d);
      }
      OlderObject(w, foreign, w.calls[d]);
      CallFrame(w, w', w.calls[d]);
    }
    assert CallOk(w', w'.calls[c]);
  }

  /** The objects calls have mapped are older than the next one. */
  lemma OlderObject(w: World, foreign: Namespace, x: Call)
    requires Inv(w, foreign) && CallOk(w, x)
    ensures x.phase.Booked? || x.phase.Holding? ==> x.obj < w.nextObj
  {
    assert BirthOk(w, foreign, x.slot);
  }

  // Writing the book-keeping word, and publishing

  /** Two calls on different slots have mapped different objects. */
  lemma ObjectsApart(w: World, foreign: Namespace, x: Call, y: Call)
    requires Inv(w, foreign) && CallOk(w, x) && CallOk(w, y) && x.slot != y.slot
    requires x.phase in {Created, Booked, Opened, Holding}
    requires y.phase in {Created, Booked, Opened, Holding}
    ensures x.obj != y.obj
  {}

  lemma BookCalls(w: World, foreign: Namespace, c: nat)
    requires Inv(w, foreign) && (InPhase(w, c, Created) || InPhase(w, c, Opened))
    requires w.calls[c].slot < |w.table.slots|
    ensures CallsOk(DoBook(w, c))
  {
    var x, w' := w.calls[c], DoBook(w, c);
    assert CallOk(w, x);
    forall d | d in w'.calls && d != c ensures CallOk(w', w'.calls[d]) {
      var y := w.calls[d];
      assert CallOk(w, y);
      if y.slot == x.slot && Creating(x.phase) {
        CreatorIsAlone(w, foreign, c, d);
      } else if y.slot != x.slot && (y.phase.Booked? || y.phase.Holding?) {
        ObjectsApart(w, foreign, x, y);
      }
      CallFrame(w, w', y);
    }
    BookedOk(w, c);
  }

  lemma BookedOk(w: World, c: nat)
    requires c in w.calls && CallOk(w, w.calls[c]) && w.calls[c].phase in {Created, Opened}
    ensures CallOk(DoBook(w, c), DoBook(w, c).calls[c])
  {}

  lemma BookInv(w: World, foreign: Namespace, c: nat)
    requires Inv(w, foreign) && (InPhase(w, c, Created) || InPhase(w, c, Opened))
    requires w.calls[c].slot < |w.table.slots|
    ensures Inv(DoBook(w, c), foreign)
  {
    var x, w' := w.calls[c], DoBook(w, c);
    assert CallOk(w, x);
    CountsUpdate(w, w', c, w'.calls[c], x.slot);
    assert BirthOk(w, foreign, x.slot) && SlotOk(w.table.slots[x.slot]);
    BookTable(w, c);
    BookCalls(w, foreign, c);
    BookOs(w, foreign, c);
  }

  lemma BookTable(w: World, c: nat)
    requires Sound(w.table) && SlotsOk(w.table.slots) && c in w.calls
    requires w.calls[c].slot < |w.table.slots| && !w.calls[c].kind.Untyped?
    requires w.calls[c].phase.Created? ==> w.table.slots[w.calls[c].slot].count == 0
    requires w.table.slots[w.calls[c].slot].count > 0 ==>
               SpaceOf(w.table.slots[w.calls[c].slot].kind) == SpaceOf(w.calls[c].kind)
    ensures Sound(DoBook(w, c).table) && SlotsOk(DoBook(w, c).table.slots)
  {
    SameUse(w.table, DoBook(w, c).table);
  }

  lemma BookOs(w: World, foreign: Namespace, c: nat)
    requires |w.births| == |w.table.slots| && OsOk(w, foreign)
    requires c in w.calls && w.calls[c].slot < |w.table.slots|
    requires w.calls[c].phase.Created? ==> w.table.slots[w.calls[c].slot].count == 0
    ensures OsOk(DoBook(w, c), foreign)
  {
    OsFrame(w, DoBook(w, c), foreign);
  }

  /** A table's soundness is a matter of which slots are in use and under what names. */
  lemma SameUse(t: Table, t': Table)
    requires Sound(t) && |t'.slots| == |t.slots| && t'.maxIndex == t.maxIndex
    requires forall j :: 0 <= j < |t.slots| ==>
               InUse(t'.slots[j]) == InUse(t.slots[j]) && t'.slots[j].name == t.slots[j].name
    ensures Sound(t')
  {}

  lemma PublishCalls(w: World, foreign: Namespace, c: nat)
    requires Inv(w, foreign) && InPhase(w, c, Booked) && Enabled(w, NewPublish(c))
    ensures CallsOk(Apply(w, NewPublish(c)))
  {
    var w', i := Apply(w, NewPublish(c)), w.calls[c].slot;
    assert CallOk(w, w.calls[c]);
    forall d | d in w'.calls && d != c ensures CallOk(w', w'.calls[d]) {
      assert CallOk(w, w.calls[d]);
      if w.calls[d].slot == i {
        CreatorIsAlone(w, foreign, c, d);
      }
      CallFrame(w, w', w.calls[d]);
    }
    PublishedOk(w, c);
  }

  lemma PublishedOk(w: World, c: nat)
    requires Enabled(w, NewPublish(c)) && CallOk(w, w.calls[c])
    requires w.table.slots[w.calls[c].slot].count == 0
    ensures CallOk(Apply(w, NewPublish(c)), Apply(w, NewPublish(c)).calls[c])
  {}

  lemma PublishInv(w: World, foreign: Namespace, c: nat)
    requires Inv(w, foreign) && InPhase(w, c, Booked) && Enabled(w, NewPublish(c))
    ensures Inv(Apply(w, NewPublish(c)), foreign)
  {
    var x := w.calls[c];
    assert CallOk(w, x);
    var w', i := Apply(w, NewPublish(c)), x.slot;
    CountTable(w.table, i);
    CountCounts(w, w', c, w'.calls[c]);
    PublishCalls(w, foreign, c);
    CountOs(w, w', foreign, i);
  }

  lemma CountTable(t: Table, i: nat)
    requires Sound(t) && SlotsOk(t.slots) && i < |t.slots| && InUse(t.slots[i])
    requires t.slots[i].count + 1 < UINT_RANGE && !t.slots[i].kind.Untyped?
    requires t.slots[i].hasBookkeeping == SpaceOf(t.slots[i].kind).Shm?
    ensures Sound(Count(t, i)) && SlotsOk(Count(t, i).slots)
  {
    CountSoundIff(t, i);
  }

  lemma DropTable(t: Table, i: nat)
    requires Sound(t) && SlotsOk(t.slots) && i < |t.slots|
    ensures Sound(Drop(t, i)) && SlotsOk(Drop(t, i).slots)
    ensures forall j :: 0 <= j < |t.slots| && j != i ==> Drop(t, i).slots[j] == t.slots[j]
  {
    DropSound(t, i);
  }

  /** Counting call `c`, which is new or was the slot's creator. */
  lemma CountCounts(w: World, w': World, c: nat, x: Call)
    requires CountsOk(w) && x.slot < |w.table.slots| && w'.table == Count(w.table, x.slot)
    requires w.table.slots[x.slot].count + 1 < UINT_RANGE
    requires w'.calls == w.calls[c := x] && !Creating(x.phase)
    requires c in w.calls <==> w.table.slots[x.slot].reserved
    requires c in w.calls ==> w.calls[c].slot == x.slot && Creating(w.calls[c].phase)
    ensures CountsOk(w')
  {
    CountsUpdate(w, w', c, x, x.slot);
  }

  /** Counting a user of a slot whose object exists. */
  lemma CountOs(w: World, w': World, foreign: Namespace, i: nat)
    requires |w.births| == |w.table.slots| && OsOk(w, foreign) && i < |w.births|
    requires w'.table == Count(w.table, i) && InUse(w.table.slots[i])
    requires w.table.slots[i].count + 1 < UINT_RANGE
    requires w.births[i].Some? && w.births[i].value.key.space == SpaceOf(w.table.slots[i].kind)
    requires w'.os == w.os && w'.births == w.births && w'.nextObj == w.nextObj
    ensures OsOk(w', foreign)
  {
    OsFrame(w, w', foreign);
  }

  // Attaching

  /** Counting one more user does not disturb those already counted. */
  lemma CountCalls(w: World, w': World, i: nat)
    requires CallsOk(w) && i < |w.table.slots| && w'.table == Count(w.table, i)
    requires !w.table.slots[i].reserved && w.table.slots[i].count + 1 < UINT_RANGE
    requires w'.births == w.births && w'.ids == w.ids
    ensures forall d :: d in w.calls ==> CallOk(w', w.calls[d])
  {
    forall d | d in w.calls ensures CallOk(w', w.calls[d]) {
      assert CallOk(w, w.calls[d]);
      CallFrame(w, w', w.calls[d]);
    }
  }

  lemma NewUserOk(w: World, w': World, foreign: Namespace, i: nat, x: Call)
    requires i < |w.table.slots| == |w.births| && BirthOk(w, foreign, i)
    requires w.table.slots[i].count > 0 && w.table.slots[i].count + 1 < UINT_RANGE
    requires w'.table == Count(w.table, i) && w'.births == w.births
    requires x.phase.Counted? && x.slot == i && x.name == w.table.slots[i].name
    requires !x.kind.Untyped? && SpaceOf(x.kind) == SpaceOf(w.table.slots[i].kind)
    ensures CallOk(w', x)
  {}

  lemma AttachAtInv(w: World, w': World, foreign: Namespace, c: nat, i: nat, kind: ObjType)
    requires Inv(w, foreign) && c !in w.calls && !kind.Untyped? && i < |w.table.slots|
    requires InUse(w.table.slots[i]) && !w.table.slots[i].reserved
    requires SpaceOf(w.table.slots[i].kind) == SpaceOf(kind) && w.table.slots[i].count + 1 < UINT_RANGE
    requires w' == w.(table := Count(w.table, i),
                      calls := w.calls[c := Call(Counted, i, w.table.slots[i].name, kind, 0, 0, true)])
    ensures Inv(w', foreign)
  {
    assert BirthOk(w, foreign, i) && SlotOk(w.table.slots[i]);
    NewUserOk(w, w', foreign, i, w'.calls[c]);
    CountTable(w.table, i);
    CountCounts(w, w', c, w'.calls[c]);
    CountCalls(w, w', i);
    CountOs(w, w', foreign, i);
  }

  lemma AttachInv(w: World, foreign: Namespace, c: nat, name: string, kind: ObjType)
    requires Inv(w, foreign) && c !in w.calls && !kind.Untyped? && AttachAllowed(w, name, kind)
    ensures Inv(DoAttach(w, c, name, kind), foreign)
  {
    var found := Lookup(w.table, Key(name));
    if found.Some? {
      AttachAtInv(w, DoAttach(w, c, name, kind), foreign, c, found.value, kind);
    }
  }

  /** An attach that was counted always finds the object created for the slot's name. */
  lemma OpenFindsBirth(w: World, foreign: Namespace, c: nat)
    requires Inv(w, foreign) && InPhase(w, c, Counted)
    ensures w.calls[c].slot < |w.births| && w.births[w.calls[c].slot].Some?
    ensures var b := w.births[w.calls[c].slot].value;
            && DoOpen(w, c).calls[c].phase == Opened
            && DoOpen(w, c).calls[c].obj == b.obj
            && b.key in w.os && w.os[b.key] == b.obj
  {
    assert CallOk(w, w.calls[c]);
    assert BirthOk(w, foreign, w.calls[c].slot);
  }

  lemma OpenInv(w: World, foreign: Namespace, c: nat)
    requires Inv(w, foreign) && InPhase(w, c, Counted)
    ensures Inv(DoOpen(w, c), foreign)
  {
    var x := w.calls[c];
    assert CallOk(w, x);
    OpenFindsBirth(w, foreign, c);
    var w' := DoOpen(w, c);
    CountsUpdate(w, w', c, w'.calls[c], x.slot);
    SameCalls(w, w', c);
    OsFrame(w, w', foreign);
  }

  /** Nothing but call `c` changes. */
  lemma SameCalls(w: World, w': World, c: nat)
    requires CallsOk(w) && w' == w.(calls := w'.calls)
    requires c in w'.calls && w'.calls == w.calls[c := w'.calls[c]] && CallOk(w, w'.calls[c])
    ensures CallsOk(w')
  {
    forall d | d in w'.calls ensures CallOk(w', w'.calls[d]) {
      assert CallOk(w, w'.calls[d]);
    }
  }

  // Giving back

  lemma AbortInv(w: World, foreign: Namespace, c: nat)
    requires Inv(w, foreign) && InPhase(w, c, CreateFailed) && Enabled(w, NewAbort(c))
    ensures Inv(Apply(w, NewAbort(c)), foreign)
  {
    var x := w.calls[c];
    assert CallOk(w, x);
    var w', i := Apply(w, NewAbort(c)), x.slot;
    DropTable(w.table, i);
    CountsRemove(w, w', c);
    AbortCalls(w, foreign, c);
    FreeOs(w, w', foreign, i);
  }

  lemma AbortCalls(w: World, foreign: Namespace, c: nat)
    requires Inv(w, foreign) && InPhase(w, c, CreateFailed) && Enabled(w, NewAbort(c))
    ensures CallsOk(Apply(w, NewAbort(c)))
  {
    var w', i := Apply(w, NewAbort(c)), w.calls[c].slot;
    forall d | d in w'.calls ensures CallOk(w', w'.calls[d]) {
      assert CallOk(w, w.calls[d]);
      if w.calls[d].slot == i {
        CreatorIsAlone(w, foreign, c, d);
      }
      CallFrame(w, w', w.calls[d]);
    }
  }

  /** A slot whose object was never created is freed. */
  lemma FreeOs(w: World, w': World, foreign: Namespace, i: nat)
    requires |w.births| == |w.table.slots| == |w'.table.slots| && OsOk(w, foreign) && i < |w.births|
    requires w'.os == w.os && w'.births == w.births && w'.nextObj == w.nextObj
    requires forall j :: 0 <= j < |w.births| && j != i ==> w'.table.slots[j] == w.table.slots[j]
    requires !InUse(w'.table.slots[i]) && w.births[i].None?
    ensures OsOk(w', foreign)
  {
    forall j | 0 <= j < |w'.births| ensures BirthOk(w', foreign, j) {
      assert BirthOk(w, foreign, j);
    }
    forall k | k in w'.os && k !in foreign ensures exists j :: Owns(w', j, k) {
      var j :| Owns(w, j, k);
      assert Owns(w', j, k);
    }
  }

  /** The last user of a slot is gone and its object, nothing else, is unlinked. */
  lemma ReleaseOs(w: World, w': World, foreign: Namespace, i: nat)
    requires |w.births| == |w.table.slots| == |w'.table.slots| && OsOk(w, foreign) && i < |w.births|
    requires InUse(w.table.slots[i]) && w.births[i].Some?
    requires w'.os == w.os - {w.births[i].value.key}
    requires w'.births == w.births && w'.nextObj == w.nextObj
    requires forall j :: 0 <= j < |w.births| && j != i ==> w'.table.slots[j] == w.table.slots[j]
    requires !InUse(w'.table.slots[i])
    ensures OsOk(w', foreign)
  {
    assert BirthOk(w, foreign, i);
    forall j | 0 <= j < |w'.births| ensures BirthOk(w', foreign, j) {
      assert BirthOk(w, foreign, j);
    }
    forall k | k in w'.os && k !in foreign ensures exists j :: Owns(w', j, k) {
      var j :| Owns(w, j, k);
      assert Owns(w', j, k);
    }
  }

  /** A handle always leads back to the slot it was counted on. */
  lemma HandleKnowsSlot(w: World, foreign: Namespace, c: nat)
    requires Inv(w, foreign) && InPhase(w, c, Holding)
    ensures DropTarget(w, w.calls[c]) == w.calls[c].slot < |w.table.slots|
    ensures w.table.slots[w.calls[c].slot].count > 0
    ensures w.births[w.calls[c].slot].Some?
            && CallKey(w.calls[c]) == Some(w.births[w.calls[c].slot].value.key)
  {
    assert CallOk(w, w.calls[c]);
  }

  lemma DropCalls(w: World, w': World, foreign: Namespace, c: nat)
    requires Inv(w, foreign) && InPhase(w, c, Holding) && Enabled(w, DropHandle(c))
    requires w' == DoDrop(w, c) && CountsOk(w')
    ensures CallsOk(w')
  {
    HandleKnowsSlot(w, foreign, c);
    var i := w.calls[c].slot;
    assert CallOk(w, w.calls[c]);
    forall d | d in w'.calls ensures CallOk(w', w'.calls[d]) {
      assert CallOk(w, w.calls[d]);
      if w.calls[d].slot == i {
        assert d in Members(w'.calls, i, false);
        assert |Members(w'.calls, i, false)| == Expected(w'.table.slots[i], false);
      }
      CallFrame(w, w', w.calls[d]);
    }
  }

  lemma DropOs(w: World, foreign: Namespace, c: nat)
    requires |w.births| == |w.table.slots| && OsOk(w, foreign) && c in w.calls
    requires DropTarget(w, w.calls[c]) == w.calls[c].slot < |w.table.slots|
    requires w.table.slots[w.calls[c].slot].count > 0 && !w.table.slots[w.calls[c].slot].reserved
    requires w.births[w.calls[c].slot].Some?
             && CallKey(w.calls[c]) == Some(w.births[w.calls[c].slot].value.key)
             && OsName(w.table.slots[w.calls[c].slot].name) == OsName(w.calls[c].name)
    ensures OsOk(DoDrop(w, c), foreign)
  {
    var i, w' := w.calls[c].slot, DoDrop(w, c);
    assert forall j :: 0 <= j < |w.births| && j != i ==> w'.table.slots[j] == w.table.slots[j];
    if Dropped(w.table.slots[i]).count == 0 {
      ReleaseOs(w, w', foreign, i);
    } else {
      OsFrame(w, w', foreign);
    }
  }

  lemma DropInv(w: World, foreign: Namespace, c: nat)
    requires Inv(w, foreign) && InPhase(w, c, Holding) && Enabled(w, DropHandle(c))
    ensures Inv(DoDrop(w, c), foreign)
  {
    HandleKnowsSlot(w, foreign, c);
    var w' := DoDrop(w, c);
    DropTable(w.table, w.calls[c].slot);
    CountsRemove(w, w', c);
    DropCalls(w, w', foreign, c);
    assert CallOk(w, w.calls[c]);
    DropOs(w, foreign, c);
  }

  // Dying and clearing

  lemma DieInv(w: World, foreign: Namespace, c: nat)
    requires Inv(w, foreign) && Alive(w, c) && Enabled(w, Die(c))
    ensures Inv(Apply(w, Die(c)), foreign)
  {
    var w' := Apply(w, Die(c));
    assert CallOk(w, w.calls[c]);
    CountsUpdate(w, w', c, w'.calls[c], w.calls[c].slot);
    SameCalls(w, w', c);
    OsFrame(w, w', foreign);
  }

  /** A slot in use with a type has an object, and it is the one a force-clear unlinks; on a slot
      without a type, that is one whose creator has not got as far as writing it, a force-clear
      unlinks nothing. */
  lemma ForceUnlinkExact(w: World, foreign: Namespace, i: nat)
    requires Inv(w, foreign) && i < |w.table.slots| && InUse(w.table.slots[i])
    ensures var s, b, os' := w.table.slots[i], w.births[i], ForceUnlinked(w.os, w.table.slots[i]);
            if s.kind.Untyped? then os' == w.os
            else b.Some? && b.value.key in w.os && os' == w.os - {b.value.key}
  {
    var s := w.table.slots[i];
    assert BirthOk(w, foreign, i) && SlotOk(s);
    if s.reserved && !s.kind.Untyped? {
      var c := CreatorOf(w, foreign, i);
      assert CallOk(w, w.calls[c]);
    }
  }

  /** A reserved slot has its creator, alive or not. */
  lemma CreatorOf(w: World, foreign: Namespace, i: nat) returns (c: nat)
    requires Inv(w, foreign) && i < |w.table.slots| && w.table.slots[i].reserved
    ensures c in w.calls && w.calls[c].slot == i && Creating(w.calls[c].phase)
  {
    var m := Members(w.calls, i, true);
    assert |m| == Expected(w.table.slots[i], true) == 1;
    c :| c in m;
  }

  /** After the clear no call is left on the slot; the calls on the others are the same. */
  lemma ClearCounts(w: World, w': World, i: nat)
    requires CountsOk(w) && i < |w.table.slots|
    requires forall c :: c in w.calls && w.calls[c].slot == i ==> !w.calls[c].alive
    requires w'.calls == WithoutDead(w.calls, i)
    requires w'.table.slots == w.table.slots[i := Freed(w.table.slots[i])]
    ensures CountsOk(w')
  {
    forall j, b | 0 <= j < |w'.table.slots|
      ensures |Members(w'.calls, j, b)| == Expected(w'.table.slots[j], b)
    {
      if j == i {
        assert Members(w'.calls, j, b) == {};
      } else {
        assert Members(w'.calls, j, b) == Members(w.calls, j, b);
        assert |Members(w.calls, j, b)| == Expected(w.table.slots[j], b);
      }
    }
  }

  lemma ClearCalls(w: World, w': World, i: nat)
    requires CallsOk(w) && i < |w.table.slots|
    requires forall c :: c in w.calls && w.calls[c].slot == i ==> !w.calls[c].alive
    requires w'.calls == WithoutDead(w.calls, i) && w'.births == w.births && w'.ids == w.ids
    requires w'.table.slots == w.table.slots[i := Freed(w.table.slots[i])]
    ensures CallsOk(w')
  {
    forall d | d in w'.calls ensures CallOk(w', w'.calls[d]) {
      assert CallOk(w, w.calls[d]);
      CallFrame(w, w', w.calls[d]);
    }
  }

  /** A slot without a type whose object exists has a creator that has just created it. */
  lemma UntypedBirth(w: World, foreign: Namespace, i: nat) returns (c: nat)
    requires Inv(w, foreign) && i < |w.table.slots| && InUse(w.table.slots[i])
    requires w.table.slots[i].kind.Untyped? && w.births[i].Some?
    ensures c in w.calls && w.calls[c].slot == i && w.calls[c].phase.Created?
  {
    assert SlotOk(w.table.slots[i]);
    c := CreatorOf(w, foreign, i);
    assert CallOk(w, w.calls[c]);
  }

  lemma ClearOs(w: World, w': World, foreign: Namespace, i: nat)
    requires Inv(w, foreign) && i < |w.table.slots| && InUse(w.table.slots[i])
    requires w.table.slots[i].kind.Untyped? ==> w.births[i].None?
    requires w'.table.slots == w.table.slots[i := Freed(w.table.slots[i])]
    requires w'.os == ForceUnlinked(w.os, w.table.slots[i])
    requires w'.births == w.births && w'.nextObj == w.nextObj
    ensures OsOk(w', foreign)
  {
    ForceUnlinkExact(w, foreign, i);
    if w.table.slots[i].kind.Untyped? {
      FreeOs(w, w', foreign, i);
    } else {
      ReleaseOs(w, w', foreign, i);
    }
  }

  lemma ClearInv(w: World, foreign: Namespace, name: string)
    requires Inv(w, foreign) && ClearAllowed(w, name)
    ensures Inv(DoClear(w, name), foreign)
  {
    var found := Lookup(w.table, Key(name));
    if found.Some? {
      var i, w' := found.value, DoClear(w, name);
      ClearedSlots(w.table, i);
      ClearedSound(w.table, i);
      ClearCounts(w, w', i);
      ClearCalls(w, w', i);
      if w.table.slots[i].kind.Untyped? && w.births[i].Some? {
        var c := UntypedBirth(w, foreign, i);
        assert false;
      }
      ClearOs(w, w', foreign, i);
    }
  }

  // ---------------------------------------------------------------------------------------
  // All steps, all runs

  lemma NewStepInv(w: World, foreign: Namespace, a: Action)
    requires Inv(w, foreign) && Enabled(w, a)
    requires a.NewReserve? || a.NewCreate? || a.Book? || a.NewPublish? || a.NewAbort?
    ensures Inv(Apply(w, a), foreign)
  {
    match a
    case NewReserve(c, name, kind) => ReserveInv(w, foreign, c, name, kind);
    case NewCreate(c, willing) => CreateInv(w, foreign, c, willing);
    case Book(c) => BookInv(w, foreign, c);
    case NewPublish(c) => PublishInv(w, foreign, c);
    case NewAbort(c) => AbortInv(w, foreign, c);
  }

  lemma AttachStepInv(w: World, foreign: Namespace, a: Action)
    requires Inv(w, foreign) && Allowed(w, a) && a.AttachCount?
    ensures Inv(Apply(w, a), foreign)
  {
    AttachInv(w, foreign, a.c, a.name, a.kind);
  }

  lemma OpenStepInv(w: World, foreign: Namespace, a: Action)
    requires Inv(w, foreign) && Enabled(w, a) && (a.AttachOpen? || a.AttachAbort?)
    ensures a.AttachOpen? && Inv(Apply(w, a), foreign)
  {
    NoFailedAttach(w, foreign, a.c);
    OpenInv(w, foreign, a.c);
  }

  lemma StepInv(w: World, foreign: Namespace, a: Action)
    requires Inv(w, foreign) && Allowed(w, a)
    ensures Inv(Apply(w, a), foreign)
  {
    match a
    case DropHandle(c) => DropInv(w, foreign, c);
    case Die(c) => DieInv(w, foreign, c);
    case ForceClear(name) => ClearInv(w, foreign, name);
    case AttachCount(_, _, _) => AttachStepInv(w, foreign, a);
    case AttachOpen(_) => OpenStepInv(w, foreign, a);
    case AttachAbort(_) => OpenStepInv(w, foreign, a);
    case _ => NewStepInv(w, foreign, a);
  }

  /** No counted attach is ever refused by the back-end. */
  lemma NoFailedAttach(w: World, foreign: Namespace, c: nat)
    requires Inv(w, foreign)
    ensures !InPhase(w, c, OpenFailed)
  {
    assert c in w.calls ==> CallOk(w, w.calls[c]);
  }

  lemma {:induction false} RunInv(ws: seq<World>, acts: seq<Action>, foreign: Namespace, k: nat)
    requires IsAllowedRun(ws, acts, foreign) && k < |ws|
    ensures Inv(ws[k], foreign)
  {
    if k == 0 {
      InitialInv(ws[0], foreign);
    } else {
      RunInv(ws, acts, foreign, k - 1);
      RunStepInv(ws, acts, foreign, k - 1);
    }
  }

  lemma RunStepInv(ws: seq<World>, acts: seq<Action>, foreign: Namespace, k: nat)
    requires IsAllowedRun(ws, acts, foreign) && k < |acts| && Inv(ws[k], foreign)
    ensures Inv(ws[k + 1], foreign)
  {
    assert StepTo(ws[k], acts[k], ws[k + 1]);
    StepInv(ws[k], foreign, acts[k]);
  }
}
