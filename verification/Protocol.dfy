/** Any number of processes creating, attaching to and dropping shared objects
    (src/new_common.c, sys/posix/src/mem.c, sys/posix/src/lock.c).

    One call of `SHOBJ_NEW` or `SHOBJ_ATTACH` is a sequence of steps.  The steps on the table are
    atomic because they run under the global semaphore; the back-end steps between them are not
    protected by anything.  A call that succeeds goes on living as the handle it returned, until
    that handle is dropped.  A process may die between any two steps of a call, and names may be
    force-cleared.  Runs interleave the steps of all calls arbitrarily. */
module Protocol {
  import opened Common
  import opened Names
  import opened RegistryTable
  import opened Backend

  datatype Phase =
    | Reserving      // new: the name is reserved, the back-end object not yet created
    | CreateFailed   // new: the back-end refused; the slot is about to be given back
    | Created        // new: the object exists
    | Booked         // new: the slot index is written into the object, type and size into the slot
    | Counted        // attach: the name was found and counted
    | OpenFailed     // attach: the back-end refused; the count is about to be given back
    | Opened         // attach: the object is mapped
    | Holding        // a live handle

  predicate Creating(p: Phase)
  {
    p.Reserving? || p.CreateFailed? || p.Created? || p.Booked?
  }

  /** `obj` is the object the call has mapped, `id` a semaphore handle's private copy of the
      slot index.  A call whose process has died stays where it was for ever. */
  datatype Call = Call(phase: Phase, slot: nat, name: string, kind: ObjType, obj: nat, id: nat,
                       alive: bool)

  /** A history variable: the back-end object created for a slot's current name. */
  datatype Birth = Birth(key: OsKey, obj: nat)

  /** `ids` is the book-keeping word at the head of each shared-memory object. */
  datatype World = World(table: Table, os: Namespace, ids: map<nat, nat>,
                         calls: map<nat, Call>, nextObj: nat, births: seq<Option<Birth>>)

  datatype Action =
    | NewReserve(c: nat, name: string, kind: ObjType)
    | NewCreate(c: nat, willing: bool)
    | Book(c: nat)
    | NewPublish(c: nat)
    | NewAbort(c: nat)
    | AttachCount(c: nat, name: string, kind: ObjType)
    | AttachOpen(c: nat)
    | AttachAbort(c: nat)
    | DropHandle(c: nat)
    | Die(c: nat)
    | ForceClear(name: string)

  // ---------------------------------------------------------------------------------------
  // The steps

  function CallKey(x: Call): Option<OsKey>
  {
    match OsName(x.name)
    case None => None
    case Some(n) => Some(OsKey(SpaceOf(x.kind), n))
  }

  /** The slot that dropping a handle goes to: a semaphore handle carries the index itself, any
      other object carries it in shared memory. */
  function DropTarget(w: World, x: Call): nat
  {
    if SpaceOf(x.kind).Sem? then x.id else if x.obj in w.ids then w.ids[x.obj] else 0
  }

  predicate Alive(w: World, c: nat) { c in w.calls && w.calls[c].alive }

  predicate InPhase(w: World, c: nat, p: Phase) { Alive(w, c) && w.calls[c].phase == p }

  predicate Enabled(w: World, a: Action)
  {
    && Shaped(w.table) && |w.births| == |w.table.slots|
    && (match a
        case NewReserve(c, _, kind) => c !in w.calls && !kind.Untyped?
        case NewCreate(c, _) => InPhase(w, c, Reserving)
        case Book(c) => InPhase(w, c, Created) || InPhase(w, c, Opened)
        case NewPublish(c) => InPhase(w, c, Booked)
        case NewAbort(c) => InPhase(w, c, CreateFailed)
        case AttachCount(c, _, kind) => c !in w.calls && !kind.Untyped?
        case AttachOpen(c) => InPhase(w, c, Counted)
        case AttachAbort(c) => InPhase(w, c, OpenFailed)
        case DropHandle(c) => InPhase(w, c, Holding) && DropTarget(w, w.calls[c]) < |w.table.slots|
        case Die(c) => Alive(w, c)
        case ForceClear(_) => true)
    && (a.NewReserve? || a.AttachCount? || a.ForceClear? || w.calls[a.c].slot < |w.table.slots|)
  }

  function Apply(w: World, a: Action): World
    requires Enabled(w, a)
  {
    match a
    case NewReserve(c, name, kind) => DoReserve(w, c, name, kind)
    case NewCreate(c, willing) => DoCreate(w, c, willing)
    case Book(c) => DoBook(w, c)
    case NewPublish(c) =>
      w.(table := Count(w.table, w.calls[c].slot), calls := w.calls[c := w.calls[c].(phase := Holding)])
    case NewAbort(c) =>
      w.(table := Drop(w.table, w.calls[c].slot), calls := w.calls - {c})
    case AttachCount(c, name, kind) => DoAttach(w, c, name, kind)
    case AttachOpen(c) => DoOpen(w, c)
    case AttachAbort(c) =>
      w.(table := Drop(w.table, w.calls[c].slot), calls := w.calls - {c})
    case DropHandle(c) => DoDrop(w, c)
    case Die(c) => w.(calls := w.calls[c := w.calls[c].(alive := false)])
    case ForceClear(name) => DoClear(w, name)
  }

  /** `urt_reserve_name`; a refusal ends the call at once. */
  function DoReserve(w: World, c: nat, name: string, kind: ObjType): World
    requires Shaped(w.table) && |w.births| == |w.table.slots|
  {
    match Reserve(w.table, name)
    case Exists => w
    case NoSpace => w
    case Reserved(t, i) =>
      w.(table := t, births := w.births[i := None],
         calls := w.calls[c := Call(Reserving, i, Key(name), kind, 0, 0, true)])
  }

  /** `shm_open` or `sem_open` with `O_CREAT | O_EXCL`: refused when the name cannot be
      converted or is taken, and possibly for reasons of its own. */
  function DoCreate(w: World, c: nat, willing: bool): World
    requires c in w.calls && w.calls[c].slot < |w.births|
  {
    var x := w.calls[c];
    var key := CallKey(x);
    if willing && key.Some? && key.value !in w.os then
      w.(os := w.os[key.value := w.nextObj], nextObj := w.nextObj + 1,
         ids := w.ids[w.nextObj := 0],
         births := w.births[x.slot := Some(Birth(key.value, w.nextObj))],
         calls := w.calls[c := x.(phase := Created, obj := w.nextObj)])
    else
      w.(calls := w.calls[c := x.(phase := CreateFailed)])
  }

  /** `urt_sys_add_*_book_keeping`, and for a new object the slot's type. */
  function DoBook(w: World, c: nat): World
    requires c in w.calls && w.calls[c].slot < |w.table.slots|
  {
    var x := w.calls[c];
    var s := w.table.slots[x.slot];
    var shm := SpaceOf(x.kind).Shm?;
    var s' := if x.phase.Created? then s.(hasBookkeeping := shm, kind := x.kind)
              else s.(hasBookkeeping := s.hasBookkeeping || shm);
    w.(ids := if shm then w.ids[x.obj := x.slot] else w.ids,
       table := w.table.(slots := w.table.slots[x.slot := s']),
       calls := w.calls[c := x.(phase := if x.phase.Created? then Booked else Holding,
                                id := x.slot)])
  }

  /** `urt_get_object_by_name_and_inc_count`; a name not found ends the call at once. */
  function DoAttach(w: World, c: nat, name: string, kind: ObjType): World
    requires Shaped(w.table)
  {
    match Lookup(w.table, Key(name))
    case None => w
    case Some(i) =>
      w.(table := Count(w.table, i), calls := w.calls[c := Call(Counted, i, Key(name), kind, 0, 0, true)])
  }

  /** `shm_open` or `sem_open` of an existing object: refused exactly when it is absent. */
  function DoOpen(w: World, c: nat): World
    requires c in w.calls
  {
    var x := w.calls[c];
    var key := CallKey(x);
    if key.Some? && key.value in w.os then
      w.(calls := w.calls[c := x.(phase := Opened, obj := w.os[key.value])])
    else
      w.(calls := w.calls[c := x.(phase := OpenFailed)])
  }

  /** `urt_shmem_detach`, `urt_shsem_detach` and the others: decrement, then the back-end's
      release callback unlinks if nobody is left. */
  function DoDrop(w: World, c: nat): World
    requires c in w.calls && DropTarget(w, w.calls[c]) < |w.table.slots|
  {
    var x := w.calls[c];
    var i := DropTarget(w, x);
    w.(table := Drop(w.table, i), calls := w.calls - {c},
       os := Released(w.os, SpaceOf(x.kind), Dropped(w.table.slots[i])))
  }

  /** The calls that are not those of dead processes on slot `i`. */
  function WithoutDead(calls: map<nat, Call>, i: nat): map<nat, Call>
  {
    map c | c in calls && (calls[c].alive || calls[c].slot != i) :: calls[c]
  }

  /** `urt_force_clear_name`: what the dead have left on the slot is gone with it; the living know
      nothing of it. */
  function DoClear(w: World, name: string): World
    requires Shaped(w.table)
  {
    match Lookup(w.table, Key(name))
    case None => w
    case Some(i) =>
      w.(table := Cleared(w.table, i), os := ForceUnlinked(w.os, w.table.slots[i]),
         calls := WithoutDead(w.calls, i))
  }

  // ---------------------------------------------------------------------------------------
  // The three things the library asks of its callers

  /** An attach finds either nothing, or an object that has been published and that belongs to
      the namespace asked for, and whose count has room for one more. */
  predicate AttachAllowed(w: World, name: string, kind: ObjType)
    requires Shaped(w.table)
  {
    match Lookup(w.table, Key(name))
    case None => true
    case Some(i) =>
      var s := w.table.slots[i];
      !s.reserved && SpaceOf(s.kind) == SpaceOf(kind) && s.count + 1 < UINT_RANGE
  }

  /** A name is force-cleared only after everybody who used it has died, and none of them between
      creating the back-end object and writing the slot's type. */
  ghost predicate ClearAllowed(w: World, name: string)
    requires Shaped(w.table)
  {
    match Lookup(w.table, Key(name))
    case None => true
    case Some(i) =>
      forall c :: c in w.calls && w.calls[c].slot == i ==>
                    !w.calls[c].alive && !w.calls[c].phase.Created?
  }

  ghost predicate Allowed(w: World, a: Action)
  {
    && Enabled(w, a)
    && (a.AttachCount? ==> AttachAllowed(w, a.name, a.kind))
    && (a.ForceClear? ==> ClearAllowed(w, a.name))
  }

  // ---------------------------------------------------------------------------------------
  // Runs

  /** `foreign` are the objects that exist before the library starts, the two global objects
      of the library itself among them. */
  predicate Initial(w: World, foreign: Namespace)
  {
    && |w.table.slots| > 0 && w.table.maxIndex == 0
    && (forall i :: 0 <= i < |w.table.slots| ==> w.table.slots[i] == FREE_SLOT)
    && w.births == seq(|w.table.slots|, _ => None)
    && w.os == foreign && w.calls == map[]
  }

  predicate StepTo(w: World, a: Action, w': World) { Enabled(w, a) && w' == Apply(w, a) }

  ghost predicate IsPath(ws: seq<World>, acts: seq<Action>)
  {
    |ws| == |acts| + 1 && forall k :: 0 <= k < |acts| ==> StepTo(ws[k], acts[k], ws[k + 1])
  }

  ghost predicate IsRun(ws: seq<World>, acts: seq<Action>, foreign: Namespace)
  {
    IsPath(ws, acts) && Initial(ws[0], foreign)
  }

  ghost predicate IsAllowedRun(ws: seq<World>, acts: seq<Action>, foreign: Namespace)
  {
    IsRun(ws, acts, foreign) && forall k :: 0 <= k < |acts| ==> Allowed(ws[k], acts[k])
  }

  // ---------------------------------------------------------------------------------------
  // The invariant

  /** The calls on slot `i` that are still creating it, or else that are counted on it. */
  function Members(calls: map<nat, Call>, i: nat, creating: bool): set<nat>
  {
    set c | c in calls && calls[c].slot == i && Creating(calls[c].phase) == creating
  }

  /** How many there should be, from the slot's own fields. */
  function Expected(s: Slot, creating: bool): nat
  {
    if !creating then s.count else if s.reserved then 1 else 0
  }

  ghost predicate CountsOk(w: World)
  {
    forall i, b :: 0 <= i < |w.table.slots| ==>
                     |Members(w.calls, i, b)| == Expected(w.table.slots[i], b)
  }

  ghost predicate SlotOk(s: Slot)
  {
    && (s.reserved ==> s.count == 0) && s.count < UINT_RANGE
    && (s.count > 0 ==> !s.kind.Untyped? && s.hasBookkeeping == SpaceOf(s.kind).Shm?)
    && Key(s.name) == s.name
  }

  ghost predicate SlotsOk(slots: seq<Slot>)
  {
    forall i :: 0 <= i < |slots| ==> SlotOk(slots[i])
  }

  ghost predicate CallOk(w: World, x: Call)
  {
    && x.slot < |w.table.slots| && x.slot < |w.births|
    && !x.phase.OpenFailed? && !x.kind.Untyped?
    && var s, b := w.table.slots[x.slot], w.births[x.slot];
       && s.name == x.name && s.reserved == Creating(x.phase) && InUse(s)
       && (x.phase.Reserving? || x.phase.CreateFailed? ==> b.None?)
       && (!x.phase.Reserving? && !x.phase.CreateFailed? ==>
             b.Some? && CallKey(x) == Some(b.value.key)
             && (!x.phase.Counted? ==> x.obj == b.value.obj))
       && (x.phase.Booked? || x.phase.Holding? ==>
             && x.id == x.slot
             && (SpaceOf(x.kind).Shm? ==> x.obj in w.ids && w.ids[x.obj] == x.slot))
       && (x.phase.Booked? ==> s.kind == x.kind && s.hasBookkeeping == SpaceOf(x.kind).Shm?)
       && (x.phase.Reserving? || x.phase.CreateFailed? || x.phase.Created? ==> s.kind.Untyped?)
  }

  ghost predicate CallsOk(w: World)
  {
    forall c :: c in w.calls ==> CallOk(w, w.calls[c])
  }

  /** The back-end object of the slot's current name, if it was created, is still there. */
  ghost predicate BirthOk(w: World, foreign: Namespace, i: nat)
    requires i < |w.table.slots| == |w.births|
  {
    var s, b := w.table.slots[i], w.births[i];
    && (s.count > 0 ==> b.Some? && b.value.key.space == SpaceOf(s.kind))
    && (InUse(s) && b.Some? ==>
          && b.value.key in w.os && w.os[b.value.key] == b.value.obj
          && b.value.key !in foreign && b.value.obj < w.nextObj
          && OsName(s.name) == Some(b.value.key.name))
  }

  predicate Owns(w: World, i: nat, key: OsKey)
    requires |w.births| == |w.table.slots|
  {
    i < |w.births| && InUse(w.table.slots[i]) && w.births[i].Some? && w.births[i].value.key == key
  }

  ghost predicate OsOk(w: World, foreign: Namespace)
    requires |w.births| == |w.table.slots|
  {
    && (forall i :: 0 <= i < |w.births| ==> BirthOk(w, foreign, i))
    && (forall i, j :: 0 <= i < j < |w.births| && InUse(w.table.slots[i]) && InUse(w.table.slots[j])
                       && w.births[i].Some? && w.births[j].Some?
          ==> w.births[i].value.key != w.births[j].value.key
              && w.births[i].value.obj != w.births[j].value.obj)
    && (forall k :: k in foreign ==> k in w.os && w.os[k] == foreign[k])
    && (forall k :: k in w.os && k !in foreign ==> exists i :: Owns(w, i, k))
  }

  ghost predicate Inv(w: World, foreign: Namespace)
  {
    && Sound(w.table) && |w.births| == |w.table.slots|
    && SlotsOk(w.table.slots)
    && CountsOk(w)
    && CallsOk(w)
    && OsOk(w, foreign)
  }
}
