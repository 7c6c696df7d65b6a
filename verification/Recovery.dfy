/** A process dies in the middle of a locked operation, holding the global semaphore, and
    `urt_recover` is run (src/setup_common.c, src/registry.c). */
module Recovery {
  import opened Common
  import opened Names
  import opened RegistryTable
  import Registry

  // ---------------------------------------------------------------------------------------
  // What a crash leaves

  /** A locked operation that has found what it was looking for and is about to write. */
  datatype Op = ReserveOp(name: string) | CountOp(slot: nat) | DropOp(slot: nat) | ClearOp(slot: nat)

  ghost predicate Starts(t: Table, op: Op)
  {
    && Sound(t) && KeyedNames(t.slots)
    && match op
       case ReserveOp(name) => Reserve(t, name).Reserved?
       case CountOp(i) => i < |t.slots| && InUse(t.slots[i]) && t.slots[i].count + 1 < UINT_RANGE
       case DropOp(i) => i < |t.slots|
       case ClearOp(i) => i < |t.slots|
  }

  /** The slot the operation works on. */
  function SlotOf(t: Table, op: Op): nat
    requires Shaped(t) && (op.ReserveOp? ==> Reserve(t, op.name).Reserved?)
  {
    if op.ReserveOp? then Reserve(t, op.name).index else op.slot
  }

  function Result(t: Table, op: Op): Table
    requires Shaped(t) && (op.ReserveOp? ==> Reserve(t, op.name).Reserved?)
    requires SlotOf(t, op) < |t.slots|
  {
    match op
    case ReserveOp(name) => Reserve(t, name).table
    case CountOp(i) => Count(t, i)
    case DropOp(i) => Drop(t, i)
    case ClearOp(i) => Cleared(t, i)
  }

  function WithSlot(t: Table, i: nat, s: Slot): Table
    requires i < |t.slots|
  {
    t.(slots := t.slots[i := s])
  }

  /** A slot in the middle of being overwritten as a whole, in whatever order: each field is still
      the old one or already the new one.  The new name is all NUL, so of the old name a prefix may
      be left. */
  predicate Overwritten(was: Slot, s: Slot)
  {
    && s.name <= was.name
    && (s.hasBookkeeping ==> was.hasBookkeeping)
    && (s.kind == was.kind || s.kind.Untyped?)
    && (s.count == was.count || s.count == 0)
    && (s.size == was.size || s.size == 0)
  }

  /** A slot in the middle of a reservation: it is being overwritten, or the name is being copied
      into it one character after the other. */
  ghost predicate TornSlot(was: Slot, key: string, s: Slot)
  {
    Overwritten(was, s) || exists n :: 0 <= n <= |key| && s == ReservedSlot(key[..n])
  }

  ghost predicate ReserveLeaves(t: Table, i: nat, key: string, t': Table)
    requires i < |t.slots|
  {
    && |t'.slots| == |t.slots|
    && TornSlot(t.slots[i], key, t'.slots[i]) && t' == WithSlot(t, i, t'.slots[i])
  }

  predicate DropLeaves(t: Table, i: nat, t': Table)
    requires i < |t.slots|
  {
    var s := t.slots[i];
    || t' == t
    || t' == WithSlot(t, i, s.(count := CountDown(s.count)))
    || t' == WithSlot(t, i, Dropped(s))
    || t' == Drop(t, i)
  }

  predicate ClearLeaves(t: Table, i: nat, t': Table)
    requires i < |t.slots|
    decreases t.slots[i].count
  {
    DropLeaves(t, i, t') || (Drop(t, i).slots[i].count > 0 && ClearLeaves(Drop(t, i), i, t'))
  }

  /** After some of its writes, none and all included, the operation has made `t'` of the table. */
  ghost predicate MayLeave(t: Table, op: Op, t': Table)
    requires Shaped(t) && (op.ReserveOp? ==> Reserve(t, op.name).Reserved?)
    requires SlotOf(t, op) < |t.slots|
  {
    var i := SlotOf(t, op);
    match op
    case ReserveOp(name) =>
      ReserveLeaves(t, i, Key(name), t') || t' == Reserve(t, name).table
    case CountOp(_) =>
      || t' == t
      || t' == WithSlot(t, i, t.slots[i].(count := CountUp(t.slots[i].count)))
      || t' == Count(t, i)
    case DropOp(_) => DropLeaves(t, i, t')
    case ClearOp(_) => ClearLeaves(t, i, t')
  }

  /** The writes begin at the table and end in what the operation does. */
  lemma WritesBeginAndEnd(t: Table, op: Op)
    requires Starts(t, op)
    ensures MayLeave(t, op, t) && MayLeave(t, op, Result(t, op))
  {
    match op
    case ReserveOp(name) =>
      assert ReserveLeaves(t, SlotOf(t, op), Key(name), t);
    case ClearOp(i) => ClearEnds(t, i);
    case _ =>
  }

  lemma {:induction false} ClearEnds(t: Table, i: nat)
    requires i < |t.slots|
    ensures ClearLeaves(t, i, Cleared(t, i))
    decreases t.slots[i].count
  {
    if Drop(t, i).slots[i].count > 0 {
      ClearEnds(Drop(t, i), i);
    }
  }

  /** The operation's own slot may be torn, no other slot is touched, and the memory has its
      shape: the bound is an index and names are terminated. */
  ghost predicate TornAt(t: Table, i: nat, t': Table)
  {
    && |t'.slots| == |t.slots| && Shaped(t') && KeyedNames(t'.slots)
    && forall j :: 0 <= j < |t.slots| && j != i ==> t'.slots[j] == t.slots[j]
  }

  lemma PrefixIsKey(s: string, p: string)
    requires Key(s) == s && p <= s
    ensures Key(p) == p
  {
    KeyUnique(p, p);
  }

  lemma ReserveTorn(t: Table, name: string, t': Table)
    requires Starts(t, ReserveOp(name)) && MayLeave(t, ReserveOp(name), t')
    ensures TornAt(t, Reserve(t, name).index, t')
  {
    KeyOfKey(name);
    var i := Reserve(t, name).index;
    if t' != Reserve(t, name).table {
      var s := t'.slots[i];
      PrefixIsKey(if Overwritten(t.slots[i], s) then t.slots[i].name else Key(name), s.name);
    }
  }

  lemma DropTorn(t: Table, i: nat, t': Table)
    requires Sound(t) && KeyedNames(t.slots) && i < |t.slots| && DropLeaves(t, i, t')
    ensures TornAt(t, i, t') && t'.slots[i].name == t.slots[i].name
    ensures InUse(t'.slots[i]) ==> InUse(t.slots[i])
  {
    DropSound(t, i);
  }

  lemma {:induction false} ClearTorn(t: Table, i: nat, t': Table)
    requires Sound(t) && KeyedNames(t.slots) && i < |t.slots| && ClearLeaves(t, i, t')
    ensures TornAt(t, i, t') && t'.slots[i].name == t.slots[i].name
    ensures InUse(t'.slots[i]) ==> InUse(t.slots[i])
    decreases t.slots[i].count
  {
    if DropLeaves(t, i, t') {
      DropTorn(t, i, t');
    } else {
      DropTorn(t, i, Drop(t, i));
      DropSound(t, i);
      ClearTorn(Drop(t, i), i, t');
    }
  }

  /** Only a reservation can leave a name that was not there before. */
  lemma CrashTears(t: Table, op: Op, t': Table)
    requires Starts(t, op) && MayLeave(t, op, t')
    ensures TornAt(t, SlotOf(t, op), t')
    ensures !op.ReserveOp? ==>
              var s, s' := t.slots[op.slot], t'.slots[op.slot];
              s'.name == s.name && (InUse(s') ==> InUse(s))
  {
    match op
    case ReserveOp(name) => ReserveTorn(t, name, t');
    case CountOp(_) =>
    case DropOp(i) => DropTorn(t, i, t');
    case ClearOp(i) => ClearTorn(t, i, t');
  }

  // ---------------------------------------------------------------------------------------
  // What recovery makes of it

  function Recovered(t: Table): Table
    requires |t.slots| > 0
  {
    Table(t.slots, Top(t.slots, |t.slots| - 1))
  }

  /** Recovery makes the bound of any table exact, torn or not. */
  lemma RecoveredExact(t: Table, key: string)
    requires |t.slots| > 0
    ensures Exact(Recovered(t)) && Lookup(Recovered(t), key) == FullScan(t.slots, key)
  {
    ExactIffTop(Recovered(t));
    LookupIsFullScan(Recovered(t), key);
  }

  /** Recovery leaves a table alone whose bound is exact. */
  lemma RecoverIdle(t: Table)
    requires Exact(t)
    ensures Recovered(t) == t
  {
    ExactIffTop(t);
  }

  /** A process dies at any point of a locked operation, and `urt_recover` is run with nobody else
      about: the semaphore is free again, lookups agree with full scans, and every slot but the
      operation's own is as it was. */
  method CrashAndRecover(reg: Registry.Registry, ghost t: Table, ghost op: Op)
    requires Starts(t, op) && MayLeave(t, op, reg.Contents()) && reg.semaphore == 0
    requires reg.nextFreeName.Length > NAME_LEN
    modifies reg
    ensures reg.semaphore == 1 && reg.Shape() && Exact(reg.Contents())
    ensures forall key :: Lookup(reg.Contents(), key) == FullScan(reg.objects[..], key)
    ensures reg.Contents() == Recovered(old(reg.Contents())) && TornAt(t, SlotOf(t, op), reg.Contents())
    ensures reg.namesExhausted == old(reg.namesExhausted)
  {
    CrashTears(t, op, reg.Contents());
    reg.Recover();
    forall key ensures Lookup(reg.Contents(), key) == FullScan(reg.objects[..], key) {
      LookupIsFullScan(reg.Contents(), key);
    }
  }

  /** An object of another slot is found after recovery if and only if the torn slot is not in use
      under its name at a lower index: nothing in `urt_recover` looks at names. */
  lemma OthersFoundIff(t: Table, op: Op, t': Table, j: nat)
    requires Starts(t, op) && MayLeave(t, op, t')
    requires j < |t.slots| && j != SlotOf(t, op) && InUse(t.slots[j])
    ensures SlotOf(t, op) < |t'.slots|
    ensures var name := t.slots[j].name;
            Lookup(Recovered(t'), name) == Some(j)
            <==> !(SlotOf(t, op) < j && Holds(t'.slots[SlotOf(t, op)], name))
  {
    CrashTears(t, op, t');
    RecoveredExact(t', t.slots[j].name);
    OtherFound(t.slots, t'.slots, SlotOf(t, op), j);
  }

  lemma OtherFound(before: seq<Slot>, after: seq<Slot>, i: nat, j: nat)
    requires Unique(before) && |after| == |before| && i < |before| && j < |before| && i != j
    requires forall k :: 0 <= k < |before| && k != i ==> after[k] == before[k]
    requires InUse(before[j])
    ensures FullScan(after, before[j].name) == Some(j) <==> !(i < j && Holds(after[i], before[j].name))
  {
    var name := before[j].name;
    var r := Search(after, name, 0, |after|);
    assert Holds(after[j], name);
    assert r != i ==> Holds(before[r], name);
  }

  // ---------------------------------------------------------------------------------------
  // Uniqueness of names

  /** Names are still unique if and only if nobody else has the name that is left in the torn slot. */
  lemma UniqueAfterCrashIff(t: Table, op: Op, t': Table)
    requires Starts(t, op) && MayLeave(t, op, t')
    ensures SlotOf(t, op) < |t'.slots| == |t.slots|
    ensures var i := SlotOf(t, op);
            Unique(t'.slots) <==> forall j :: 0 <= j < |t.slots| && j != i && InUse(t.slots[j])
                                              ==> !Holds(t'.slots[i], t.slots[j].name)
  {
    CrashTears(t, op, t');
    TornUnique(t.slots, t'.slots, SlotOf(t, op));
  }

  lemma TornUnique(before: seq<Slot>, after: seq<Slot>, i: nat)
    requires Unique(before) && |after| == |before| && i < |before|
    requires forall k :: 0 <= k < |before| && k != i ==> after[k] == before[k]
    ensures Unique(after) <==> forall j :: 0 <= j < |before| && j != i && InUse(before[j])
                                           ==> !Holds(after[i], before[j].name)
  {
    if Unique(after) {
      forall j | 0 <= j < |before| && j != i && InUse(before[j])
        ensures !Holds(after[i], before[j].name)
      {
        assert after[j] == before[j];
      }
    }
  }

  /** Crashes outside of reservations never cost uniqueness. */
  lemma UniqueUnlessReserving(t: Table, op: Op, t': Table)
    requires Starts(t, op) && MayLeave(t, op, t') && !op.ReserveOp?
    ensures Unique(t'.slots)
  {
    CrashTears(t, op, t');
    UniqueAfterCrashIff(t, op, t');
  }

  /** A reservation can crash at any point without costing uniqueness if and only if no name in use
      is a prefix of the new name, or of the old name that still stands in the free slot. */
  lemma ReserveCrashSafeIff(t: Table, name: string)
    requires Starts(t, ReserveOp(name))
    ensures var i := Reserve(t, name).index;
            (forall t' :: MayLeave(t, ReserveOp(name), t') ==> Unique(t'.slots))
            <==> forall j :: 0 <= j < |t.slots| && InUse(t.slots[j]) ==>
                               !(t.slots[j].name <= Key(name)) && !(t.slots[j].name <= t.slots[i].name)
  {
    var op, i := ReserveOp(name), Reserve(t, name).index;
    if j :| 0 <= j < |t.slots| && InUse(t.slots[j])
            && (t.slots[j].name <= Key(name) || t.slots[j].name <= t.slots[i].name)
    {
      var t' := Collision(t, name, j);
    } else {
      forall t' | MayLeave(t, op, t') ensures Unique(t'.slots) {
        NoCollision(t, name, t');
      }
    }
  }

  /** A crash that leaves the name of slot `j` in the torn slot. */
  lemma Collision(t: Table, name: string, j: nat) returns (t': Table)
    requires Starts(t, ReserveOp(name)) && j < |t.slots| && InUse(t.slots[j])
    requires t.slots[j].name <= Key(name) || t.slots[j].name <= t.slots[Reserve(t, name).index].name
    ensures MayLeave(t, ReserveOp(name), t') && !Unique(t'.slots)
  {
    var i, n, key := Reserve(t, name).index, |t.slots[j].name|, Key(name);
    var s := if t.slots[j].name <= key then ReservedSlot(key[..n])
             else t.slots[i].(name := t.slots[j].name, reserved := true);
    t' := WithSlot(t, i, s);
    assert TornSlot(t.slots[i], key, s);
    assert ReserveLeaves(t, i, key, t');
    assert t'.slots[j] == t.slots[j] && t'.slots[i] == s && s.name == t.slots[j].name;
  }

  lemma NoCollision(t: Table, name: string, t': Table)
    requires Starts(t, ReserveOp(name)) && MayLeave(t, ReserveOp(name), t')
    requires forall j :: 0 <= j < |t.slots| && InUse(t.slots[j]) ==>
               !(t.slots[j].name <= Key(name))
               && !(t.slots[j].name <= t.slots[Reserve(t, name).index].name)
    ensures Unique(t'.slots)
  {
    var i := Reserve(t, name).index;
    if t' == Reserve(t, name).table {
      ReserveSound(t, name);
    } else {
      ReserveTorn(t, name, t');
      TornUnique(t.slots, t'.slots, i);
    }
  }

  /** It does happen: with "A" in use, a crash after the first character of "AB" leaves two slots
      named "A", and an "A" that sits above the torn slot is no longer found. */
  lemma TornNameShadows(t: Table, i: nat) returns (t': Table)
    requires Starts(t, ReserveOp("AB")) && Lookup(t, "A") == Some(i)
    requires Reserve(t, "AB").index < i
    ensures MayLeave(t, ReserveOp("AB"), t') && t'.slots != [] && !Unique(t'.slots)
    ensures Lookup(Recovered(t'), "A") == Some(Reserve(t, "AB").index)
  {
    KeyUnique("AB", "AB");
    var f := Reserve(t, "AB").index;
    t' := WithSlot(t, f, ReservedSlot("A"));
    assert "AB"[..1] == "A";
    assert TornSlot(t.slots[f], "AB", ReservedSlot("A"));
    assert ReserveLeaves(t, f, "AB", t');
    assert Holds(t'.slots[f], "A") && t'.slots[i] == t.slots[i];
    RecoveredExact(t', "A");
    assert forall j :: 0 <= j < f ==> !Holds(t'.slots[j], "A");
  }

  /** A table in which that can happen: "X" and "A" are reserved in a fresh one, and "X" is given
      back. */
  lemma ShadowIsReachable(n: nat) returns (t: Table)
    requires n >= 2
    ensures var t0 := Table(seq(n, _ => FREE_SLOT), 0);
            && Reserve(t0, "X").Reserved? && Shaped(Reserve(t0, "X").table)
            && var r := Reserve(Reserve(t0, "X").table, "A");
               r.Reserved? && t == Drop(r.table, Reserve(t0, "X").index)
    ensures Starts(t, ReserveOp("AB")) && Lookup(t, "A") == Some(1) && Reserve(t, "AB").index == 0
  {
    var t0 := Table(seq(n, _ => FREE_SLOT), 0);
    KeyUnique("", "");
    var t1, t2 := TwoNames(t0);
    t := Drop(t2, 0);
    DropSound(t2, 0);
    assert t.slots[1] == ReservedSlot("A") && !InUse(t.slots[0]);
    LookupFinds(t, 1);
    NotThere(t);
    assert FirstFree(t.slots, 0) == 0;
    assert forall j :: 0 <= j < n ==> t.slots[j].name in {"", "X", "A"};
    KeyUnique("X", "X");
    KeyUnique("A", "A");
  }

  lemma TwoNames(t0: Table) returns (t1: Table, t2: Table)
    requires |t0.slots| >= 2 && t0.maxIndex == 0
    requires forall j :: 0 <= j < |t0.slots| ==> t0.slots[j] == FREE_SLOT
    ensures Reserve(t0, "X") == Reserved(t1, 0) && Shaped(t1) && Reserve(t1, "A") == Reserved(t2, 1)
    ensures Sound(t2) && t2 == Table(t0.slots[0 := ReservedSlot("X")][1 := ReservedSlot("A")], 1)
  {
    KeyUnique("X", "X");
    KeyUnique("A", "A");
    assert "X"[0] != "A"[0];
    t1 := Table(t0.slots[0 := ReservedSlot("X")], 0);
    assert FirstFree(t0.slots, 0) == 0;
    t2 := Table(t1.slots[1 := ReservedSlot("A")], 1);
    assert t1.slots[1] == FREE_SLOT;
    assert FirstFree(t1.slots, 0) == 1;
    ReserveSound(t0, "X");
    ReserveSound(t1, "A");
  }

  lemma NotThere(t: Table)
    requires Sound(t) && |t.slots| >= 2 && !InUse(t.slots[0]) && t.slots[1].name == "A"
    requires forall j :: 2 <= j < |t.slots| ==> !InUse(t.slots[j])
    ensures Lookup(t, Key("AB")).None?
  {
    KeyUnique("AB", "AB");
    assert |"AB"| != |"A"|;
  }
}
