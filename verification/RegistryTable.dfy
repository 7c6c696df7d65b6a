/** The shared table of named objects as a value, and what each locked operation of
    src/registry.c does to it.  The class `Registry.Registry` runs these operations in place;
    `Protocol` interleaves them. */
module RegistryTable {
  import opened Common
  import opened Names

  datatype ObjType = Untyped | MemObj | SemObj | MutexObj | RwlockObj | CondObj

  datatype Slot = Slot(name: string, reserved: bool, hasBookkeeping: bool,
                       kind: ObjType, count: nat, size: nat)

  const FREE_SLOT: Slot := Slot("", false, false, Untyped, 0, 0)

  /** `objects` and `objects_max_index` of the shared structure. */
  datatype Table = Table(slots: seq<Slot>, maxIndex: nat)

  predicate InUse(s: Slot) { s.reserved || s.count != 0 }

  predicate Holds(s: Slot, key: string) { InUse(s) && s.name == key }

  predicate Shaped(t: Table) { t.maxIndex < |t.slots| }

  /** The cached index is the greatest index in use, 0 if there is none. */
  ghost predicate Exact(t: Table)
  {
    && Shaped(t)
    && (forall i :: t.maxIndex < i < |t.slots| ==> !InUse(t.slots[i]))
    && (t.maxIndex > 0 ==> InUse(t.slots[t.maxIndex]))
  }

  /** No two slots in use have the same name. */
  ghost predicate Unique(slots: seq<Slot>)
  {
    forall i, j :: 0 <= i < j < |slots| && InUse(slots[i]) && InUse(slots[j])
                   ==> slots[i].name != slots[j].name
  }

  ghost predicate Sound(t: Table) { Exact(t) && Unique(t.slots) }

  /** Every stored name is a key: at most six characters, none of them NUL. */
  ghost predicate KeyedNames(slots: seq<Slot>)
  {
    forall i :: 0 <= i < |slots| ==> Key(slots[i].name) == slots[i].name
  }

  // ---------------------------------------------------------------------------------------
  // Searches

  /** The least index in `[lo, hi)` that holds `key`, or `hi`. */
  function Search(slots: seq<Slot>, key: string, lo: nat, hi: nat): (r: nat)
    requires lo <= hi <= |slots|
    ensures lo <= r <= hi
    ensures r < hi ==> Holds(slots[r], key)
    ensures forall j :: lo <= j < r ==> !Holds(slots[j], key)
    decreases hi - lo
  {
    if lo == hi || Holds(slots[lo], key) then lo else Search(slots, key, lo + 1, hi)
  }

  /** `_find_by_name`: a search bounded by the cached index. */
  function Lookup(t: Table, key: string): Option<nat>
    requires Shaped(t)
  {
    var r := Search(t.slots, key, 0, t.maxIndex + 1);
    if r <= t.maxIndex then Some(r) else None
  }

  /** The search `_find_by_name` abbreviates: all slots. */
  function FullScan(slots: seq<Slot>, key: string): Option<nat>
  {
    var r := Search(slots, key, 0, |slots|);
    if r < |slots| then Some(r) else None
  }

  /** The least free index at or above `lo`, or the table's size. */
  function FirstFree(slots: seq<Slot>, lo: nat): (r: nat)
    requires lo <= |slots|
    ensures lo <= r <= |slots|
    ensures r < |slots| ==> !InUse(slots[r])
    ensures forall j :: lo <= j < r ==> InUse(slots[j])
    decreases |slots| - lo
  {
    if lo == |slots| || !InUse(slots[lo]) then lo else FirstFree(slots, lo + 1)
  }

  /** The greatest index in use that is not above `hi`, 0 if there is none. */
  function Top(slots: seq<Slot>, hi: nat): (r: nat)
    requires hi < |slots|
    ensures r <= hi
    ensures r > 0 ==> InUse(slots[r])
    ensures forall j :: r < j <= hi ==> !InUse(slots[j])
  {
    if hi == 0 || InUse(slots[hi]) then hi else Top(slots, hi - 1)
  }

  /** The cached bound is exact precisely when it is what `urt_recover` computes. */
  lemma ExactIffTop(t: Table)
    requires |t.slots| > 0
    ensures Exact(t) <==> t.maxIndex == Top(t.slots, |t.slots| - 1)
  {
    var top := Top(t.slots, |t.slots| - 1);
    assert top == 0 || InUse(t.slots[top]);
  }

  /** With an exact bound the short search finds what a full scan would. */
  lemma LookupIsFullScan(t: Table, key: string)
    requires Exact(t)
    ensures Lookup(t, key) == FullScan(t.slots, key)
  {
    var short := Search(t.slots, key, 0, t.maxIndex + 1);
    var full := Search(t.slots, key, 0, |t.slots|);
    assert full < |t.slots| ==> InUse(t.slots[full]);
  }

  /** In a sound table a name in use is found in its slot. */
  lemma LookupFinds(t: Table, i: nat)
    requires Sound(t) && i < |t.slots| && InUse(t.slots[i])
    ensures Lookup(t, t.slots[i].name) == Some(i)
  {
    LookupIsFullScan(t, t.slots[i].name);
    var r := Search(t.slots, t.slots[i].name, 0, |t.slots|);
    assert Holds(t.slots[i], t.slots[i].name);
  }

  // ---------------------------------------------------------------------------------------
  // The map that a sound table represents

  ghost function Entries(slots: seq<Slot>): map<string, Slot>
    requires Unique(slots)
  {
    map i | 0 <= i < |slots| && InUse(slots[i]) :: slots[i].name := slots[i]
  }

  /** A lookup is a lookup in that map. */
  lemma LookupRefinesMap(t: Table, key: string)
    requires Sound(t)
    ensures Lookup(t, key).None? <==> key !in Entries(t.slots)
    ensures Lookup(t, key).Some? ==>
              Entries(t.slots)[key] == t.slots[Lookup(t, key).value]
  {
    LookupIsFullScan(t, key);
    if key in Entries(t.slots) {
      var i :| 0 <= i < |t.slots| && InUse(t.slots[i]) && t.slots[i].name == key;
      assert Holds(t.slots[i], key);
    }
  }

  // ---------------------------------------------------------------------------------------
  // The locked operations

  function CountUp(n: nat): nat { (n + 1) % UINT_RANGE }

  function CountDown(n: nat): nat { if n > 0 then n - 1 else 0 }

  /** What a new reservation writes into its slot. */
  function ReservedSlot(key: string): Slot { FREE_SLOT.(name := key, reserved := true) }

  datatype Reservation = Exists | NoSpace | Reserved(table: Table, index: nat)

  /** `urt_reserve_name` */
  function Reserve(t: Table, name: string): Reservation
    requires Shaped(t)
  {
    if Lookup(t, Key(name)).Some? then Exists
    else
      var i := FirstFree(t.slots, 0);
      if i == |t.slots| then NoSpace
      else Reserved(Table(t.slots[i := ReservedSlot(Key(name))],
                          if i > t.maxIndex then i else t.maxIndex), i)
  }

  /** `++count; reserved = false`: publishing a new object, or attaching to an existing one. */
  function Count(t: Table, i: nat): Table
    requires i < |t.slots|
  {
    t.(slots := t.slots[i := t.slots[i].(count := CountUp(t.slots[i].count), reserved := false)])
  }

  /** The slot after one decrement. */
  function Dropped(s: Slot): Slot { s.(count := CountDown(s.count), reserved := false) }

  /** The bound after the debug check: raised to the greatest index in use. */
  function Checked(slots: seq<Slot>, maxIndex: nat): nat
    requires |slots| > 0
  {
    var top := Top(slots, |slots| - 1);
    if top > maxIndex then top else maxIndex
  }

  /** `_dec_count_common` */
  function Drop(t: Table, i: nat): Table
    requires i < |t.slots|
  {
    var slots := t.slots[i := Dropped(t.slots[i])];
    if slots[i].count > 0 then t.(slots := slots)
    else Table(slots, Checked(slots, if i == t.maxIndex then Top(slots, i) else t.maxIndex))
  }

  /** `urt_force_clear_name`, on the table */
  function Cleared(t: Table, i: nat): Table
    requires i < |t.slots|
    decreases t.slots[i].count
  {
    var t' := Drop(t, i);
    if t'.slots[i].count > 0 then Cleared(t', i) else t'
  }

  // ---------------------------------------------------------------------------------------
  // What each operation does, field by field

  /** A slot that is taken: reserved, or counted. */
  predicate Occupied(s: Slot) { s.reserved || s.count > 0 }

  /** The lookup finds the first taken slot of that name that is not above the bound. */
  lemma LookupLaw(t: Table, key: string, i: nat)
    requires Shaped(t)
    ensures Lookup(t, key) == Some(i) <==>
              && i <= t.maxIndex && Occupied(t.slots[i]) && t.slots[i].name == key
              && forall j :: 0 <= j < i ==> !(Occupied(t.slots[j]) && t.slots[j].name == key)
  {}

  /** The reservation takes the first slot that is not taken, and resets everything in it. */
  lemma ReserveLaw(t: Table, name: string)
    requires Shaped(t) && Reserve(t, name).Reserved?
    ensures var i, t' := Reserve(t, name).index, Reserve(t, name).table;
            && i < |t.slots| && !Occupied(t.slots[i]) && (forall j :: 0 <= j < i ==> Occupied(t.slots[j]))
            && |t'.slots| == |t.slots|
            && t'.slots[i] == Slot(Key(name), true, false, Untyped, 0, 0)
            && (forall j :: 0 <= j < |t.slots| && j != i ==> t'.slots[j] == t.slots[j])
            && t'.maxIndex >= i && t'.maxIndex >= t.maxIndex && t'.maxIndex in {i, t.maxIndex}
  {}

  /** Counting: one more, modulo 2^32, and no longer reserved. */
  lemma CountLaw(t: Table, i: nat)
    requires i < |t.slots|
    ensures var t', s := Count(t, i), t.slots[i];
            && |t'.slots| == |t.slots| && t'.maxIndex == t.maxIndex
            && t'.slots[i].count == (if s.count == 4294967295 then 0 else (s.count + 1) % 4294967296)
            && !t'.slots[i].reserved
            && t'.slots[i] == Slot(s.name, t'.slots[i].reserved, s.hasBookkeeping, s.kind,
                                   t'.slots[i].count, s.size)
            && forall j :: 0 <= j < |t.slots| && j != i ==> t'.slots[j] == t.slots[j]
  {}

  /** Dropping: one less, but not below zero, and no longer reserved; the bound only moves when the
      slot becomes free, and then no taken slot is above it. */
  lemma DropLaw(t: Table, i: nat)
    requires i < |t.slots|
    ensures var t', s := Drop(t, i), t.slots[i];
            && |t'.slots| == |t.slots|
            && t'.slots[i].count == (if s.count > 0 then s.count - 1 else 0) && !t'.slots[i].reserved
            && t'.slots[i] == Slot(s.name, t'.slots[i].reserved, s.hasBookkeeping, s.kind,
                                   t'.slots[i].count, s.size)
            && (forall j :: 0 <= j < |t.slots| && j != i ==> t'.slots[j] == t.slots[j])
            && (t'.slots[i].count > 0 ==> t'.maxIndex == t.maxIndex)
            && (t'.slots[i].count == 0 ==>
                  forall j :: t'.maxIndex < j < |t.slots| ==> !Occupied(t'.slots[j]))
  {}

  // ---------------------------------------------------------------------------------------
  // What each operation keeps

  /** Filling a free slot adds one entry. */
  lemma EntriesOfUpdate(slots: seq<Slot>, i: nat, s: Slot)
    requires i < |slots| && !InUse(slots[i]) && InUse(s)
    requires Unique(slots) && Unique(slots[i := s])
    ensures Entries(slots[i := s]) == Entries(slots)[s.name := s]
  {
    var after := slots[i := s];
    assert after[i] == s;
    forall k | k in Entries(after)
      ensures k in Entries(slots)[s.name := s]
      ensures Entries(after)[k] == Entries(slots)[s.name := s][k]
    {
      var j :| 0 <= j < |after| && InUse(after[j]) && after[j].name == k;
      assert j != i ==> after[j] == slots[j];
      assert j != i ==> after[i].name != after[j].name;
    }
    forall k | k in Entries(slots) ensures k in Entries(after) {
      var j :| 0 <= j < |slots| && InUse(slots[j]) && slots[j].name == k;
      assert after[j] == slots[j];
    }
  }

  lemma ReserveSound(t: Table, name: string)
    requires Sound(t)
    requires Reserve(t, name).Reserved?
    ensures Sound(Reserve(t, name).table)
  {
    LookupIsFullScan(t, Key(name));
    assert forall j :: 0 <= j < |t.slots| ==> !Holds(t.slots[j], Key(name));
  }

  /** The outcome of a reservation, in terms of the map: `EEXIST` exactly when the key is
      taken, `ENOSPC` exactly when it is not and every slot is in use; otherwise the map gains
      that key, and nothing else changes. */
  lemma ReserveRefinesMap(t: Table, name: string)
    requires Sound(t)
    ensures Reserve(t, name).Exists? <==> Key(name) in Entries(t.slots)
    ensures Reserve(t, name).NoSpace? <==>
              Key(name) !in Entries(t.slots)
              && forall i :: 0 <= i < |t.slots| ==> InUse(t.slots[i])
    ensures Reserve(t, name).Reserved? ==>
              Sound(Reserve(t, name).table)
              && Entries(Reserve(t, name).table.slots)
                 == Entries(t.slots)[Key(name) := ReservedSlot(Key(name))]
  {
    LookupRefinesMap(t, Key(name));
    if Reserve(t, name).Reserved? {
      ReserveSound(t, name);
      EntriesOfUpdate(t.slots, Reserve(t, name).index, ReservedSlot(Key(name)));
    }
  }

  /** Counting one more user of slot `i` keeps the table sound if and only if the slot is in
      use, or it is below the cached bound and its stale name is nobody else's. */
  lemma CountSoundIff(t: Table, i: nat)
    requires Sound(t) && i < |t.slots| && t.slots[i].count + 1 < UINT_RANGE
    ensures Sound(Count(t, i)) <==>
              InUse(t.slots[i])
              || (i <= t.maxIndex
                  && forall j :: 0 <= j < |t.slots| && InUse(t.slots[j])
                                 ==> t.slots[j].name != t.slots[i].name)
  {
    var after := Count(t, i);
    assert InUse(after.slots[i]);
    assert forall j :: 0 <= j < |t.slots| && j != i ==> after.slots[j] == t.slots[j];
    if Sound(after) && !InUse(t.slots[i]) {
      assert i <= t.maxIndex;
      forall j | 0 <= j < |t.slots| && InUse(t.slots[j])
        ensures t.slots[j].name != t.slots[i].name
      {
        assert after.slots[j] == t.slots[j];
      }
    }
  }

  /** Dropping a user keeps the table sound, whatever the slot. */
  lemma DropSound(t: Table, i: nat)
    requires Sound(t) && i < |t.slots|
    ensures Sound(Drop(t, i))
    ensures forall j :: 0 <= j < |t.slots| && j != i ==> Drop(t, i).slots[j] == t.slots[j]
  {
    var after := Drop(t, i);
    assert forall j :: 0 <= j < |t.slots| && j != i ==> after.slots[j] == t.slots[j];
    assert InUse(after.slots[i]) ==> InUse(t.slots[i]);
  }

  /** In a drop from a sound table the debug check has nothing to repair. */
  lemma DropCheckSilent(t: Table, i: nat)
    requires Sound(t) && i < |t.slots| && Dropped(t.slots[i]).count == 0
    ensures var slots := t.slots[i := Dropped(t.slots[i])];
            var bound := if i == t.maxIndex then Top(slots, i) else t.maxIndex;
            Checked(slots, bound) == bound
  {
    var slots := t.slots[i := Dropped(t.slots[i])];
    assert forall j :: t.maxIndex < j < |slots| ==> slots[j] == t.slots[j] || j == i;
    assert !InUse(slots[i]);
  }

  /** From any table, a drop that frees a slot leaves no slot in use above the bound: the debug check
      raises a bound that was too low. */
  lemma DropRepairsBound(t: Table, i: nat, j: nat)
    requires i < |t.slots| && Dropped(t.slots[i]).count == 0
    requires j < |t.slots| && InUse(Drop(t, i).slots[j])
    ensures j <= Drop(t, i).maxIndex
  {}

  /** A slot that was given up by all its users at once. */
  function Freed(s: Slot): Slot { s.(count := 0, reserved := false) }

  /** Force-clearing frees the slot and touches no other, whatever the table. */
  lemma {:induction false} ClearedSlots(t: Table, i: nat)
    requires i < |t.slots|
    ensures Cleared(t, i).slots == t.slots[i := Freed(t.slots[i])]
    decreases t.slots[i].count
  {
    var t' := Drop(t, i);
    if t'.slots[i].count > 0 {
      ClearedSlots(t', i);
    }
  }

  /** On a sound table it keeps the bound exact and the names unique. */
  lemma {:induction false} ClearedSound(t: Table, i: nat)
    requires Sound(t) && i < |t.slots|
    ensures Sound(Cleared(t, i))
    decreases t.slots[i].count
  {
    DropSound(t, i);
    var t' := Drop(t, i);
    if t'.slots[i].count > 0 {
      ClearedSound(t', i);
    }
  }

  /** After the clear the name is gone and every other name is found where it was. */
  lemma ClearedLookup(t: Table, name: string, other: string)
    requires Sound(t) && Lookup(t, Key(name)).Some?
    ensures var after := Cleared(t, Lookup(t, Key(name)).value);
            && Shaped(after)
            && Lookup(after, Key(name)).None?
            && (Key(other) != Key(name) ==> Lookup(after, Key(other)) == Lookup(t, Key(other)))
  {
    var i := Lookup(t, Key(name)).value;
    var after := Cleared(t, i);
    ClearedSlots(t, i);
    ClearedSound(t, i);
    LookupIsFullScan(t, Key(name));
    LookupIsFullScan(t, Key(other));
    LookupIsFullScan(after, Key(name));
    LookupIsFullScan(after, Key(other));
    assert forall j :: 0 <= j < |t.slots| && j != i ==> after.slots[j] == t.slots[j];
    assert !InUse(after.slots[i]);
  }
}
