/** The shared structure `urt_internal` and the operations that run on it under the global
    semaphore (src/registry.c, src/setup_common.c).  Each method is proved to do to the table
    what the function of the same purpose in `RegistryTable` says. */
module Registry {
  import opened Common
  import opened Names
  import opened RegistryTable
  import opened Odometer
  import opened Backend
  import FreeNames

  datatype Errno = EEXIST | ENOSPC

  datatype Result<+T> = Ok(value: T) | Err(error: Errno)

  lemma SilentIfSound(t: Table, i: nat)
    requires i < |t.slots| && Dropped(t.slots[i]).count == 0
    ensures Sound(t) ==>
              var slots := t.slots[i := Dropped(t.slots[i])];
              var bound := if i == t.maxIndex then Top(slots, i) else t.maxIndex;
              Checked(slots, bound) == bound
  {
    if Sound(t) {
      DropCheckSilent(t, i);
    }
  }

  /** The locked operations keep tables sound. */
  lemma ReserveKeepsSound(t: Table, name: string)
    requires Shaped(t)
    ensures Sound(t) && Reserve(t, name).Reserved? ==> Sound(Reserve(t, name).table)
  {
    if Sound(t) && Reserve(t, name).Reserved? {
      ReserveSound(t, name);
    }
  }

  lemma CountKeepsSound(t: Table, i: nat)
    requires i < |t.slots|
    ensures Sound(t) && InUse(t.slots[i]) && t.slots[i].count + 1 < UINT_RANGE ==> Sound(Count(t, i))
  {
    if Sound(t) && InUse(t.slots[i]) && t.slots[i].count + 1 < UINT_RANGE {
      CountSoundIff(t, i);
    }
  }

  lemma DropKeepsSound(t: Table, i: nat)
    requires i < |t.slots|
    ensures Sound(t) ==> Sound(Drop(t, i)) && Sound(Cleared(t, i))
  {
    if Sound(t) {
      DropSound(t, i);
      ClearedSound(t, i);
    }
  }

  class Registry {
    const objects: array<Slot>
    var maxIndex: nat
    const nextFreeName: array<char>
    var namesExhausted: bool
    var semaphore: nat

    ghost function Contents(): Table
      reads this, objects
    {
      Table(objects[..], maxIndex)
    }

    ghost function Counter(): string
      reads nextFreeName
      requires nextFreeName.Length > NAME_LEN
    {
      nextFreeName[..NAME_LEN]
    }

    ghost function Generator(): FreeNames.Generator
      reads this, nextFreeName
      requires nextFreeName.Length > NAME_LEN && WellFormed(Counter())
    {
      FreeNames.Generator(Number(Counter()), namesExhausted)
    }

    /** What holds even after a crash: the memory has its shape. */
    ghost predicate Shape()
      reads this, objects
    {
      && objects.Length > 0 && Shaped(Contents()) && KeyedNames(objects[..])
      && nextFreeName.Length > NAME_LEN
    }

    ghost predicate Valid()
      reads this, objects, nextFreeName
    {
      Shape() && Sound(Contents()) && WellFormed(Counter())
    }

    /** A zeroed structure and `urt_registry_init`. */
    constructor (size: nat)
      requires size > 0
      ensures Valid() && fresh(objects) && fresh(nextFreeName) && semaphore == 1
      ensures Contents() == Table(seq(size, _ => FREE_SLOT), 0)
      ensures Generator() == FreeNames.FIRST
    {
      objects := new Slot[size](_ => FREE_SLOT);
      nextFreeName := new char[NAME_LEN + 1](_ => NUL);
      maxIndex, namesExhausted, semaphore := 0, false, 1;
      new;
      ResetName(nextFreeName);
      KeyUnique("", "");
      InitialCounter();
      assert objects[..] == seq(size, _ => FREE_SLOT);
    }

    // -------------------------------------------------------------------------------------
    // Lookup and reservation

    /** `_find_by_name` */
    method FindByName(name: string) returns (found: Option<nat>)
      requires Shape()
      ensures found == Lookup(Contents(), Key(name))
    {
      var i, max := 0, maxIndex;
      while i <= max
        invariant i <= max + 1 && max == maxIndex
        invariant Search(objects[..], Key(name), 0, max + 1) == Search(objects[..], Key(name), i, max + 1)
      {
        var ro := objects[i];
        if ro.reserved || ro.count != 0 {
          var eq := NameEq(ro.name, name);
          assert Key(objects[..][i].name) == ro.name;
          if eq {
            return Some(i);
          }
        }
        i := i + 1;
      }
      return None;
    }

    /** The loop of `urt_reserve_name` that looks for a free slot. */
    method FindFreeSlot() returns (i: nat)
      requires Shape()
      ensures i == FirstFree(objects[..], 0)
    {
      i := 0;
      while i < objects.Length
        invariant i <= objects.Length
        invariant FirstFree(objects[..], 0) == FirstFree(objects[..], i)
      {
        if !objects[i].reserved && objects[i].count == 0 {
          break;
        }
        i := i + 1;
      }
    }

    /** Its writes. */
    method WriteReservation(i: nat, name: string)
      requires Shape() && i < objects.Length
      modifies this`maxIndex, objects
      ensures Shape()
      ensures Contents() == Table(old(objects[..])[i := ReservedSlot(Key(name))],
                                  if i > old(maxIndex) then i else old(maxIndex))
    {
      objects[i] := FREE_SLOT.(reserved := true);
      var copy := NameCopy(name);
      objects[i] := objects[i].(name := copy);
      if i > maxIndex {
        maxIndex := i;
      }
      KeyOfKey(name);
    }

    /** `urt_reserve_name` */
    method ReserveName(name: string) returns (r: Result<nat>)
      requires Shape() && semaphore == 1
      modifies this, objects
      ensures Shape() && semaphore == 1
      ensures namesExhausted == old(namesExhausted)
      ensures match Reserve(old(Contents()), name)
              case Exists => r == Err(EEXIST) && Contents() == old(Contents())
              case NoSpace => r == Err(ENOSPC) && Contents() == old(Contents())
              case Reserved(table, index) => r == Ok(index) && Contents() == table
      ensures old(Valid()) ==> Valid()
    {
      ReserveKeepsSound(Contents(), name);
      semaphore := semaphore - 1;
      var found := FindByName(name);
      if found.Some? {
        semaphore := semaphore + 1;
        return Err(EEXIST);
      }
      var i := FindFreeSlot();
      if i == objects.Length {
        semaphore := semaphore + 1;
        return Err(ENOSPC);
      }
      WriteReservation(i, name);
      semaphore := semaphore + 1;
      return Ok(i);
    }

    /** The two writes that count a user. */
    method CountUser(ro: nat)
      requires Shape() && ro < objects.Length
      modifies objects
      ensures Shape() && Contents() == Count(old(Contents()), ro)
      ensures old(Valid()) && InUse(old(objects[ro])) && old(objects[ro]).count + 1 < UINT_RANGE ==> Valid()
    {
      CountKeepsSound(Contents(), ro);
      objects[ro] := objects[ro].(count := (objects[ro].count + 1) % UINT_RANGE);
      objects[ro] := objects[ro].(reserved := false);
    }

    /** `urt_inc_name_count` */
    method IncNameCount(ro: nat)
      requires Shape() && ro < objects.Length && semaphore == 1
      modifies this, objects
      ensures Shape() && semaphore == 1 && namesExhausted == old(namesExhausted)
      ensures Contents() == Count(old(Contents()), ro)
      ensures old(Valid()) && InUse(old(objects[ro])) && old(objects[ro]).count + 1 < UINT_RANGE ==> Valid()
    {
      semaphore := semaphore - 1;
      CountUser(ro);
      semaphore := semaphore + 1;
    }

    /** `urt_get_object_by_name_and_inc_count` */
    method GetObjectByNameAndIncCount(name: string) returns (found: Option<nat>)
      requires Shape() && semaphore == 1
      modifies this, objects
      ensures Shape() && semaphore == 1 && namesExhausted == old(namesExhausted)
      ensures found == Lookup(old(Contents()), Key(name))
      ensures Contents() == if found.None? then old(Contents())
                            else Count(old(Contents()), found.value)
      ensures old(Valid()) && (found.Some? ==> old(objects[found.value]).count + 1 < UINT_RANGE) ==> Valid()
    {
      semaphore := semaphore - 1;
      found := FindByName(name);
      if found.Some? {
        CountUser(found.value);
      }
      semaphore := semaphore + 1;
    }

    // -------------------------------------------------------------------------------------
    // Dropping and clearing

    /** `_internal_mem_check`: reports an error exactly when the cached bound was too low. */
    method InternalMemCheck() returns (errorGiven: bool)
      requires Shape()
      modifies this`maxIndex
      ensures Shape()
      ensures maxIndex == Checked(objects[..], old(maxIndex))
      ensures errorGiven <==> maxIndex != old(maxIndex)
    {
      errorGiven := false;
      var i := 0;
      while i < objects.Length
        invariant i <= objects.Length && Shape()
        invariant old(maxIndex) <= maxIndex
        invariant maxIndex == old(maxIndex) || InUse(objects[maxIndex])
        invariant forall j :: 0 <= j < i && InUse(objects[j]) ==> j <= maxIndex
        invariant errorGiven <==> maxIndex != old(maxIndex)
      {
        if (objects[i].reserved || objects[i].count > 0) && i > maxIndex {
          maxIndex := i;
          if !errorGiven {
            errorGiven := true;
          }
        }
        i := i + 1;
      }
      ghost var top := Top(objects[..], objects.Length - 1);
      assert top > 0 ==> InUse(objects[top]);
    }

    /** The loop of `_dec_count_common` that lowers the bound. */
    method LowerMaxIndex(start: nat)
      requires Shape() && start < objects.Length
      modifies this`maxIndex
      ensures Shape() && maxIndex == Top(objects[..], start)
    {
      var index: nat := start;
      while index > 0 && !objects[index].reserved && objects[index].count == 0
        invariant index <= start
        invariant Top(objects[..], start) == Top(objects[..], index)
      {
        index := index - 1;
      }
      maxIndex := index;
    }

    /** The first lines of `_dec_count_common`. */
    method Decrement(ro: nat)
      requires Shape() && ro < objects.Length
      modifies objects
      ensures Shape() && objects[..] == old(objects[..])[ro := Dropped(old(objects[ro]))]
    {
      if objects[ro].count > 0 {
        objects[ro] := objects[ro].(count := objects[ro].count - 1);
      }
      objects[ro] := objects[ro].(reserved := false);
    }

    /** Its last lines, for a slot that has just become free. */
    method SettleBound(ro: nat) returns (errorGiven: bool)
      requires Shape() && ro < objects.Length
      modifies this`maxIndex
      ensures Shape()
      ensures var bound := if ro == old(maxIndex) then Top(objects[..], ro) else old(maxIndex);
              maxIndex == Checked(objects[..], bound) && (errorGiven <==> maxIndex != bound)
    {
      if ro == maxIndex {
        LowerMaxIndex(ro);
      }
      errorGiven := InternalMemCheck();
    }

    /** `_dec_count_common`; `release` is the back-end callback, if there is one. */
    method DecCountCommon(ro: nat, release: Option<Space>, os: OsObjects) returns (errorGiven: bool)
      requires Shape() && ro < objects.Length
      modifies this`maxIndex, objects, os
      ensures Shape() && Contents() == Drop(old(Contents()), ro)
      ensures os.names == match release
                          case None => old(os.names)
                          case Some(space) =>
                            Released(old(os.names), space, Dropped(old(objects[ro])))
      ensures Sound(old(Contents())) ==> !errorGiven
    {
      ghost var t := Contents();
      errorGiven := false;
      Decrement(ro);
      if release.Some? {
        os.Release(release.value, objects[ro]);
      }
      if objects[ro].count > 0 {
        return;
      }
      errorGiven := SettleBound(ro);
      SilentIfSound(t, ro);
    }

    /** `urt_dec_name_count` */
    method DecNameCount(ro: nat, release: Option<Space>, os: OsObjects)
      requires Shape() && ro < objects.Length && semaphore == 1
      modifies this, objects, os
      ensures Shape() && semaphore == 1 && namesExhausted == old(namesExhausted)
      ensures Contents() == Drop(old(Contents()), ro)
      ensures os.names == match release
                          case None => old(os.names)
                          case Some(space) =>
                            Released(old(os.names), space, Dropped(old(objects[ro])))
      ensures old(Valid()) ==> Valid()
    {
      DropKeepsSound(Contents(), ro);
      semaphore := semaphore - 1;
      var errorGiven := DecCountCommon(ro, release, os);
      semaphore := semaphore + 1;
    }

    /** The loop of `urt_force_clear_name`: `decrements` counts the calls of `_dec_count_common`. */
    method DropAll(ro: nat, os: OsObjects) returns (decrements: nat)
      requires Shape() && ro < objects.Length
      modifies this`maxIndex, objects, os
      ensures Shape() && Contents() == Cleared(old(Contents()), ro) && os.names == old(os.names)
      ensures decrements == if old(objects[ro]).count == 0 then 1 else old(objects[ro]).count
    {
      var errorGiven := DecCountCommon(ro, None, os);
      decrements := 1;
      while objects[ro].count > 0
        invariant Shape() && os.names == old(os.names)
        invariant decrements + objects[ro].count
                  == (if old(objects[ro]).count == 0 then 1 else old(objects[ro]).count)
        invariant Cleared(old(Contents()), ro)
                  == if objects[ro].count > 0 then Cleared(Contents(), ro) else Contents()
        decreases objects[ro].count
      {
        errorGiven := DecCountCommon(ro, None, os);
        decrements := decrements + 1;
      }
    }

    /** `urt_force_clear_name` */
    method ForceClearName(name: string, os: OsObjects) returns (decrements: nat)
      requires Shape() && semaphore == 1
      modifies this, objects, os
      ensures Shape() && semaphore == 1 && namesExhausted == old(namesExhausted)
      ensures match Lookup(old(Contents()), Key(name))
              case None =>
                decrements == 0 && Contents() == old(Contents()) && os.names == old(os.names)
              case Some(i) =>
                && decrements == (if old(objects[i]).count == 0 then 1 else old(objects[i]).count)
                && Contents() == Cleared(old(Contents()), i)
                && os.names == ForceUnlinked(old(os.names), old(objects[i]))
      ensures old(Valid()) ==> Valid()
    {
      semaphore := semaphore - 1;
      decrements := 0;
      var found := FindByName(name);
      if found.Some? {
        var ro := found.value;
        DropKeepsSound(Contents(), ro);
        os.ForceUnlink(objects[ro]);
        decrements := DropAll(ro, os);
      }
      semaphore := semaphore + 1;
    }

    // -------------------------------------------------------------------------------------
    // Free names

    /** Copy the counter out and increment it, whatever it holds. */
    method TakeName() returns (name: string, ret: int)
      requires nextFreeName.Length > NAME_LEN
      modifies nextFreeName
      ensures name == Key(old(Counter()))
      ensures (Counter(), ret) == Incremented(old(Counter()))
    {
      name := NameCopy(nextFreeName[..NAME_LEN]);
      ghost var carries;
      ret, carries := IncrementName(nextFreeName);
    }

    /** One turn of the search: `again` unless the name will do. */
    method TryName() returns (name: string, again: bool)
      requires Shape()
      modifies nextFreeName
      ensures Shape() && name == Key(old(Counter()))
      ensures Counter() == Incremented(old(Counter())).0
      ensures again == FreeNames.Rejected(Contents(), old(Counter()))
    {
      KeyOfKey(nextFreeName[..NAME_LEN]);
      var ret;
      name, ret := TakeName();
      var found := FindByName(name);
      again := ret < 0 || found.Some?;
    }

    /** `_check_and_get_free_name`, whatever the counter holds.  With a free name it terminates,
        because no counter stays malformed and because a well-formed one comes to every name. */
    method CheckAndGetFreeName() returns (name: string, steps: nat)
      requires Shape() && FreeNames.SomeFree(Contents())
      modifies nextFreeName
      ensures Shape() && Counter() == Advanced(old(Counter()), steps)
      ensures FreeNames.Stops(Contents(), old(Counter()), name, steps)
    {
      ghost var t, s := Contents(), Counter();
      ghost var last := FreeNames.SearchEnds(t, s);
      name, steps := "", 0;
      var again := true;
      while again
        invariant Shape() && Contents() == t && Counter() == Advanced(s, steps)
        invariant again ==> FreeNames.AllRejected(t, s, steps) && steps <= last
        invariant !again ==> FreeNames.Stops(t, s, name, steps)
        decreases again, last - steps
      {
        FreeNames.SearchTurn(t, s, steps, last);
        name, again := TryName();
        steps := steps + 1;
      }
    }

    /** `urt_get_free_name`.  On a well-formed counter it never fails, and the name and the counter
        are those of `FreeNames.Call`; on any other it does what the counter's contents say. */
    method GetFreeName() returns (r: Result<string>, steps: nat)
      requires Shape() && semaphore == 1 && (namesExhausted ==> FreeNames.SomeFree(Contents()))
      modifies this, nextFreeName
      ensures Shape() && semaphore == 1 && Contents() == old(Contents())
      ensures old(namesExhausted) ==> r.Ok? && FreeNames.Stops(Contents(), old(Counter()), r.value, steps)
      ensures !old(namesExhausted) ==>
                steps == 1 && r == if Incremented(old(Counter())).1 < 0 then Err(ENOSPC)
                                   else Ok(Key(old(Counter())))
      ensures Counter() == Advanced(old(Counter()), steps)
      ensures namesExhausted == (old(namesExhausted) || Incremented(old(Counter())).1 != 0)
      ensures WellFormed(old(Counter())) ==>
                && WellFormed(Counter()) && r.Ok?
                && FreeNames.Call(Contents(), old(Generator()), r.value, steps, Generator())
      ensures old(Valid()) ==> Valid()
    {
      ghost var s := Counter();
      semaphore := semaphore - 1;
      if namesExhausted {
        var name;
        name, steps := CheckAndGetFreeName();
        r := Ok(name);
      } else {
        var name, ret := TakeName();
        steps := 1;
        assert Advanced(s, 1) == Incremented(Advanced(s, 0)).0;
        if ret != 0 {
          namesExhausted := true;
        }
        r := if ret < 0 then Err(ENOSPC) else Ok(name);
      }
      semaphore := semaphore + 1;
      if WellFormed(s) {
        FreeNames.CallOnWellFormed(Contents(), s, old(namesExhausted),
                                   if r.Ok? then r.value else Key(s), steps);
      }
    }

    // -------------------------------------------------------------------------------------
    // Recovery

    /** `urt_recover`: from whatever a crash left in the table, the bound becomes exact and
        a semaphore that was locked or free ends up free; slots and names are not touched. */
    method Recover()
      requires Shape()
      modifies this`maxIndex, this`semaphore
      ensures Shape() && Exact(Contents()) && objects[..] == old(objects[..])
      ensures maxIndex == Top(objects[..], objects.Length - 1)
      ensures semaphore == if old(semaphore) == 0 then 1 else old(semaphore)
    {
      if semaphore > 0 {
        semaphore := semaphore - 1;
      }
      ghost var locked := semaphore;
      maxIndex := 0;
      var i := 0;
      while i < objects.Length
        invariant i <= objects.Length && Shape() && semaphore == locked
        invariant maxIndex == 0 || (maxIndex < i && InUse(objects[maxIndex]))
        invariant forall j :: 0 <= j < i && InUse(objects[j]) ==> j <= maxIndex
      {
        if (objects[i].reserved || objects[i].count > 0) && maxIndex < i {
          maxIndex := i;
        }
        i := i + 1;
      }
      ExactIffTop(Contents());
      semaphore := semaphore + 1;
    }
  }
}
