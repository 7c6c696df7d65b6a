# Verified model of the URT core

URT (Unified Real-Time Interface) lets cooperating processes create, attach to and drop named shared
objects: memory, semaphores, mutexes, rwlocks and condition variables. This project models the parts
of it where many processes or many calls have to agree, for the POSIX back-end, and proves what they
keep.

- **The registry** (`Names`, `RegistryTable`, `Registry`, `Backend`). The shared table as a class with
  its array, its cached bound `objects_max_index` and its global semaphore. Every locked operation is
  a method proved equal to a function on tables, and those functions refine a finite map from names
  to entries.
- **Many processes** (`Protocol`, `ProtocolProofs`, `ProtocolTheorems`, `ProtocolProgress`, `ProtocolRuns`).
  `SHOBJ_NEW`, `SHOBJ_ATTACH` and the detach functions as sequences of steps that any number of calls
  interleave arbitrarily over one table, one operating-system namespace and the book-keeping words inside
  the objects; processes die between any two steps, and names are force-cleared. The invariant relates
  counts to users living and dead, slots to objects and the cached bound to the real maximum. Nobody gets
  stuck, creating and attaching succeed whenever they can, and everything can always be given back.
- **Crashes** (`Recovery`, `RecoveredNamespace`). A process dies after any of the writes of a locked
  operation, holding the global semaphore, and `urt_recover` is run: what it repairs (the bound, the
  semaphore), and exactly when the names and the operating-system objects come out right although it does
  not look at them.
- **Free names** (`Odometer`, `FreeNames`). The base-37 counter behind `urt_get_free_name`, and whole runs
  of calls while other processes change the registry.
- **The bounded buffer of tests/cond** (`BoundedBuffer`, `BoundedBufferTheorems`). One producer and any
  number of consumers, items and cells, with spurious wake-ups.
- **Cancellable locks and periodic tasks** (`CancellableLocks`, `PeriodicTask`). Loops over absolute
  deadlines, and the period state machine, under arbitrary clocks and answers.
- **Command-line parameters** (`ParamText`, `Params`, `StringParams`, `Arguments`, `CommandLines`, `Leaks`).
  Number conversion follows section 7.22.1.4 of ISO/IEC 9899:2011 (strtol and strtoul, base 10, 64-bit
  `long`). From any text to its value, from the command line to the variables, and from there to `free`.

## Hypotheses of the protocol

Runs are restricted by two predicates. `Protocol.AttachAllowed`: an attach that finds its name finds a
slot that is published and not just reserved, that belongs to the namespace asked for (semaphores
have one, all other kinds share the other), and whose count does not overflow. `Protocol.ClearAllowed`:
a name is force-cleared only when all calls on its slot are those of dead processes, and none of these
died between creating the back-end object and writing the slot's type. Count overflow apart,
`ProtocolTheorems.AttachAllowedIff` and `ProtocolTheorems.ClearAllowedIff` prove that these conditions are
exactly what the invariant needs, and `ProtocolRuns` has a whole run from a fresh registry to the damage
for each way of breaking them.
Beyond that: opening an object fails only when it is absent, a failed creation leaves nothing behind,
and each handle is dropped once. Names need not be canonical for the safety theorems, because creation
uses `O_EXCL` and an unlink goes through the name stored in the slot; canonical names are needed for
creations not to be refused (`ProtocolTheorems.CanonicalNamesNeverClash`).

## Where the code differs from what one would expect

- An attach to a name that is still only reserved takes the reservation away from its creator. If the
  back-end then refuses the attach, the slot is freed under the creator, whose object ends up above
  `objects_max_index` where no lookup finds it; the same name can be reserved a second time
  (`ProtocolRuns.HiddenByAttach`). A force-clear under a living creator does the same
  (`ProtocolRuns.HiddenByClear`). The debug-only `_internal_mem_check` repairs the bound at the next drop
  that frees a slot (`RegistryTable.DropRepairsBound`).
- An attach to a slot whose object exists but is not published takes the reservation away, too. If its handle
  is dropped before the creator publishes, it is the last one, and the object is unlinked under the creator:
  the creator's handle is counted, but no attach can open its name any more
  (`ProtocolRuns.OrphanedByAttach`).
- An attach as an object of the wrong namespace counts before it fails. If the last proper user drops
  its handle in between, nobody unlinks the object (`ProtocolRuns.LeakedByAttach`).
- The type of a slot is written after the object is created. If the creator dies in between, a
  force-clear of the name unlinks nothing (`ProtocolRuns.LeakedByClear`); died anywhere else, it leaves
  nothing that clearing does not give back (`ProtocolTheorems.ClearingGivesBack`).
- A handle that is dropped after its name was force-cleared goes to whoever has the slot by then: it can
  take away another creator's reservation (`ProtocolRuns.StaleDropRobs`).
- `urt_recover` makes the bound exact, but does not look at names. A reservation torn while its slot is
  overwritten or its name copied can leave a second slot under somebody else's name
  (`Recovery.TornNameShadows`). No crash in a reservation does so if and only if no name in use is a prefix
  of the new name or of the stale name in the free slot (`Recovery.ReserveCrashSafeIff`).
- It does not look at the operating-system objects either. A crash in the last user's drop, between the
  decrement and the unlink, leaves an object that no slot owns
  (`RecoveredNamespace.DropCrashAccountedIff`), and creations under its name are refused from then on. A crash
  in a force-clear leaves a slot in use without its object, or the other way round, exactly when the slot and
  the object do not go together (`RecoveredNamespace.ClearCrashAccountedIff`).
- Nor does it look at the free-name counter. A crash inside a carry sets the counter back by 37^n - 1, and
  the next calls issue exactly the names in between a second time, unchecked
  (`FreeNames.ReissuedIff`, `FreeNames.CrashRepeatsIff`); after the longest carry the whole round is repeated
  (`FreeNames.WholeRoundRepeats`).
- doc/urt_utils says that `urt_get_free_name` reserves the name. The code hands it out without touching
  the registry, so distinct names for successive calls come from the counter alone; the bound
  K * (URT_MAX_OBJECTS + 1) <= 37^5 in `FreeNames.SuccessiveNamesDistinct` is what the counter gives.
- A period is repeated when the first clock reading after a wait, made by the next wait or by
  `urt_task_next_period`, is not beyond the start time; a release exactly on time is enough
  (`PeriodicTask.RepeatsIff`). After `urt_task_next_period` the wait's own reading does not matter, however late
  it is (`PeriodicTask.RepeatedLate`).
- `urt_sleep` hands its seconds to `sleep`, whose argument is an `unsigned int`: it covers the time asked
  for exactly up to `PeriodicTask.LONGEST` (`PeriodicTask.SleepCovers`).
- With a stop callback `urt_sem_waitf` returns `EINTR` when interrupted, where the variant without one
  retries: in `CancellableLocks.LockF` an interruption is an `Error`.
- A string array loses one empty text at the end of its list, because the parse ends where nothing follows
  a comma (`StringParams.KeptIff`).
- A string parameter that is named twice, or an argument that fails after some of its strings were
  allocated, leaves strings that nothing frees; exactly these do (`Leaks.ParsedAllHeldIff`).
- A list for a scalar parameter is cut off after its first value without an error; only arrays report
  `E2BIG` (`Params.RoundTrip`).
- In an argument whose value is a lone quote (`name="`) the opening quote is taken for the closing one. The
  pointer to the value then passes the terminator just written and stops at the argument's own, so the
  value is empty (`ParamText.ValueInStorage`, `ParamText.LoneQuoteIsEmpty`).

## Model

| member | source | states |
|---|---|---|
| `Names.KeyUnique` | src/registry.c:26-53 | the part of a name the registry looks at is the only NUL-free prefix of at most six characters that ends at the sixth character or at a NUL |
| `Names.NameEq` | src/registry.c:26-40 | `_name_eq` holds exactly when both names have the same key |
| `Names.NameCopy` | src/registry.c:42-53 | `_name_cpy` stores exactly the key, nothing of what follows it |
| `Names.ConvertName` | sys/posix/src/names.c:23-44 | character by character: capitals, digits, `_` and `$` are copied, small letters become capitals, the conversion ends at the first other character or after the sixth, and an empty result is refused |
| `Names.OsNameOfKey` | sys/posix/src/names.c:28-39 | the operating system sees no more of a name than the registry does, so converting the caller's name and converting the stored one agree |
| `Names.CanonicalIffUnchanged` | sys/posix/src/names.c:28-38 | conversion is lossless exactly on canonical names |
| `Names.OsNameInjective` | sys/posix/src/names.c:28-38 | canonical names have the same operating-system name exactly when the registry identifies them |
| `Names.StoredNamesInjective` | sys/posix/src/names.c:28-38 | stored canonical names always convert, and differently when they differ |
| `Names.OsNameFoldsAndTruncates` | sys/posix/src/names.c:29-34 | names the registry keeps apart that fall together: by case, and by a truncating character |
| `RegistryTable.ExactIffTop` | src/setup_common.c:156-162 | the cached bound is exact, i.e. every index above it is free and it is itself in use unless it is 0, exactly when it is the value a scan computes |
| `RegistryTable.LookupIsFullScan` | src/registry.c:76-90 | with an exact bound the bounded lookup agrees with a scan of all slots |
| `RegistryTable.LookupFinds` | src/registry.c:76-90 | in a sound table a name in use is found, in its own slot |
| `RegistryTable.LookupRefinesMap` | src/registry.c:76-90 | a lookup is a lookup in the finite map the table represents |
| `RegistryTable.LookupLaw` | src/registry.c:82-89 | the lookup finds the first slot, not above the bound, that is reserved or counted and has the name |
| `RegistryTable.ReserveLaw` | src/registry.c:104-118 | a reservation takes the first slot that is neither reserved nor counted, resets every field of it, and raises the bound to cover it |
| `RegistryTable.CountLaw` | src/registry.c:138-139 | one more, modulo 2^32, no longer reserved, every other field and slot as before |
| `RegistryTable.DropLaw` | src/registry.c:172-191 | one less but not below zero, no longer reserved, every other field and slot as before; the bound moves only when the slot becomes free |
| `RegistryTable.ReserveSound` | src/registry.c:92-122 | a reservation keeps the bound exact and the names unique |
| `RegistryTable.ReserveRefinesMap` | src/registry.c:92-133 | `EEXIST` exactly when the key is present, `ENOSPC` exactly when it is absent and all slots are in use; otherwise the map gains exactly that key and is else unchanged |
| `RegistryTable.EntriesOfUpdate` | src/registry.c:113-116 | filling a free slot adds one entry to the map and touches no other |
| `RegistryTable.CountSoundIff` | src/registry.c:135-141 | counting a user keeps the table sound if and only if the slot is in use, or lies below the bound under a stale name that nobody else has |
| `RegistryTable.DropSound` | src/registry.c:167-194 | a drop keeps the bound exact and the names unique, and changes no other slot |
| `RegistryTable.DropCheckSilent` | src/registry.c:184-193 | in a drop from a sound table the debug check finds nothing to raise |
| `RegistryTable.DropRepairsBound` | src/registry.c:144-162 | after a drop that frees a slot, from any table, no slot in use is above the bound |
| `RegistryTable.ClearedSlots` | src/registry.c:205-221 | a force-clear frees the slot and leaves all others alone, whatever the table |
| `RegistryTable.ClearedSound` | src/registry.c:205-221 | on a sound table it keeps the bound exact and the names unique |
| `RegistryTable.ClearedLookup` | src/registry.c:205-221 | afterwards the name is not found, and every other name is found where it was |
| `Registry.Registry.constructor` | src/registry.c:55-74 | an empty table with bound 0, a counter that reads 0, a free semaphore |
| `Registry.Registry.FindByName` | src/registry.c:76-90 | the loop over the slots is the bounded lookup of the name's key |
| `Registry.Registry.FindFreeSlot` | src/registry.c:103-109 | the loop ends at the least free slot, or at the size of the table |
| `Registry.Registry.WriteReservation` | src/registry.c:113-118 | the slot holds the key and is reserved, all else in it is reset, and the bound covers it |
| `Registry.Registry.ReserveName` | src/registry.c:92-133 | the loops and early exits realise `Reserve`: result, error code and whole new table; the semaphore is given back on every path; a valid structure stays valid |
| `Registry.Registry.IncNameCount` | src/registry.c:135-141 | one more user, no longer reserved, everything else unchanged |
| `Registry.Registry.GetObjectByNameAndIncCount` | src/registry.c:223-237 | the slot found is counted; when none is found nothing changes |
| `Registry.Registry.InternalMemCheck` | src/registry.c:144-162 | raises the bound to the greatest index in use, and reports an error exactly when it had to |
| `Registry.Registry.LowerMaxIndex` | src/registry.c:187-190 | the loop ends at the greatest index in use that is not above its start |
| `Registry.Registry.Decrement` | src/registry.c:172-174 | one user less, no longer reserved, no other slot changed |
| `Registry.Registry.SettleBound` | src/registry.c:184-193 | the bound is lowered to the greatest index in use, or left alone, and the debug check reports exactly when that was too low |
| `Registry.Registry.DecCountCommon` | src/registry.c:167-194 | the whole new table, the effect of the release callback on the namespace, and that the debug check is silent on a sound table |
| `Registry.Registry.DecNameCount` | src/registry.c:196-203 | the same under the semaphore, which is given back; a valid structure stays valid |
| `Registry.Registry.DropAll` | src/registry.c:215-218 | the loop makes exactly max(1, count) decrements, and the new table is `Cleared` |
| `Registry.Registry.ForceClearName` | src/registry.c:205-221 | the same for the slot found, whose object is unlinked in its own namespace; without one nothing changes; a valid structure stays valid |
| `Registry.Registry.TakeName` | src/registry.c:317-321 | whatever the counter holds: a copy of it up to a NUL, and the counter and the return value of one increment |
| `Registry.Registry.TryName` | src/registry.c:296-298 | one turn of the search: it goes on exactly when the increment reports an error or the name is found |
| `Registry.Registry.CheckAndGetFreeName` | src/registry.c:287-299 | on any table and any counter contents, provided some generated name is not found: terminates, and returns the first contents of the counter that are not passed over |
| `Registry.Registry.GetFreeName` | src/registry.c:306-331 | name, error, counter and exhaustion flag for any counter contents; on a well-formed counter it never fails, the counter stays well formed, and all follow `FreeNames.Call`; the table is untouched |
| `Registry.Registry.Recover` | src/setup_common.c:138-170 | from any table the bound becomes exact, slots are untouched, a semaphore found locked or free ends up free |
| `Backend.OsObjects.Release` | sys/posix/src/mem.c:107-120 | the release callback unlinks the slot's converted name exactly when no user is left |
| `Backend.OsObjects.ForceUnlink` | sys/posix/src/setup.c:30-52 | the object is unlinked in the namespace of its type; an untyped slot or a bad name unlinks nothing |
| `Backend.SpaceLaw` | sys/posix/src/setup.c:37-47 | semaphores have a namespace of their own, memory, mutexes, rwlocks and conditions share the other |
| `Backend.UnlinkLaw` | sys/posix/src/setup.c:30-52 | the release callback unlinks for the last user only, a force-clear for slots with a type, each in its namespace |
| `ProtocolProofs.CreatorIsAlone` | src/new_common.c:31-46 | the call that reserved a slot is the only call on it until it publishes or aborts |
| `ProtocolProofs.ReserveInv` | src/new_common.c:31-33 | reserving keeps the protocol invariant |
| `ProtocolProofs.CreateInv` | src/new_common.c:35-37 | creating the back-end object, or being refused, keeps the invariant |
| `ProtocolProofs.BookInv` | src/new_common.c:39-44 | writing the book-keeping word, outside any lock, keeps the invariant |
| `ProtocolProofs.BookedOk` | sys/posix/include/urt_sys_internal.h:27-53 | after the book-keeping a call finds its own slot through the object or the semaphore handle |
| `ProtocolProofs.PublishInv` | src/new_common.c:46-47 | publishing keeps the invariant |
| `ProtocolProofs.AttachInv` | src/new_common.c:61-63 | an allowed attach keeps the invariant |
| `ProtocolProofs.OpenFindsBirth` | src/new_common.c:65-67 | a counted attach opens the object created for the slot's current name |
| `ProtocolProofs.OpenInv` | src/new_common.c:65-70 | opening keeps the invariant |
| `ProtocolProofs.AbortInv` | src/new_common.c:48-51 | giving a reservation back keeps the invariant |
| `ProtocolProofs.HandleKnowsSlot` | sys/posix/src/mem.c:136-140 | the index stored with a live handle is the slot it was counted on |
| `ProtocolProofs.DropInv` | sys/posix/src/mem.c:129-141 | dropping a handle keeps the invariant |
| `ProtocolProofs.DieInv` | src/new_common.c:24-78 | a process that dies between two steps keeps the invariant |
| `ProtocolProofs.ForceUnlinkExact` | sys/posix/src/setup.c:30-52 | on a slot in use with a type a force-clear unlinks exactly the object created for it; without a type it unlinks nothing |
| `ProtocolProofs.ClearInv` | src/registry.c:205-221 | an allowed force-clear keeps the invariant |
| `ProtocolProofs.NoFailedAttach` | src/new_common.c:74-77 | in allowed runs no counted attach is ever refused by the back-end |
| `ProtocolProofs.StepInv` | src/new_common.c:24-78 | every allowed step of any call, every death and every allowed force-clear keeps the invariant |
| `ProtocolProofs.RunInv` | src/new_common.c:24-78 | the invariant holds in every state of every allowed interleaving |
| `ProtocolTheorems.CountsAreUsers` | src/new_common.c:24-78 | in every reachable state a slot's count is the number of its handles and attaches in progress, plus those that died; it is reserved exactly while one call creates it or died doing so; the two exclude each other |
| `ProtocolTheorems.ObjectOutlivesUsers` | sys/posix/src/mem.c:107-120 | while a slot has users, the object created for its name exists under its converted name, and all of them have mapped that object |
| `ProtocolTheorems.IncarnationStep` | src/new_common.c:24-78 | no allowed step changes the slot of a counted call, or the object created for that slot |
| `ProtocolTheorems.IncarnationKept` | src/new_common.c:61-70 | from the moment a call is counted until it is gone, through all other steps, the slot's object is the same and exists |
| `ProtocolTheorems.AttachOpensTheObject` | src/new_common.c:61-70 | in every allowed run, an attach that is counted in one state and opens in a later one opens the object its name stood for when it was counted |
| `ProtocolTheorems.NamespaceAccounted` | sys/posix/src/mem.c:88-96 | foreign objects are never touched, and every other object is the one created for the current name of a slot in use, in its namespace: a free slot leaves nothing behind |
| `ProtocolTheorems.DropUnlinksLast` | sys/posix/src/lock.c:171-195 | the last drop frees the slot and unlinks exactly its object, any other leaves the namespace alone, and no other slot's object is hit |
| `ProtocolTheorems.EverythingGivenBack` | src/new_common.c:24-78 | once all calls have ended and all handles are dropped, the registry is empty and the namespace is what it was at the start |
| `ProtocolTheorems.ClearingGivesBack` | src/registry.c:205-221 | when all processes have died, none between creating an object and writing its type, a sequence of allowed force-clears empties the registry and restores the namespace |
| `ProtocolTheorems.GivenBackIff` | src/registry.c:205-221 | with all processes dead, clearing can give everything back if and only if none of them died between creating an object and writing its type |
| `ProtocolProgress.NextStepEnabled` | src/new_common.c:24-78 | every living call can take its next step, whatever its phase and kind: a refused creation can give its slot back, a counted attach can open, a handle can be dropped |
| `ProtocolProgress.StartEnabled` | src/new_common.c:24-78 | anybody can start a creation or an attach for any kind at any time |
| `ProtocolProgress.InitialExists` | src/registry.c:55-74 | there is an initial world of any size beside any foreign objects |
| `ProtocolProgress.FinishCall` | src/new_common.c:24-78 | a living call can be brought to its end by steps of its own |
| `ProtocolProgress.CanFinish` | src/new_common.c:24-78 | with all processes alive, steps of the calls begun lead to the empty registry and the namespace of the start |
| `ProtocolProgress.StuckMeansGivenBack` | src/new_common.c:24-78 | when none of them can take a step any more, that state is reached |
| `ProtocolProgress.NewSucceeds` | src/new_common.c:24-47 | a creation whose name is new and convertible, with a slot free and nobody having the back-end's name, ends in a handle for a new object of that name and kind with count 1, and changes nothing else |
| `ProtocolProgress.AttachSucceeds` | src/new_common.c:54-70 | an allowed attach to a name in use ends in a handle for the object of that name, one more user, and nothing else changed |
| `ProtocolProgress.NewThenDrop` | src/new_common.c:24-52 | creating an object and dropping its handle restores the namespace and all slots in use |
| `ProtocolProgress.Refusals` | src/new_common.c:48-51 | a refused reservation, or an attach to an unknown name, changes nothing; a refused creation gives back exactly its slot |
| `ProtocolTheorems.TableStaysSound` | src/registry.c:117-118 | in every state reached by reserve, publish, attach, drop, death and force-clear the bound is exact and the names are unique |
| `ProtocolTheorems.StoredNamesAreKeys` | src/registry.c:113-116 | in every run, allowed or not, slots hold nothing but keys |
| `ProtocolTheorems.CanonicalNamesNeverClash` | sys/posix/src/names.c:23-44 | with canonical names the back-end refuses a reserved name's creation only for a foreign object |
| `ProtocolTheorems.AttachAllowedIff` | src/registry.c:223-237 | an attach that finds its name keeps the invariant if and only if the slot is published and of the namespace asked for |
| `ProtocolTheorems.ClearLeavesObject` | sys/posix/src/setup.c:37-50 | a force-clear after a creator died before writing the type leaves its object, owned by no slot |
| `ProtocolTheorems.ClearAllowedIff` | src/registry.c:205-221 | a force-clear keeps the invariant if and only if every call on the slot has died, and none between creating the object and writing the type |
| `ProtocolRuns.ReservationLost` | src/registry.c:172-191 | a reserved top slot that is counted and dropped, or cleared, is free and the bound is below it |
| `ProtocolRuns.SecondSlotGranted` | src/registry.c:99-118 | a name in use above the bound is not found, and reserving it again breaks uniqueness |
| `ProtocolRuns.AttachToReservedHidesObject` | src/new_common.c:54-78 | from any state of the invariant: a refused attach frees a creator's slot, and the published object ends up above the bound, not found, its name granted again |
| `ProtocolRuns.ClearUnderCreatorHidesObject` | src/registry.c:205-221 | the same by a force-clear under a living creator |
| `ProtocolRuns.OnTopIsReachable` | src/registry.c:92-122 | two reservations in a fresh registry lead to the state that both start from |
| `ProtocolRuns.HiddenByAttach` | src/new_common.c:54-78 | the whole run from a fresh registry to the object hidden by an attach |
| `ProtocolRuns.HiddenByClear` | src/registry.c:205-221 | the whole run from a fresh registry to the object hidden by a force-clear |
| `ProtocolRuns.AttachAcrossNamespacesLeaks` | src/new_common.c:54-78 | from any state of the invariant with a sole handle: an attach of the wrong namespace keeps the last drop from unlinking, and the object stays, owned by no slot |
| `ProtocolRuns.LeakedByAttach` | src/new_common.c:54-78 | the whole run from a fresh registry to that leaked object |
| `ProtocolRuns.LeakedByClear` | sys/posix/src/setup.c:37-50 | the whole run from a fresh registry to an object leaked because its creator died before writing the type |
| `ProtocolRuns.StaleDropRobs` | src/registry.c:167-203 | the whole run in which a handle dropped after a force-clear takes another creator's reservation |
| `ProtocolRuns.AttachToUnpublishedOrphans` | src/new_common.c:54-78 | from any state of the invariant: an attach to a created or booked slot whose handle is dropped again unlinks the object under the creator, which then publishes |
| `ProtocolRuns.OrphanedByAttach` | src/new_common.c:24-78 | the whole runs from a fresh registry to that state, before and after the creator's book-keeping |
| `Recovery.RecoverIdle` | src/setup_common.c:156-162 | recovery leaves an exact bound unchanged |
| `Recovery.WritesBeginAndEnd` | src/registry.c:113-118 | what a crash may leave of each locked operation, force-clear included, ranges from the table before to the table after |
| `Recovery.CrashTears` | src/registry.c:167-194 | a crash at any point touches no slot but the operation's own and leaves the memory its shape; only a reservation can leave a new name |
| `Recovery.RecoveredExact` | src/setup_common.c:156-162 | recovery makes the bound of any table exact, so that lookups agree with full scans |
| `Recovery.CrashAndRecover` | src/setup_common.c:138-170 | from a crash at any point of a locked operation, with the semaphore at 0, `urt_recover` leads to semaphore 1, an exact bound and lookups that agree with full scans, all other slots untouched |
| `Recovery.OthersFoundIff` | src/setup_common.c:156-162 | an object of another slot is found after recovery if and only if the torn slot is not in use under its name at a lower index |
| `Recovery.UniqueAfterCrashIff` | src/registry.c:42-53 | names are unique after a crash if and only if nobody else has the name left in the torn slot |
| `Recovery.UniqueUnlessReserving` | src/registry.c:135-221 | crashes while counting, dropping or clearing never cost uniqueness |
| `Recovery.ReserveCrashSafeIff` | src/registry.c:113-116 | no crash in a reservation costs uniqueness if and only if no name in use is a prefix of the new name or of the stale one in the free slot |
| `Recovery.TornNameShadows` | src/registry.c:113-116 | a crash inside the reservation of `AB` can hide the existing object `A` |
| `Recovery.ShadowIsReachable` | src/registry.c:92-122 | two reservations in a fresh table, the first given back, lead to the table that starts from |
| `RecoveredNamespace.AccountedIff` | sys/posix/src/mem.c:107-120 | when a slot is given up and at most its object unlinked, everything is accounted for if and only if the slot is in use exactly while the object exists |
| `RecoveredNamespace.DropCrashAccountedIff` | src/registry.c:167-194 | a crash in a drop keeps every object accounted for after recovery, unless it is the last user's drop between decrement and unlink; then the object is leaked |
| `RecoveredNamespace.ClearCrashAccountedIff` | src/registry.c:205-221 | a crash in a force-clear keeps every object accounted for if and only if the slot had none, or is in use exactly if it still exists |
| `RecoveredNamespace.ClearCrashBreaks` | src/registry.c:205-221 | for every slot with an object there is a point of the force-clear at which it does not |
| `RecoveredNamespace.ReserveCrashAccounted` | src/registry.c:113-118 | a crash in a reservation always does |
| `RecoveredNamespace.CountCrashAccounted` | src/registry.c:135-141 | so does a crash in counting a user |
| `RecoveredNamespace.LeakedNameRefused` | sys/posix/src/mem.c:88-91 | creating an object under the name of a leaked one is refused |
| `Odometer.ValueOfEncode` | src/registry.c:244-268 | base-37 strings of a given length: reading undoes writing |
| `Odometer.EncodeOfValue` | src/registry.c:244-268 | and writing undoes reading |
| `Odometer.NumberOfFreeName` | src/registry.c:301-305 | every number below 37^5 has a generated name that reads as that number |
| `Odometer.FreeNameOfNumber` | src/registry.c:301-305 | every well-formed counter is the generated name of its number |
| `Odometer.CarryAddsOne` | src/registry.c:244-268 | advancing the last digit that is not `Z` and blanking what follows adds one; without such a digit the number is the greatest |
| `Odometer.InitialCounter` | src/registry.c:69-71 | the initial counter is well formed and reads 0 |
| `Odometer.ResetName` | src/registry.c:272-274 | the reset loop writes the initial counter and nothing beyond it |
| `Odometer.IncrementName` | src/registry.c:239-285 | the in-place loop, for any buffer contents: the new buffer and the return value, internal error included, and what the buffer holds after each write of the carry |
| `Odometer.TornCounter` | src/registry.c:257-267 | a crash between the writes of a carry leaves a well-formed counter, set back by exactly 37^n - 1 for n blanked digits |
| `Odometer.IncrementedNumber` | src/registry.c:239-285 | on a well-formed counter: plus one modulo 37^5, a wrap reported exactly at the top, never an internal error, well formed again |
| `Odometer.IncrementedChar` | src/registry.c:244-284 | for any buffer, character by character: the trailing `Z`s become `_` and the character before them goes up in the order `_`, `0`-`9`, `A`-`Z`; five of them, or a character outside the alphabet, reset the buffer, and the return value says which |
| `Odometer.ResetNearer` | src/registry.c:262-284 | an increment of a malformed counter makes it well formed or brings the reset exactly one nearer |
| `Odometer.WellFormedInTime` | src/registry.c:279-284 | whatever the counter holds, it is well formed after a number of increments that its contents determine |
| `Odometer.FreeNamesAreApart` | src/urt_reserved.h:23-24 | no generated name is equal, for the registry, to a `$`-free name or a reserved name |
| `Odometer.GeneratedConverts` | sys/posix/src/names.c:31-36 | generated names are converted for the operating system without loss |
| `FreeNames.TriedSize` | src/registry.c:294-298 | up to 37^5 successive names are pairwise distinct |
| `FreeNames.TakenFitsSlots` | src/registry.c:294-298 | distinct names in use need as many slots in use |
| `FreeNames.TakenRunBounded` | doc/urt_utils:21-23 | a run of names that are all in use is no longer than the number of slots in use |
| `FreeNames.SmallHasFree` | doc/urt_utils:21-23 | with fewer than 37^5 slots some generated name is not found |
| `FreeNames.SearchEnds` | src/registry.c:294-298 | with such a name the search ends, whatever the counter holds |
| `FreeNames.SearchEndsIff` | doc/urt_utils:21-23 | from a well-formed counter it ends if and only if there is such a name |
| `FreeNames.StopsReaches` | src/registry.c:294-298 | from a well-formed counter it ends in the first name that is not found |
| `FreeNames.CallSteps` | src/registry.c:287-331 | no call moves the counter by more than one past the number of slots in use |
| `FreeNames.FirstRound` | src/registry.c:306-327 | the k-th call from initialisation returns name number k; exhaustion is flagged exactly by the last of the 37^5 calls |
| `FreeNames.FirstRoundIssuesAll` | doc/urt_utils:21-23 | the first round issues every generated name exactly once |
| `FreeNames.AfterCrash` | src/registry.c:257-267 | after v calls and a crash with n digits blanked the k-th call returns name number v - (37^n - 1) + k |
| `FreeNames.ReissuedIff` | src/registry.c:257-267 | exactly the first 37^n - 1 calls after the crash return names that were issued before it |
| `FreeNames.CrashRepeatsIff` | src/registry.c:257-267 | a name is issued twice within the round if and only if a digit was blanked and there is a further call |
| `FreeNames.WholeRoundRepeats` | src/registry.c:270-275 | a crash in the longest carry starts the whole round again, with the exhaustion flag not set |
| `FreeNames.LastNameIsAllCarry` | src/registry.c:270-275 | the last name of the round is the witness for it: its increment carries through all digits |
| `FreeNames.NameIsTravelled` | src/registry.c:287-331 | in every run the k-th name is determined by how far the counter has travelled |
| `FreeNames.SameNameIff` | src/registry.c:287-331 | two calls of a run return the same name if and only if the counter has travelled a multiple of 37^5 between them |
| `FreeNames.SuccessiveNamesDistinct` | src/registry.c:287-331 | K successive calls return pairwise distinct names if K * (URT_MAX_OBJECTS + 1) <= 37^5, however the registry changes between them |
| `Common.RemainderIs` | tests/cond/main.c:62-62 | the ring index, computed by repeated subtraction, is the remainder by the capacity |
| `Common.RemaindersApart` | tests/cond/main.c:62-62 | items within one capacity of each other lie in different cells |
| `BoundedBuffer.RunInv` | tests/cond/main.c:54-72 | ring, mutex and waiting invariants hold in every state of every run |
| `BoundedBuffer.PutInv` | tests/cond/main.c:62-63 | storing an item does not overwrite a pending one |
| `BoundedBuffer.TakeInv` | tests/cond/other.c:67-74 | the item taken is the next one in order, and the error branch is not entered |
| `BoundedBufferTheorems.MutualExclusion` | tests/cond/other.c:55-77 | at most one thread is inside the critical section, and the `break` that leaves the mutex locked is unreachable |
| `BoundedBufferTheorems.FirstInFirstOut` | tests/cond/other.c:72-74 | in every reachable state the values consumed are 0, 1, 2, ... in order, the ring holds exactly the pending items, and the sum is that of the consumed ones |
| `BoundedBufferTheorems.SleepersHaveReason` | tests/cond/other.c:56-64 | an unsignalled producer sleeps only while there is something to consume, an unwoken consumer only while the ring is empty and items are to come; after the last broadcast no consumer waits |
| `BoundedBufferTheorems.WaitersMayWake` | tests/cond/main.c:57-58 | whoever waits may wake up without a signal at any time |
| `BoundedBufferTheorems.InitialExists` | tests/cond/main.c:102-108 | there is an initial state for every number of items, cells and consumers |
| `BoundedBufferTheorems.NoDeadlock` | tests/cond/main.c:54-72 | unless everybody has finished, some thread can take a step of its own |
| `BoundedBufferTheorems.FinishedResult` | tests/cond/main.c:67-72 | a finished run has consumed every item once and in order, and the mutex is free |
| `BoundedBufferTheorems.TestResult` | tests/cond/main.c:151-151 | with 1000 items the sum is 499500 |
| `BoundedBufferTheorems.ProduceDecreases` | tests/cond/main.c:54-72 | every step of the producer brings the end nearer |
| `BoundedBufferTheorems.ConsumeDecreases` | tests/cond/other.c:53-78 | every step of a consumer brings the end nearer |
| `BoundedBufferTheorems.RunsAreBounded` | tests/cond/main.c:54-72 | no run has more than (3K+13)N + 3K + 3 steps, plus four for each spurious wake-up |
| `BoundedBufferTheorems.MaximalRunFinishes` | tests/cond/main.c:54-72 | a run that nobody can continue has finished, with every item consumed |
| `CancellableLocks.TimespecExact` | sys/posix/src/lock.c:214-215 | the conversion to seconds and nanoseconds loses nothing, and is normalised exactly for times from the epoch on or on a whole second |
| `CancellableLocks.LockF` | sys/posix/src/lock.c:203-222 | for every environment and however long it is watched: the k-th wait targets t0 + k * delay; every round before the last was neither stopped nor answered by anything but a time-out; stop gives `ECANCELED`, an acquisition 0, any other error that error; 0 is returned exactly with one acquisition |
| `CancellableLocks.LastRoundUnique` | sys/posix/src/lock.c:208-216 | the round a call ends in is determined by its environment |
| `CancellableLocks.DeadlineNear` | sys/posix/src/lock.c:394-402 | whenever a round begins, its deadline is at most one delay away |
| `CancellableLocks.RoundsBounded` | sys/posix/src/lock.c:394-402 | a request to stop bounds the number of rounds by the time it is made |
| `CancellableLocks.CancellationLatency` | doc/Style:72-75 | once stop stays true the call returns within one delay, plus however late the machine is |
| `CancellableLocks.RetryInterrupted` | sys/posix/src/lock.c:238-240 | the outcome is the first answer that is not an interruption, and there is none exactly as long as all are |
| `PeriodicTask.Sleep` | sys/posix/include/urt_sys_time.h:56-70 | the arguments of the two sleeping calls, which add up to the time requested |
| `PeriodicTask.SleepCovers` | sys/posix/include/urt_sys_time.h:56-70 | at least t and under 1000 ns more is requested, exactly when the seconds fit an `unsigned int` |
| `PeriodicTask.Task.UpdateStartTime` | sys/posix/src/task.c:74-91 | the new state of the three fields, for non-periodic and already calculated tasks too |
| `PeriodicTask.Task.WaitPeriod` | sys/posix/src/task.c:93-100 | the new state, and that the sleep asked for is the one to the new start time |
| `PeriodicTask.Task.NextPeriod` | sys/posix/src/task.c:102-108 | the new state, and that the answer is its start time |
| `PeriodicTask.OnTheGrid` | sys/posix/src/task.c:74-100 | under any mix of calls the start time is the initial one plus a whole number of periods, and advances at most once per wait |
| `PeriodicTask.NextTellsTheWait` | sys/posix/src/task.c:93-108 | every answer between two waits is the time the following wait sleeps to |
| `PeriodicTask.NoEarlyRelease` | sys/posix/src/task.c:98-98 | no wait returns before the period it waits for, unless a signal cuts its sleep short or the seconds do not fit |
| `PeriodicTask.NeverEarlyIff` | sys/posix/include/urt_sys_time.h:56-70 | a wait is sure not to return early if and only if the seconds of its sleep fit, or, where signals cut it short, there is nothing to sleep |
| `PeriodicTask.RepeatsIff` | sys/posix/src/task.c:82-90 | two waits with nothing but next_period calls between them are for the same period if and only if the first clock reading after the first wait is not beyond it |
| `PeriodicTask.RepeatedLate` | sys/posix/src/task.c:82-90 | the instance of a wait that reads the clock far beyond the period and still repeats it |
| `PeriodicTask.CallAdvances` | sys/posix/src/task.c:82-90 | a call of either kind finds the next period open and moves nothing, or opens it and moves the start time by one period at most, and by none only if it is late enough |
| `PeriodicTask.CatchingUp` | sys/posix/src/task.c:74-108 | under any mix of calls a late task is moved on by one period for each period opened, until it is not late any more |
| `PeriodicTask.CaughtUpIff` | sys/posix/src/task.c:74-108 | under any mix of calls a task late by L has caught up if and only if the periods opened, which after a wait are the waits made, amount to at least L |
| `ParamText.ParamMatches` | src/param.c:48-56 | the loop accepts exactly when the text before `=` is the parameter's name, but for `-` in the place of `_` |
| `ParamText.ReadOfDigits` | src/param.c:65-65 | reading a printed number continues with that number |
| `ParamText.ConvertOfDecimal` | src/param.c:58-80 | every in-range value of every integer type, printed, converts to itself, at the end or before a comma |
| `ParamText.ConvertLaw` | src/param.c:58-80 | what any text converts to in any integer type: blanks, a sign and digits at its front are read, the rest is ignored; an empty text is `EINVAL`, a number outside the type `ERANGE`; a minus in an unsigned type counts down from 2^64 |
| `ParamText.EveryTextSplits` | src/param.c:63-65 | every text can be taken apart into these |
| `ParamText.IndexOfConcat` | src/param.c:130-138 | behind the first delimiter stands the rest of the text |
| `ParamText.ValueInStorage` | src/param.c:147-159 | after the closing quote is overwritten the pointer to the value is still inside the argument's storage and points to the value; it is behind the new terminator exactly for a lone quote |
| `ParamText.LoneQuoteIsEmpty` | src/param.c:151-159 | the instance `a="`: the value is empty |
| `Params.FillRead` | src/param.c:178-208 | the conversion loop stores values until they end or the room does, with `E2BIG` exactly in the latter case |
| `Params.VisitedLaw` | src/param.c:207-208 | of any value the loop looks at the whole, and in an array at what follows each comma as long as something does |
| `Params.FillLaw` | src/param.c:178-208 | the loop stores converted texts in order up to the first that does not convert, the end of the room or the last text, and leaves all other elements alone |
| `Params.IntParseLaw` | src/param.c:140-218 | for an integer parameter and any argument: which elements are stored, the error of the first text that fails, `E2BIG`, and that an error leaves the counters alone |
| `Params.VisitedJoined` | src/param.c:207-208 | on a printed list the loop looks at each value once, in order |
| `Params.ValueOfArgument` | src/param.c:147-159 | the value of a printed argument is the list, whether quoted or not |
| `Params.RoundTrip` | src/param.c:140-218 | for every integer parameter, array or scalar, and every non-empty list of in-range values, the printed argument is matched and stored as far as there is room; nothing is lost exactly when there is room for all; `E2BIG` exactly for an array with too long a list, with old counters; a scalar keeps the first value without an error |
| `StringParams.ScalarString` | src/param.c:82-104 | a string parameter points to a fresh copy of the text, with `num` 1; without an allocation the parse fails with `ENOMEM` and changes nothing |
| `StringParams.KeptIff` | src/param.c:207-208 | all texts of a list arrive if and only if there is one only or the last is not empty |
| `StringParams.AllocatedLaw` | src/param.c:96-102 | their copies lie at fresh addresses in order, and nothing else in the heap changes |
| `StringParams.StringRoundTrip` | src/param.c:140-218 | for an array of strings and texts without commas, quoted or not, the elements point to those copies in order as far as there is room, with counters and `E2BIG` as for integers |
| `Arguments.StoreOwned` | src/param.c:96-103 | storing one converted value keeps every stored string live and stored once |
| `Arguments.FillOwned` | src/param.c:178-208 | so does the whole conversion loop, wherever it ends |
| `Arguments.FillSetsPointers` | src/param.c:178-208 | in a string parameter the loop never replaces a pointer by anything else, and leaves no gap when it succeeds |
| `Arguments.ParsedOwned` | src/param.c:140-218 | parsing one argument, successful or not, keeps ownership and keeps `num` within the variable |
| `Arguments.SpreadOwned` | src/param.c:242-257 | an argument that goes to several parameters keeps ownership |
| `Arguments.ParseFromOwned` | src/param.c:232-258 | no command line breaks ownership, with repeated, failing and over-long arguments and failing allocations |
| `Arguments.StrippedMatches` | src/param.c:151-159 | overwriting the closing quote in place does not change which parameter the argument names |
| `Arguments.CommandLine.ConvertValue` | src/param.c:58-104 | one conversion: the error, the value and the allocation |
| `Arguments.CommandLine.FillOne` | src/param.c:188-208 | one turn of the conversion loop: the value is converted and stored, or the error ends it |
| `Arguments.CommandLine.FillLoop` | src/param.c:178-208 | the loop over the comma list computes `Fill` |
| `Arguments.CommandLine.ParseArg` | src/param.c:140-218 | error, heap and the whole parameter table after one argument; no other parameter changes |
| `Arguments.CommandLine.ResetCounters` | src/param.c:226-231 | exactly the counters of array parameters are reset |
| `Arguments.CommandLine.TryParam` | src/param.c:244-251 | one turn of the loop over the parameters |
| `Arguments.CommandLine.ParseOne` | src/param.c:242-257 | an argument goes to every parameter it names, in order; none is `EINVAL`; an earlier error survives a success |
| `Arguments.GoesToOne` | src/param.c:242-257 | with different names it goes to the first parameter it names and to no other |
| `Arguments.NoArguments` | src/param.c:226-232 | the program's name is not parsed; only the counters of arrays are reset |
| `Arguments.OneMoreArgument` | src/param.c:232-258 | every further argument is parsed on top of those before it; `--help` and `-h` end the parse |
| `CommandLines.EveryArgumentArrives` | src/param.c:220-260 | of arguments for different integer parameters, each makes its parameter what it makes of it on its own |
| `CommandLines.OthersAsBefore` | src/param.c:220-260 | the other parameters are as before but for the counters of arrays |
| `CommandLines.ErrorIff` | src/param.c:247-259 | the parse reports an error if and only if one of the arguments has one on its own |
| `CommandLines.PrintedListArrives` | src/param.c:220-260 | from the command line to the variable: one printed list |
| `Arguments.CommandLine.ParseArgs` | src/param.c:220-260 | the whole command line, the help exit included, does what parsing its arguments one after the other does |
| `Arguments.CommandLine.FreeArgs` | src/param.c:262-273 | frees exactly the strings the parameters hold, each live until then and none twice |
| `Arguments.SharedIsFreedTwice` | src/param.c:266-271 | two string entries for one variable, both set: what the second frees was freed with the first |
| `Leaks.ParsedAllHeldIff` | src/param.c:178-218 | while every string is held, an argument for a string parameter loses one unless it succeeds and the parameter was not set, or fails without allocating |
| `Leaks.LosesNothing` | src/param.c:220-260 | a command line without errors that names no parameter twice loses no string |
| `Leaks.ParseThenFree` | include/urt_setup.h:147-162 | for every command line: what is freed at exit was allocated by the parse and is live, nothing is freed twice, `num` never exceeds the variable; without errors and repeats nothing is left behind |

## Left out

- The RTAI back-end, the kernel module and the sysfs semaphore (`sys/rtai`, `src/kern_main.c`, part of `src/lock_common.c`): they only pass calls on to kernel services whose code is not part of this repository, so there would be nothing to prove about them.
- Real shm_open, mmap, sem_open and pthread behaviour: reduced to a map from names to objects, and to mutex and condition semantics.
- Sizes, mappings and the 16-byte offset of the book-keeping area: `Protocol` keeps only the index stored there.
- `_shmem_common`'s failure after a successful open, which unlinks an object it did not create (sys/posix/src/mem.c:65-79), and the init failure in `_pthread_shlock_new`, which detaches through an index that was never written (sys/posix/src/lock.c:306-308): back-end calls that fail leave nothing behind in the model.
- `urt_get_free_name` is not a step of `Protocol`, because it does not touch the table; its runs are in `FreeNames`.
- Force-clearing a name that living processes use is covered only as far as `ProtocolTheorems.ClearAllowedIff` and the runs in `ProtocolRuns` go: what the survivors may still rely on is not stated.
- The build without the debug check: from a sound table it does the same, by `RegistryTable.DropCheckSilent`.
- Initialisation and exit of the library, and the version checks of the shared structure.
- `urt_get_object_by_id` as a function of its own: it indexes the table without a check, and `Protocol.DropTarget` is always within the table (`ProtocolProofs.HandleKnowsSlot`).
- `bool` and `invbool` parameters: the accepted set does not match the documentation (src/param.c:110 compares with 1 instead of '1'), and they add no loop or state of their own.
- Printing, dumping, logging, help text and the command-line tools: they format what is in the table and change nothing.
- `urt_mem_new`, `urt_mem_resize`, `urt_task_new`, priorities and time calibration: single calls into the operating system with an error return, with no state that outlives them.
- Width of times, sums and periods: unbounded integers; only `sleep`'s argument and the use counts wrap around.
- Registry.Registry.GetFreeName: requires, once the names are exhausted, that some generated name is not found; without one the search of the source does not end (`FreeNames.SearchEndsIff`).
- Registry.Registry.CheckAndGetFreeName: the same.
- CancellableLocks.LockF: the caller's mutex in the condition-variable case is not among the acquisitions.
- CancellableLocks.CancellationLatency: the lateness of timed waits and of the thread is a parameter; with 0 the bound is the documented one.
- PeriodicTask.NoEarlyRelease: takes for granted that a sleep no signal cuts short lasts as long as it was asked to.
- Leaks.ParseThenFree: every entry of the parameter table has a variable of its own. Two entries for one variable, which the declaration macros do not prevent, have its string freed twice (`Arguments.SharedIsFreedTwice`). The unused first entry of the table is not represented.
