/** The operating-system side of shared objects, reduced to its two namespaces
    (sys/posix/src/mem.c, sys/posix/src/lock.c, sys/posix/src/setup.c). */
module Backend {
  import opened Common
  import opened Names
  import opened RegistryTable

  /** Names given to `shm_open` and names given to `sem_open` do not clash. */
  datatype Space = Shm | Sem

  datatype OsKey = OsKey(space: Space, name: string)

  /** The objects that exist, each with an identity of its own. */
  type Namespace = map<OsKey, nat>

  /** Semaphores live in their own namespace; all other kinds are shared memory. */
  function SpaceOf(kind: ObjType): Space { if kind.SemObj? then Sem else Shm }

  /** `_shmem_detach` and `_shsem_detach`, called with the slot already decremented: the last
      user unlinks the object. */
  function Released(os: Namespace, space: Space, s: Slot): Namespace
  {
    if s.count == 0 && OsName(s.name).Some? then os - {OsKey(space, OsName(s.name).value)} else os
  }

  /** `urt_sys_force_clear_name` */
  function ForceUnlinked(os: Namespace, s: Slot): Namespace
  {
    if OsName(s.name).None? || s.kind.Untyped? then os
    else os - {OsKey(SpaceOf(s.kind), OsName(s.name).value)}
  }

  /** Semaphores are found by `sem_open`, everything else by `shm_open`. */
  lemma SpaceLaw()
    ensures SpaceOf(SemObj) == Sem
    ensures SpaceOf(MemObj) == SpaceOf(MutexObj) == SpaceOf(RwlockObj) == SpaceOf(CondObj) == Shm
  {}

  /** The release callback and a force-clear unlink at most the one name, the first only for the last
      user, the second only if the slot has a type. */
  lemma UnlinkLaw(os: Namespace, s: Slot, space: Space, n: string)
    requires OsName(s.name) == Some(n)
    ensures Released(os, space, s) == if s.count > 0 then os else os - {OsKey(space, n)}
    ensures s.kind.SemObj? ==> ForceUnlinked(os, s) == os - {OsKey(Sem, n)}
    ensures s.kind.Untyped? ==> ForceUnlinked(os, s) == os
    ensures !s.kind.SemObj? && !s.kind.Untyped? ==> ForceUnlinked(os, s) == os - {OsKey(Shm, n)}
  {}

  class OsObjects {
    var names: Namespace
    constructor ()
      ensures names == map[]
    {
      names := map[];
    }

    method Release(space: Space, s: Slot)
      modifies this
      ensures names == Released(old(names), space, s)
    {
      if s.count == 0 {
        var n := ConvertName(s.name);
        if n.Some? {
          names := names - {OsKey(space, n.value)};
        }
      }
    }

    method ForceUnlink(s: Slot)
      modifies this
      ensures names == ForceUnlinked(old(names), s)
    {
      var n := ConvertName(s.name);
      if n.Some? && !s.kind.Untyped? {
        names := names - {OsKey(SpaceOf(s.kind), n.value)};
      }
    }
  }
}
