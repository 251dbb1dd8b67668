/** The code of the shared memory calls, with its goto rollback (linux/libsrc/insys/shmipc.cpp). The system calls and
    the driver are their effects on the state; the parameter f says which of them fail. */
module SharedMemoryCode {
  import opened Registry
  import opened SharedMemory
  import opened Wrappers

  class ShmLibrary {
    var reg: Reg
    var posix: map<string, int>
    /** The ipc_t objects by address, as long as they are neither freed nor deleted. */
    var handles: map<nat, Shm>
    var next: nat

    ghost function Contents(): Sys
      reads this
    {
      Sys(reg, posix, handles, next)
    }

    constructor ()
      ensures Contents() == START
    {
      reg, posix, handles, next := EMPTY, map[], map[], 1;
    }

    /** shared_memory_open */
    method Register(name: string, fails: bool) returns (user: Option<nat>)
      modifies this`reg
      ensures fails ==> user == None && reg == old(reg)
      ensures !fails ==> (reg, user) == (Open(old(reg), DriverName(name)).0, Some(Open(old(reg), DriverName(name)).1))
    {
      if fails { return None; }
      var (r, h) := Open(reg, DriverName(name));
      reg := r;
      return Some(h);
    }

    /** shared_memory_close. A failing ioctl returns -1, whatever the driver answered. */
    method Unregister(user: nat, fails: bool) returns (res: int)
      modifies this`reg
      ensures fails ==> res == -EINVAL && reg == old(reg)
      ensures !fails ==> reg == Close(old(reg), user).0 && res == if Close(old(reg), user).1 == 0 then 0 else -1
    {
      if fails { return -EINVAL; }
      var (r, error) := Close(reg, user);
      reg := r;
      res := if error == 0 then 0 else -1;
    }

    /** allocate_ipc_object and the assignment of ipc_user. */
    method Allocate(name: string, user: nat) returns (h: nat)
      modifies this`handles, this`next
      ensures h == old(next) && next == h + 1 && handles == old(handles)[h := Shm(name, user, 0)]
    {
      h := next;
      next := next + 1;
      handles := handles[h := Shm(name, user, 0)];
    }

    /** delete_ipc_object; the allocator may hand the address out again. */
    method Free(h: nat)
      requires next == h + 1
      modifies this`handles, this`next
      ensures next == h && handles == old(handles) - {h}
    {
      handles := handles - {h};
      next := h;
    }

    /** IPC_createSharedMemoryEx; IPC_createSharedMemory is the same without the flag. */
    method Create(name: string, size: int, f: Faults) returns (result: Option<nat>, alreadyCreated: Option<bool>)
      requires next !in handles
      modifies this
      ensures (Contents(), result, alreadyCreated) == SharedMemory.Create(old(Contents()), name, size, f)
    {
      alreadyCreated := None;
      var drvHandle := Register(name, f.driver);
      if drvHandle.None? { return None, alreadyCreated; }
      var user := drvHandle.value;
      label do_unregister_shm: {
        if f.alloc { break do_unregister_shm; }
        var h := Allocate(name, user);
        label do_free_ipc_object: {
          if f.shmOpen { break do_free_ipc_object; }
          if name in posix {
            if f.reopen { break do_free_ipc_object; }
            if f.fstat { break do_free_ipc_object; }
            if posix[name] <= 0 {
              if f.ftruncate || size < 0 { break do_free_ipc_object; }
              posix := posix[name := size];
            }
            alreadyCreated := Some(true);
          } else {
            posix := posix[name := 0];
            alreadyCreated := Some(false);
            if f.ftruncate || size < 0 { break do_free_ipc_object; }
            posix := posix[name := size];
          }
          handles := handles[h := handles[h].(size := size)];
          assert handles == old(handles)[h := Shm(name, user, size)];
          assert posix == old(posix) || posix == old(posix)[name := size];
          return Some(h), alreadyCreated;
        }
        Free(h);
        assert handles == old(handles);
      }
      var res := Unregister(user, false);
      return None, alreadyCreated;
    }

    /** IPC_openSharedMemory */
    method OpenExisting(name: string, f: Faults) returns (result: Option<nat>)
      requires next !in handles
      modifies this
      ensures (Contents(), result) == OpenShm(old(Contents()), name, f)
    {
      var drvHandle := Register(name, f.driver);
      if drvHandle.None? { return None; }
      var user := drvHandle.value;
      label do_unregister_shm: {
        if f.alloc { break do_unregister_shm; }
        var h := Allocate(name, user);
        label do_free_ipc_object: {
          if f.shmOpen || name !in posix { break do_free_ipc_object; }
          if f.fstat { break do_free_ipc_object; }
          if posix[name] > 0 { handles := handles[h := handles[h].(size := posix[name])]; }
          assert handles == old(handles)[h := Shm(name, user, if posix[name] > 0 then posix[name] else 0)];
          return Some(h);
        }
        Free(h);
        assert handles == old(handles);
      }
      var res := Unregister(user, false);
      return None;
    }

    /** IPC_deleteSharedMemory */
    method DeleteHandle(h: nat, f: Faults) returns (r: int)
      requires h in handles
      modifies this
      ensures (Contents(), r) == Delete(old(Contents()), h, f)
    {
      var shm := handles[h];
      var res := Unregister(shm.user, f.driver);
      if !f.driver { handles := handles - {h}; }
      if res < 0 {
        if res == -EBUSY { return IPC_OK; }
        return IPC_GENERAL_ERROR;
      }
      if f.unlink || shm.name !in posix { return IPC_GENERAL_ERROR; }
      posix := posix - {shm.name};
      return IPC_OK;
    }
  }
}
