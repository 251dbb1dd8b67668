/** The shared memory calls of the library: a name is registered with the driver, which counts its owners, and is a
    POSIX object besides (linux/libsrc/insys/shmipc.cpp). One call is one step. */
module SharedMemory {
  import opened Registry
  import opened CStrings
  import opened Wrappers

  const IPC_OK: int := 0
  const IPC_GENERAL_ERROR: int := 0xC000_0100 - 0x1_0000_0000

  /** What can go wrong in a call, besides what the state decides: the driver file is not open or refuses, memory
      is short, or one of the system calls fails. */
  datatype Faults = Faults(driver: bool, alloc: bool, shmOpen: bool, reopen: bool, fstat: bool, ftruncate: bool,
                           unlink: bool)

  /** An ipc_t: the name asked for, the driver's handle, and the size. */
  datatype Shm = Shm(name: string, user: nat, size: int)

  /** The driver's registry, the POSIX objects with their sizes, and the handles that were returned and not deleted,
      by the address of their ipc_t. */
  datatype Sys = Sys(reg: Reg, posix: map<string, int>, handles: map<nat, Shm>, next: nat)

  const START := Sys(EMPTY, map[], map[], 1)

  /** The driver gets the first 127 characters of the name. */
  const NAME_MAX := 127

  function DriverName(name: string): string { name[..Min(|name|, NAME_MAX)] }

  /** Two names are one to the driver if they are equal, or agree in 127 characters. */
  lemma SameDriverName(a: string, b: string)
    ensures DriverName(a) == DriverName(b) <==> a == b || (|a| >= 127 && |b| >= 127 && a[..127] == b[..127])
  {
    assert a[..|a|] == a && b[..|b|] == b;
  }

  // ---- The calls on values ----

  /** The registration that is undone when a later step fails. */
  function Unregistered(s: Sys, name: string): Sys {
    var (reg, user) := Open(s.reg, DriverName(name));
    s.(reg := Close(reg, user).0)
  }

  /** The handle that is returned when nothing failed. */
  function Returned(s: Sys, name: string, size: int): Sys {
    var (reg, user) := Open(s.reg, DriverName(name));
    Sys(reg, s.posix, s.handles[s.next := Shm(name, user, size)], s.next + 1)
  }

  /** IPC_createSharedMemory and IPC_createSharedMemoryEx: the handle, if any, and the flag the second stores, if it
      stores one. */
  function Create(s: Sys, name: string, size: int, f: Faults): (Sys, Option<nat>, Option<bool>) {
    if f.driver then (s, None, None)
    else if f.alloc || f.shmOpen then (Unregistered(s, name), None, None)
    else if name in s.posix then
      if f.reopen || f.fstat then (Unregistered(s, name), None, None)
      else if s.posix[name] > 0 then (Returned(s, name, size), Some(s.next), Some(true))
      else if f.ftruncate || size < 0 then (Unregistered(s, name), None, None)
      else (Returned(s.(posix := s.posix[name := size]), name, size), Some(s.next), Some(true))
    else if f.ftruncate || size < 0 then (Unregistered(s.(posix := s.posix[name := 0]), name), None, Some(false))
    else (Returned(s.(posix := s.posix[name := size]), name, size), Some(s.next), Some(false))
  }

  /** IPC_openSharedMemory: the size is that of the object, or 0. */
  function OpenShm(s: Sys, name: string, f: Faults): (Sys, Option<nat>) {
    if f.driver then (s, None)
    else if f.alloc || f.shmOpen || f.fstat || name !in s.posix then (Unregistered(s, name), None)
    else (Returned(s, name, if s.posix[name] > 0 then s.posix[name] else 0), Some(s.next))
  }

  /** IPC_deleteSharedMemory. The driver reports a name that is still owned as a failure of the ioctl, which is never
      -EBUSY in the library; so the call then returns an error. */
  function Delete(s: Sys, h: nat, f: Faults): (Sys, int)
    requires h in s.handles
  {
    if f.driver then (s, IPC_GENERAL_ERROR)
    else
      var (reg, error) := Close(s.reg, s.handles[h].user);
      var w := s.(reg := reg, handles := s.handles - {h});
      if error != 0 || f.unlink || s.handles[h].name !in s.posix then (w, IPC_GENERAL_ERROR)
      else (w.(posix := s.posix - {s.handles[h].name}), IPC_OK)
  }

  // ---- What every call keeps ----

  /** The handles registered under one driver handle. */
  function Owning(s: Sys, user: nat): set<nat> {
    set h | h in s.handles && s.handles[h].user == user
  }

  predicate HandleInv(s: Sys, h: nat)
    requires h in s.handles
  {
    && h < s.next
    && Live(s.reg, s.handles[h].user) && NameOf(s.reg, s.handles[h].user) == DriverName(s.handles[h].name)
    && s.handles[h].name in s.posix
  }

  /** The driver counts exactly the handles, and a handle always has its POSIX object. */
  ghost predicate Inv(s: Sys) {
    && Registry.Inv(s.reg)
    && (forall h | h in s.handles :: HandleInv(s, h))
    && (forall user: nat :: Count(s.reg, user) == |Owning(s, user)|)
  }

  /** Registering and unregistering leaves the list as it was. */
  lemma RollbackRestores(r: Reg, name: string)
    requires Registry.Inv(r)
    ensures var (reg, user) := Open(r, name); Close(reg, user).0.slots == r.slots && Registry.Inv(Close(reg, user).0)
  {
    OpenKeepsInv(r, name);
    var (w, user) := Open(r, name);
    CloseKeepsInv(w, user);
    var p := Spot(r, name);
    HandleAt(w, p);
    if p < |r.slots| {
      assert w.slots[p].count == r.slots[p].count + 1;
      assert Close(w, user).0.slots == w.slots[p := r.slots[p]];
    }
  }

  /** A call that failed leaves the list of the driver and the handles as they were. */
  lemma UnregisteredKeepsInv(s: Sys, name: string)
    requires Inv(s)
    ensures Inv(Unregistered(s, name))
    ensures Unregistered(s, name).reg.slots == s.reg.slots
  {
    var w := Unregistered(s, name);
    RollbackRestores(s.reg, DriverName(name));
    forall h | h in w.handles ensures HandleInv(w, h) { assert HandleInv(s, h); }
    forall user: nat ensures Count(w.reg, user) == |Owning(w, user)| {
      assert Owning(w, user) == Owning(s, user);
      assert Count(w.reg, user) == Count(s.reg, user);
    }
  }

  lemma MorePosixKeepsInv(s: Sys, name: string, size: int)
    requires Inv(s)
    ensures Inv(s.(posix := s.posix[name := size]))
  {
    var w := s.(posix := s.posix[name := size]);
    forall h | h in w.handles ensures HandleInv(w, h) { assert HandleInv(s, h); }
    forall user: nat ensures Count(w.reg, user) == |Owning(w, user)| {
      assert Owning(w, user) == Owning(s, user);
    }
  }

  lemma ReturnedKeepsInv(s: Sys, name: string, size: int)
    requires Inv(s) && name in s.posix
    ensures Inv(Returned(s, name, size))
  {
    var w := Returned(s, name, size);
    var user := Open(s.reg, DriverName(name)).1;
    OpenKeepsInv(s.reg, DriverName(name));
    forall h | h in w.handles ensures HandleInv(w, h) {
      if h in s.handles { assert HandleInv(s, h); }
      NamesAfterOpen(s.reg, DriverName(name), w.handles[h].user);
    }
    forall k: nat ensures Count(w.reg, k) == |Owning(w, k)| {
      AfterOpen(s.reg, DriverName(name), k);
      NewOwner(s, w, name, k);
    }
  }

  lemma NewOwner(s: Sys, w: Sys, name: string, k: nat)
    requires s.next !in s.handles && s.next in w.handles && w.handles == s.handles[s.next := w.handles[s.next]]
    ensures |Owning(w, k)| == |Owning(s, k)| + if w.handles[s.next].user == k then 1 else 0
  {
    if w.handles[s.next].user == k {
      assert Owning(w, k) == Owning(s, k) + {s.next};
    } else {
      assert Owning(w, k) == Owning(s, k);
    }
  }

  lemma CreateKeepsInv(s: Sys, name: string, size: int, f: Faults)
    requires Inv(s)
    ensures Inv(Create(s, name, size, f).0)
  {
    UnregisteredKeepsInv(s, name);
    MorePosixKeepsInv(s, name, 0);
    UnregisteredKeepsInv(s.(posix := s.posix[name := 0]), name);
    MorePosixKeepsInv(s, name, size);
    ReturnedKeepsInv(s.(posix := s.posix[name := size]), name, size);
    if name in s.posix { ReturnedKeepsInv(s, name, size); }
  }

  lemma OpenShmKeepsInv(s: Sys, name: string, f: Faults)
    requires Inv(s)
    ensures Inv(OpenShm(s, name, f).0)
  {
    UnregisteredKeepsInv(s, name);
    if name in s.posix { ReturnedKeepsInv(s, name, if s.posix[name] > 0 then s.posix[name] else 0); }
  }

  /** The driver's answer to a delete: 0 for the only handle under its driver handle, -EBUSY otherwise. */
  lemma DeleteAnswer(s: Sys, h: nat)
    requires Inv(s) && h in s.handles
    ensures var user := s.handles[h].user;
            Close(s.reg, user).1 == (if |Owning(s, user)| == 1 then 0 else -EBUSY)
  {
    assert HandleInv(s, h);
    AfterClose(s.reg, s.handles[h].user, 0);
  }

  /** After a close by h, every other handle is still registered. */
  lemma OthersRegistered(s: Sys, h: nat, k: nat)
    requires Inv(s) && h in s.handles && k in s.handles && k != h
    ensures var reg, user := Close(s.reg, s.handles[h].user).0, s.handles[k].user;
            Live(reg, user) && NameOf(reg, user) == DriverName(s.handles[k].name)
    ensures Close(s.reg, s.handles[h].user).1 == 0 ==> s.handles[k].name != s.handles[h].name
  {
    assert HandleInv(s, h) && HandleInv(s, k);
    var d, u := s.handles[h].user, s.handles[k].user;
    AfterClose(s.reg, d, u);
    if u == d { TwoOwners(Owning(s, d), h, k); }
    NamesAfterClose(s.reg, d, u);
    if s.handles[k].name == s.handles[h].name { OneHandlePerName(s.reg, d, u); }
  }

  lemma TwoOwners(owning: set<nat>, h: nat, k: nat)
    requires h in owning && k in owning && h != k
    ensures |owning| > 1
  {
    assert |owning - {h} - {k}| == |owning| - 2;
  }

  lemma DeleteKeepsInv(s: Sys, h: nat, f: Faults)
    requires Inv(s) && h in s.handles
    ensures Inv(Delete(s, h, f).0)
  {
    if !f.driver {
      var w := Delete(s, h, f).0;
      assert HandleInv(s, h);
      Registry.CloseKeepsInv(s.reg, s.handles[h].user);
      forall k | k in w.handles ensures HandleInv(w, k) {
        assert HandleInv(s, k);
        OthersRegistered(s, h, k);
      }
      forall user: nat ensures Count(w.reg, user) == |Owning(w, user)| {
        AfterClose(s.reg, s.handles[h].user, user);
        LessOwner(s, w, h, user);
      }
    }
  }

  lemma LessOwner(s: Sys, w: Sys, h: nat, user: nat)
    requires h in s.handles && w.handles == s.handles - {h}
    ensures |Owning(w, user)| == |Owning(s, user)| - if s.handles[h].user == user then 1 else 0
  {
    if s.handles[h].user == user {
      assert Owning(w, user) == Owning(s, user) - {h};
    } else {
      assert Owning(w, user) == Owning(s, user);
    }
  }

  // ---- Whole runs ----

  datatype Call =
    | CreateCall(name: string, size: int, f: Faults)
    | OpenCall(name: string, f: Faults)
    | DeleteCall(h: nat, f: Faults)

  /** Handles are deleted once. */
  predicate Allowed(s: Sys, c: Call) {
    c.DeleteCall? ==> c.h in s.handles
  }

  function Step(s: Sys, c: Call): Sys
    requires Allowed(s, c)
  {
    match c
    case CreateCall(name, size, f) => Create(s, name, size, f).0
    case OpenCall(name, f) => OpenShm(s, name, f).0
    case DeleteCall(h, f) => Delete(s, h, f).0
  }

  ghost predicate IsRun(states: seq<Sys>, calls: seq<Call>) {
    && |states| == |calls| + 1 && states[0] == START
    && forall i | 0 <= i < |calls| :: Allowed(states[i], calls[i]) && states[i + 1] == Step(states[i], calls[i])
  }

  lemma {:induction false} RunInv(states: seq<Sys>, calls: seq<Call>, i: nat)
    requires IsRun(states, calls) && i < |states|
    ensures Inv(states[i])
  {
    if i == 0 {
      forall user: nat ensures Count(START.reg, user) == |Owning(START, user)| { assert Owning(START, user) == {}; }
    } else {
      RunInv(states, calls, i - 1);
      match calls[i - 1]
      case CreateCall(name, size, f) => CreateKeepsInv(states[i - 1], name, size, f);
      case OpenCall(name, f) => OpenShmKeepsInv(states[i - 1], name, f);
      case DeleteCall(h, f) => DeleteKeepsInv(states[i - 1], h, f);
    }
  }

  /** The handles that were returned for a name, as the driver sees it, and not deleted. */
  function Undeleted(s: Sys, name: string): set<nat> {
    set h | h in s.handles && DriverName(s.handles[h].name) == name
  }

  /** After every call of every run, failing ones included, the driver's owner count of a name is the number of handles
      returned for it and not deleted. */
  lemma CountIsUndeleted(states: seq<Sys>, calls: seq<Call>, i: nat, name: string)
    requires IsRun(states, calls) && i < |states|
    ensures NameCount(states[i].reg, name) == |Undeleted(states[i], name)|
  {
    RunInv(states, calls, i);
    NameCountIsUndeleted(states[i], name);
  }

  lemma NameCountIsUndeleted(s: Sys, name: string)
    requires Inv(s)
    ensures NameCount(s.reg, name) == |Undeleted(s, name)|
  {
    var p := Spot(s.reg, name);
    SpotFound(s.reg, name);
    if p < |s.reg.slots| {
      var user := s.reg.slots[p].handle;
      HandleAt(s.reg, p);
      assert Count(s.reg, user) == |Owning(s, user)|;
      SameHandles(s, name, user);
    } else {
      forall h | h in s.handles ensures DriverName(s.handles[h].name) != name {
        assert HandleInv(s, h);
        AtFound(s.reg, s.handles[h].user);
      }
      assert Undeleted(s, name) == {};
    }
  }

  lemma SameHandles(s: Sys, name: string, user: nat)
    requires Inv(s) && Live(s.reg, user) && NameOf(s.reg, user) == name
    ensures Undeleted(s, name) == Owning(s, user)
  {
    forall h | h in s.handles ensures DriverName(s.handles[h].name) == name <==> s.handles[h].user == user {
      assert HandleInv(s, h);
      if DriverName(s.handles[h].name) == name { OneHandlePerName(s.reg, user, s.handles[h].user); }
    }
  }

  /** A POSIX name disappears only in a delete of a handle of that name, and only of the last one the driver counts. */
  lemma UnlinkedByLastDelete(states: seq<Sys>, calls: seq<Call>, i: nat, name: string)
    requires IsRun(states, calls) && i < |calls|
    requires name in states[i].posix && name !in states[i + 1].posix
    ensures calls[i].DeleteCall? && states[i].handles[calls[i].h].name == name
    ensures NameCount(states[i].reg, DriverName(name)) == 1 && NameCount(states[i + 1].reg, DriverName(name)) == 0
  {
    var s := states[i];
    RunInv(states, calls, i);
    var h := calls[i].h;
    assert HandleInv(s, h);
    DeleteAnswer(s, h);
    SameHandles(s, DriverName(name), s.handles[h].user);
    NameCountIsUndeleted(s, DriverName(name));
    CountIsUndeleted(states, calls, i + 1, DriverName(name));
    assert Undeleted(states[i + 1], DriverName(name)) == Undeleted(s, DriverName(name)) - {h};
  }

  /** The result of a delete: IPC_OK if and only if the handle was the last the driver counts for its name and nothing
      failed. While the name is still in use the result is an error, though the handle is gone. */
  lemma DeleteResult(s: Sys, h: nat, f: Faults)
    requires Inv(s) && h in s.handles
    ensures var last := |Undeleted(s, DriverName(s.handles[h].name))| == 1;
            && (Delete(s, h, f).1 == IPC_OK <==> last && !f.driver && !f.unlink)
            && (Delete(s, h, f).1 == IPC_OK ==> s.handles[h].name !in Delete(s, h, f).0.posix)
            && (h !in Delete(s, h, f).0.handles <==> !f.driver)
  {
    assert HandleInv(s, h);
    DeleteAnswer(s, h);
    SameHandles(s, DriverName(s.handles[h].name), s.handles[h].user);
  }

  /** What a handle that was just returned is: new, registered under its name once more, and everything else as it
      was. */
  predicate NewHandle(s: Sys, w: Sys, h: nat, name: string, size: int) {
    && h !in s.handles && w.handles.Keys == s.handles.Keys + {h}
    && (forall k | k in s.handles :: w.handles[k] == s.handles[k])
    && w.handles[h].name == name && w.handles[h].size == size
    && Live(w.reg, w.handles[h].user) && NameOf(w.reg, w.handles[h].user) == DriverName(name)
  }

  lemma ReturnedIsNew(s: Sys, name: string, size: int)
    requires Inv(s)
    ensures NewHandle(s, Returned(s, name, size), s.next, name, size)
    ensures forall n :: NameCount(Returned(s, name, size).reg, n)
                        == NameCount(s.reg, n) + if n == DriverName(name) then 1 else 0
  {
    NamesAfterOpen(s.reg, DriverName(name), 0);
    forall n ensures NameCount(Returned(s, name, size).reg, n)
                     == NameCount(s.reg, n) + if n == DriverName(name) then 1 else 0
    {
      OpenAddsOne(s.reg, DriverName(name), 0, n);
    }
    forall h | h in s.handles ensures h != s.next { assert HandleInv(s, h); }
  }

  /** Opening succeeds if and only if nothing fails and the object exists. The handle then has the size of the
      object, or 0 if that is not positive; the object itself is not touched. */
  lemma OpenResult(s: Sys, name: string, f: Faults)
    requires Inv(s)
    ensures var (w, h) := OpenShm(s, name, f);
            && (h.Some? <==> !f.driver && !f.alloc && !f.shmOpen && !f.fstat && name in s.posix)
            && w.posix == s.posix
            && (h.Some? ==>
                  && NewHandle(s, w, h.value, name, if s.posix[name] > 0 then s.posix[name] else 0)
                  && forall n :: NameCount(w.reg, n) == NameCount(s.reg, n) + if n == DriverName(name) then 1 else 0)
            && (h.None? ==> w.handles == s.handles && w.reg.slots == s.reg.slots)
  {
    if name in s.posix { ReturnedIsNew(s, name, if s.posix[name] > 0 then s.posix[name] else 0); }
    UnregisteredKeepsInv(s, name);
  }

  /** Creating succeeds if and only if no step it takes fails. The handle has the size asked for, whether or not
      the object has it: one that exists with a positive size keeps that. The flag says whether the object existed. */
  lemma CreateResult(s: Sys, name: string, size: int, f: Faults)
    requires Inv(s)
    ensures var (w, h, already) := Create(s, name, size, f);
            var sized := name in s.posix && s.posix[name] > 0;
            && (h.Some? <==>
                  && !f.driver && !f.alloc && !f.shmOpen && (sized || (!f.ftruncate && size >= 0))
                  && (name in s.posix ==> !f.reopen && !f.fstat))
            && (h.Some? ==>
                  && NewHandle(s, w, h.value, name, size) && already == Some(name in s.posix)
                  && w.posix == (if sized then s.posix else s.posix[name := size])
                  && forall n :: NameCount(w.reg, n) == NameCount(s.reg, n) + if n == DriverName(name) then 1 else 0)
            && (h.None? ==> already != Some(true) && (already == Some(false) <==> w.posix != s.posix))
  {
    var made := s.(posix := s.posix[name := size]);
    MorePosixKeepsInv(s, name, size);
    ReturnedIsNew(s, name, size);
    ReturnedIsNew(made, name, size);
    if Create(s, name, size, f).1.None? { FailedCreateKeeps(s, name, size, f); }
  }

  lemma FailedCreateKeeps(s: Sys, name: string, size: int, f: Faults)
    requires Create(s, name, size, f).1.None?
    ensures var (w, _, already) := Create(s, name, size, f);
            already != Some(true) && (already == Some(false) <==> w.posix != s.posix)
  {
    if name !in s.posix { assert name in s.posix[name := 0]; }
  }

  /** A create that fails after registering changes nothing but the next driver address; except that, if and only if it
      had just created the POSIX object and could not give it its size, the object stays, and no handle has its name. */
  lemma FailedCreate(s: Sys, name: string, size: int, f: Faults)
    requires Inv(s) && Create(s, name, size, f).1.None?
    ensures var w := Create(s, name, size, f).0;
            && w.reg.slots == s.reg.slots && w.handles == s.handles
            && (w.posix == s.posix <==> f.driver || f.alloc || f.shmOpen || name in s.posix)
            && (w.posix != s.posix ==>
                  w.posix == s.posix[name := 0] && forall h | h in w.handles :: w.handles[h].name != name)
  {
    UnregisteredKeepsInv(s, name);
    MorePosixKeepsInv(s, name, 0);
    UnregisteredKeepsInv(s.(posix := s.posix[name := 0]), name);
    if name !in s.posix {
      forall h | h in s.handles ensures s.handles[h].name != name { assert HandleInv(s, h); }
    }
  }

  /** When the POSIX name of a deleted handle stays: the call failed before the ioctl or in the unlink, or another
      handle has the same name as far as the driver sees it, whether or not it is the same name. */
  lemma NameKept(s: Sys, h: nat, f: Faults)
    requires Inv(s) && h in s.handles
    ensures var name := s.handles[h].name;
            name in Delete(s, h, f).0.posix
            <==> f.driver || f.unlink
                 || exists k | k in s.handles :: k != h && DriverName(s.handles[k].name) == DriverName(name)
  {
    var name := s.handles[h].name;
    var same := Undeleted(s, DriverName(name));
    assert HandleInv(s, h);
    DeleteAnswer(s, h);
    SameHandles(s, DriverName(name), s.handles[h].user);
    if k :| k in s.handles && k != h && DriverName(s.handles[k].name) == DriverName(name) {
      TwoOwners(same, h, k);
    } else {
      assert same == {h};
    }
  }

  /** Names that differ only behind the 127 characters the driver gets share one count. The delete that takes it to 0
      unlinks its own name only; another one stays, with no owner. */
  lemma LongNamesLeftBehind(s: Sys, h: nat, f: Faults, name: string)
    requires Inv(s) && h in s.handles && Delete(s, h, f).1 == IPC_OK
    requires name in s.posix && name != s.handles[h].name
    requires |name| >= 127 && |s.handles[h].name| >= 127 && name[..127] == s.handles[h].name[..127]
    ensures var w := Delete(s, h, f).0; name in w.posix && NameCount(w.reg, name[..127]) == 0
  {
    var w := Delete(s, h, f).0;
    DeleteKeepsInv(s, h, f);
    DeleteResult(s, h, f);
    NameCountIsUndeleted(w, DriverName(name));
    Without(Undeleted(s, DriverName(name)), h);
    assert Undeleted(w, DriverName(name)) == Undeleted(s, DriverName(name)) - {h};
  }

  lemma Without(hs: set<nat>, h: nat)
    requires |hs| == 1 && h in hs
    ensures hs - {h} == {}
  {
    assert |hs - {h}| == 0;
  }

  const NONE := Faults(false, false, false, false, false, false, false)

  /** A run to this: two such names are created and both handles deleted, and the first name stays without a handle. */
  lemma LongNamesRun(n1: string, n2: string, size: nat)
    requires n1 != n2 && |n1| >= 127 && |n2| >= 127 && n1[..127] == n2[..127]
    ensures var d, one, two := n1[..127], Shm(n1, 1, size), Shm(n2, 1, size);
            var both := map[n1 := size, n2 := size];
            IsRun([START,
                   Sys(Reg([Slot(1, d, 1)], 2), map[n1 := size], map[1 := one], 2),
                   Sys(Reg([Slot(1, d, 2)], 2), both, map[1 := one, 2 := two], 3),
                   Sys(Reg([Slot(1, d, 1)], 2), both, map[2 := two], 3),
                   Sys(Reg([], 2), map[n1 := size], map[], 3)],
                  [CreateCall(n1, size, NONE), CreateCall(n2, size, NONE), DeleteCall(1, NONE), DeleteCall(2, NONE)])
  {
    var d, one, two := n1[..127], Shm(n1, 1, size), Shm(n2, 1, size);
    var both := map[n1 := size, n2 := size];
    assert DriverName(n1) == d && DriverName(n2) == d;
    FirstCreate(n1, size);
    SecondCreate(n1, n2, size);
    FirstDelete(both, d, one, two);
    SecondDelete(both, d, two);
    assert both - {n2} == map[n1 := size];
  }

  lemma FirstCreate(name: string, size: nat)
    ensures Create(START, name, size, NONE).0
            == Sys(Reg([Slot(1, DriverName(name), 1)], 2), map[name := size], map[1 := Shm(name, 1, size)], 2)
  {
    hide DriverName;
    var d := DriverName(name);
    assert EMPTY.slots + [Slot(1, d, 1)] == [Slot(1, d, 1)];
    assert Open(EMPTY, d) == (Reg([Slot(1, d, 1)], 2), 1);
  }

  lemma SecondCreate(n1: string, n2: string, size: nat)
    requires n1 != n2 && DriverName(n1) == DriverName(n2)
    ensures var d, one, two := DriverName(n1), Shm(n1, 1, size), Shm(n2, 1, size);
            Create(Sys(Reg([Slot(1, d, 1)], 2), map[n1 := size], map[1 := one], 2), n2, size, NONE).0
            == Sys(Reg([Slot(1, d, 2)], 2), map[n1 := size, n2 := size], map[1 := one, 2 := two], 3)
  {
    hide DriverName;
    var d := DriverName(n1);
    assert Recount(Reg([Slot(1, d, 1)], 2), 0, 1) == Reg([Slot(1, d, 2)], 2);
    assert Open(Reg([Slot(1, d, 1)], 2), d) == (Reg([Slot(1, d, 2)], 2), 1);
  }

  lemma FirstDelete(posix: map<string, int>, d: string, one: Shm, two: Shm)
    requires one.user == 1
    ensures Delete(Sys(Reg([Slot(1, d, 2)], 2), posix, map[1 := one, 2 := two], 3), 1, NONE).0
            == Sys(Reg([Slot(1, d, 1)], 2), posix, map[2 := two], 3)
  {
    assert Recount(Reg([Slot(1, d, 2)], 2), 0, -1) == Reg([Slot(1, d, 1)], 2);
    assert Close(Reg([Slot(1, d, 2)], 2), 1) == (Reg([Slot(1, d, 1)], 2), -EBUSY);
    assert map[1 := one, 2 := two] - {1} == map[2 := two];
  }

  lemma SecondDelete(posix: map<string, int>, d: string, two: Shm)
    requires two.user == 1 && two.name in posix
    ensures Delete(Sys(Reg([Slot(1, d, 1)], 2), posix, map[2 := two], 3), 2, NONE).0
            == Sys(Reg([], 2), posix - {two.name}, map[], 3)
  {
    assert Registry.Without(Reg([Slot(1, d, 1)], 2), 0) == Reg([], 2);
    assert Close(Reg([Slot(1, d, 1)], 2), 1) == (Reg([], 2), 0);
    assert map[2 := two] - {2} == map[];
  }
}
