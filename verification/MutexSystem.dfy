/** All mutexes of the driver, with the registry they are found by and the handles the threads own
    (linux/ipcdrv/ipcmutex.c). */
module MutexSystem {
  import opened Registry
  import opened MutexObject

  /** The registry, the mutex behind each live handle, and for each the threads that own it, as often as they do. */
  datatype Sys = Sys(reg: Reg, objs: map<nat, Obj>, owners: map<nat, multiset<Tid>>)

  datatype Event = Create(name: string, locked: bool) | CloseMutex(handle: nat) | Do(handle: nat, act: Act)

  const START := Sys(EMPTY, map[], map[])

  ghost predicate Idle(s: Sys, t: Tid) {
    forall h | h in s.objs :: t !in s.objs[h].pc
  }

  predicate Owns(s: Sys, t: Tid, h: nat) {
    h in s.objs && h in s.owners && t in s.owners[h]
  }

  /** What a client may do: use a handle it owns, make one call at a time, and keep its last handle to a mutex while
      it holds the mutex. */
  ghost predicate Allowed(s: Sys, t: Tid, e: Event) {
    && t != 0
    && match e
       case Create(_, _) => Idle(s, t)
       case CloseMutex(h) => Idle(s, t) && Owns(s, t, h) && (s.owners[h][t] == 1 ==> !Holds(s.objs[h], t))
       case Do(h, act) =>
         && h in s.objs && Enabled(s.objs[h], t, act)
         && (act.CallLock? || act.CallUnlock? ==> Idle(s, t) && Owns(s, t, h))
  }

  function Added(owners: map<nat, multiset<Tid>>, h: nat, t: Tid): map<nat, multiset<Tid>> {
    owners[h := (if h in owners then owners[h] else multiset{}) + multiset{t}]
  }

  /** Creating an existing mutex takes no notice of the request to lock it. */
  function Created(s: Sys, t: Tid, name: string, locked: bool): Sys {
    var (reg, h) := Open(s.reg, name);
    Sys(reg, if h in s.objs then s.objs else s.objs[h := NewMutex(t, locked)], Added(s.owners, h, t))
  }

  /** The last owner frees the mutex. */
  function Closed(s: Sys, t: Tid, h: nat): Sys
    requires h in s.owners
  {
    var (reg, error) := Close(s.reg, h);
    if error == 0 then Sys(reg, s.objs - {h}, s.owners - {h})
    else Sys(reg, s.objs, s.owners[h := s.owners[h] - multiset{t}])
  }

  ghost function Step(s: Sys, t: Tid, e: Event): Sys
    requires Allowed(s, t, e)
  {
    match e
    case Create(name, locked) => Created(s, t, name, locked)
    case CloseMutex(h) => Closed(s, t, h)
    case Do(h, act) => s.(objs := s.objs[h := Next(s.objs[h], t, act)])
  }

  /** The owner registers, one for each live handle, and what a step does to them. */
  type Registers = map<nat, Register>

  function RegistersAfterCreate(s: Sys, a: Registers, t: Tid, name: string, locked: bool): Registers {
    var h := Open(s.reg, name).1;
    if h in a then a else a[h := Register(if locked then t else 0, map[])]
  }

  ghost function StepRegisters(s: Sys, a: Registers, t: Tid, e: Event): Registers
    requires Allowed(s, t, e)
  {
    match e
    case Create(name, locked) => RegistersAfterCreate(s, a, t, name, locked)
    case CloseMutex(h) => if Close(s.reg, h).1 == 0 then a - {h} else a
    case Do(h, act) => if h in a then a[h := Follow(s.objs[h], a[h], t, act)] else a
  }

  // ---- What every run keeps ----

  /** Whoever uses a mutex owns a handle to it. */
  ghost predicate UsersOwn(o: Obj, owners: multiset<Tid>) {
    && (forall t: Tid :: t in o.pc ==> t in owners)
    && (forall t: Tid :: t != 0 && Holds(o, t) ==> t in owners)
  }

  /** A mutex stands for its register, its counter fits, and the registry counts its owners. */
  ghost predicate MutexOk(o: Obj, a: Register, owners: multiset<Tid>, count: int) {
    Represents(o, a) && CountFits(o) && UsersOwn(o, owners) && |owners| == count
  }

  ghost predicate MutexInv(s: Sys, a: Registers, h: nat)
    requires h in s.objs && h in s.owners && h in a
  {
    MutexOk(s.objs[h], a[h], s.owners[h], Count(s.reg, h))
  }

  /** There is a mutex, a ledger of its owners, and a register for every live handle and no other. */
  ghost predicate SameHandles(s: Sys, a: Registers) {
    && (forall h: nat :: h in s.objs <==> Live(s.reg, h))
    && s.owners.Keys == s.objs.Keys && a.Keys == s.objs.Keys
  }

  ghost predicate AllOk(s: Sys, a: Registers) {
    forall h: nat :: h in s.objs ==> h in s.owners && h in a && MutexInv(s, a, h)
  }

  ghost predicate SysInv(s: Sys, a: Registers) {
    Registry.Inv(s.reg) && SameHandles(s, a) && AllOk(s, a)
  }

  lemma StartInv()
    ensures SysInv(START, map[])
  {
    forall h: nat ensures !Live(EMPTY, h) { CountIsPositive(EMPTY, h); }
  }

  lemma DoKeepsInv(s: Sys, a: Registers, t: Tid, h: nat, act: Act)
    requires SysInv(s, a) && Allowed(s, t, Do(h, act))
    ensures SysInv(Step(s, t, Do(h, act)), StepRegisters(s, a, t, Do(h, act)))
  {
    assert MutexInv(s, a, h);
    MutexSteps(s.objs[h], a[h], s.owners[h], Count(s.reg, h), t, act);
    OneMutexChanged(s, a, h, Next(s.objs[h], t, act), Follow(s.objs[h], a[h], t, act));
  }

  lemma OneMutexChanged(s: Sys, a: Registers, h: nat, o: Obj, b: Register)
    requires SysInv(s, a) && h in s.objs && h in s.owners && MutexOk(o, b, s.owners[h], Count(s.reg, h))
    ensures SysInv(s.(objs := s.objs[h := o]), a[h := b])
  {
    hide MutexOk, Count, Live, Registry.Inv;
    assert a[h := b].Keys == a.Keys && s.objs[h := o].Keys == s.objs.Keys;
    OthersOk(s, a, h, o, b);
  }

  lemma OthersOk(s: Sys, a: Registers, h: nat, o: Obj, b: Register)
    requires AllOk(s, a) && h in s.objs && h in s.owners && MutexOk(o, b, s.owners[h], Count(s.reg, h))
    ensures AllOk(s.(objs := s.objs[h := o]), a[h := b])
  {
    hide MutexOk, Count;
    forall k: nat | k in s.objs && k != h ensures k in s.owners && k in a && MutexInv(s, a, k) {}
  }

  lemma MutexSteps(o: Obj, a: Register, owners: multiset<Tid>, count: int, t: Tid, act: Act)
    requires MutexOk(o, a, owners, count) && t != 0 && Enabled(o, t, act)
    requires act.CallLock? || act.CallUnlock? ==> t in owners
    ensures MutexOk(Next(o, t, act), Follow(o, a, t, act), owners, count)
  {
    Simulates(o, a, t, act);
    CountFollows(o, a, t, act);
    UsersStillOwn(o, owners, t, act);
  }

  lemma UsersStillOwn(o: Obj, owners: multiset<Tid>, t: Tid, act: Act)
    requires UsersOwn(o, owners) && Enabled(o, t, act) && t != 0
    requires act.CallLock? || act.CallUnlock? ==> t in owners
    ensures UsersOwn(Next(o, t, act), owners)
  {
    var w := Next(o, t, act);
    assert t in o.pc ==> t in owners;
    forall u: Tid | u != 0 && Holds(w, u) ensures u in owners {
      assert u != t ==> Holds(o, u);
    }
  }

  lemma CreateKeepsInv(s: Sys, a: Registers, t: Tid, name: string, locked: bool)
    requires SysInv(s, a) && Allowed(s, t, Create(name, locked))
    ensures SysInv(Step(s, t, Create(name, locked)), StepRegisters(s, a, t, Create(name, locked)))
  {
    OpenKeepsInv(s.reg, name);
    CreatedHandles(s, a, t, name, locked);
    CreatedOk(s, a, t, name, locked);
  }

  lemma CreatedHandles(s: Sys, a: Registers, t: Tid, name: string, locked: bool)
    requires Registry.Inv(s.reg) && SameHandles(s, a)
    ensures SameHandles(Created(s, t, name, locked), RegistersAfterCreate(s, a, t, name, locked))
  {
    hide Open, Live, Registry.Inv, NewMutex;
    var w, b, h := Created(s, t, name, locked), RegistersAfterCreate(s, a, t, name, locked), Open(s.reg, name).1;
    assert w.objs.Keys == s.objs.Keys + {h};
    assert w.owners.Keys == s.owners.Keys + {h};
    assert b.Keys == a.Keys + {h};
    forall k: nat ensures k in w.objs <==> Live(w.reg, k) { AfterOpen(s.reg, name, k); }
  }

  lemma CreatedOk(s: Sys, a: Registers, t: Tid, name: string, locked: bool)
    requires SysInv(s, a) && t != 0
    ensures AllOk(Created(s, t, name, locked), RegistersAfterCreate(s, a, t, name, locked))
  {
    var w, b := Created(s, t, name, locked), RegistersAfterCreate(s, a, t, name, locked);
    forall k: nat | k in w.objs ensures k in w.owners && k in b && MutexInv(w, b, k) {
      if k in s.objs { OldMutexKept(s, a, t, name, locked, k); } else { NewMutexAdded(s, a, t, name, locked, k); }
    }
  }

  lemma OldMutexKept(s: Sys, a: Registers, t: Tid, name: string, locked: bool, k: nat)
    requires Registry.Inv(s.reg) && k in s.objs && k in s.owners && k in a && MutexInv(s, a, k)
    requires a.Keys == s.objs.Keys
    ensures var w := Created(s, t, name, locked);
            k in w.objs && k in w.owners && MutexInv(w, RegistersAfterCreate(s, a, t, name, locked), k)
  {
    AfterOpen(s.reg, name, k);
  }

  lemma NewMutexAdded(s: Sys, a: Registers, t: Tid, name: string, locked: bool, k: nat)
    requires Registry.Inv(s.reg) && k !in s.objs && k !in s.owners && k !in a && !Live(s.reg, k) && t != 0
    requires Open(s.reg, name).1 == k
    ensures var w := Created(s, t, name, locked);
            k in w.objs && k in w.owners && MutexInv(w, RegistersAfterCreate(s, a, t, name, locked), k)
  {
    AfterOpen(s.reg, name, k);
    CountIsPositive(s.reg, k);
    NewMutexInv(t, locked);
  }

  lemma NewMutexInv(t: Tid, locked: bool)
    requires t != 0
    ensures var o := NewMutex(t, locked);
            && Represents(o, Register(if locked then t else 0, map[])) && CountFits(o) && UsersOwn(o, multiset{t})
  {
    var o := NewMutex(t, locked);
    NewRepresents(t, locked);
    assert Counters(o) == if locked then {t} else {};
  }

  /** When a close frees a mutex, no thread is inside a call on it and none holds it. */
  lemma FreedUnused(s: Sys, a: Registers, t: Tid, h: nat)
    requires SysInv(s, a) && Allowed(s, t, CloseMutex(h)) && Close(s.reg, h).1 == 0
    ensures s.objs[h].pc == map[] && s.objs[h].locker == 0 && s.objs[h].sem == 1 && a[h].owner == 0
  {
    assert MutexInv(s, a, h);
    AfterClose(s.reg, h, h);
    OnlyOwner(s.owners[h], t);
    NoUsers(s.objs[h], a[h], s.owners[h], t);
  }

  lemma NoUsers(o: Obj, a: Register, owners: multiset<Tid>, t: Tid)
    requires Represents(o, a) && UsersOwn(o, owners) && (forall u: Tid :: u in owners ==> u == t)
    requires t !in o.pc && t != 0 && !Holds(o, t)
    ensures o.pc == map[] && o.locker == 0 && o.sem == 1 && a.owner == 0
  {
    assert forall u: Tid :: u !in o.pc;
    assert forall u: Tid :: u != 0 ==> !Holds(o, u);
    var u := a.owner;
    assert u != 0 ==> (Holds(o, u) <==> a.owner == u);
  }

  lemma OnlyOwner(owners: multiset<Tid>, t: Tid)
    requires |owners| == 1 && t in owners
    ensures owners[t] == 1 && forall u: Tid :: u in owners ==> u == t
  {
    var rest := owners - multiset{t};
    assert |rest| == 0;
    assert rest == multiset{};
    assert owners == rest + multiset{t};
  }

  lemma CloseKeepsInv(s: Sys, a: Registers, t: Tid, h: nat)
    requires SysInv(s, a) && Allowed(s, t, CloseMutex(h))
    ensures SysInv(Step(s, t, CloseMutex(h)), StepRegisters(s, a, t, CloseMutex(h)))
  {
    hide Close, Represents, CountFits, UsersOwn, MutexOk, Registry.Inv, Holds, Count, Live;
    var w, b := Step(s, t, CloseMutex(h)), StepRegisters(s, a, t, CloseMutex(h));
    Registry.CloseKeepsInv(s.reg, h);
    forall k: nat ensures k in w.objs <==> Live(w.reg, k) { AfterClose(s.reg, h, k); }
    forall k: nat | k in w.objs ensures MutexInv(w, b, k) {
      AfterClose(s.reg, h, k);
      assert MutexInv(s, a, k);
      if k == h { StillOwnedKept(s, a, t, h); } else { OtherKept(s, a, t, h, k); }
    }
  }

  lemma StillOwnedKept(s: Sys, a: Registers, t: Tid, h: nat)
    requires Registry.Inv(s.reg) && Live(s.reg, h) && h in s.objs && h in s.owners && h in a && MutexInv(s, a, h)
    requires t in s.owners[h] && t !in s.objs[h].pc && (s.owners[h][t] == 1 ==> !Holds(s.objs[h], t))
    requires Close(s.reg, h).1 != 0
    ensures MutexInv(Closed(s, t, h), a, h)
  {
    AfterClose(s.reg, h, h);
    OthersStillOwn(s.objs[h], s.owners[h], t);
  }

  lemma OtherKept(s: Sys, a: Registers, t: Tid, h: nat, k: nat)
    requires Registry.Inv(s.reg) && Live(s.reg, h) && h in s.objs && h in s.owners && h in a && k != h
    requires k in s.objs && k in s.owners && k in a && MutexInv(s, a, k)
    ensures var w := Closed(s, t, h); k in w.objs && k in w.owners && MutexInv(w, a - {h}, k) && MutexInv(w, a, k)
  {
    AfterClose(s.reg, h, k);
  }

  lemma OthersStillOwn(o: Obj, owners: multiset<Tid>, t: Tid)
    requires UsersOwn(o, owners) && t in owners && t !in o.pc && (owners[t] == 1 ==> !Holds(o, t))
    ensures UsersOwn(o, owners - multiset{t}) && |owners - multiset{t}| == |owners| - 1
  {
  }

  // ---- Whole runs ----

  /** A run: the states, and the thread and event that lead from each to the next. */
  ghost predicate IsRun(states: seq<Sys>, steps: seq<(Tid, Event)>) {
    && |states| == |steps| + 1 && states[0] == START
    && forall i | 0 <= i < |steps| ::
         Allowed(states[i], steps[i].0, steps[i].1) && states[i + 1] == Step(states[i], steps[i].0, steps[i].1)
  }

  /** The registers along a run. */
  ghost function RunRegisters(states: seq<Sys>, steps: seq<(Tid, Event)>, i: nat): Registers
    requires IsRun(states, steps) && i <= |steps|
  {
    if i == 0 then map[]
    else StepRegisters(states[i - 1], RunRegisters(states, steps, i - 1), steps[i - 1].0, steps[i - 1].1)
  }

  lemma {:induction false} RunInv(states: seq<Sys>, steps: seq<(Tid, Event)>, i: nat)
    requires IsRun(states, steps) && i <= |steps|
    ensures SysInv(states[i], RunRegisters(states, steps, i))
  {
    if i == 0 {
      StartInv();
    } else {
      RunInv(states, steps, i - 1);
      var s, a, t := states[i - 1], RunRegisters(states, steps, i - 1), steps[i - 1].0;
      match steps[i - 1].1
      case Create(name, locked) => CreateKeepsInv(s, a, t, name, locked);
      case CloseMutex(h) => CloseKeepsInv(s, a, t, h);
      case Do(h, act) => DoKeepsInv(s, a, t, h, act);
    }
  }

  /** The thread holds the mutex that has this name now. */
  predicate HoldsName(s: Sys, t: Tid, h: nat, name: string) {
    t != 0 && h in s.objs && Live(s.reg, h) && NameOf(s.reg, h) == name && Holds(s.objs[h], t)
  }

  /** Mutual exclusion by name: at every moment of every run, at most one thread holds a mutex of a given name, however
      often the name was deleted and created again before. */
  lemma MutualExclusion(states: seq<Sys>, steps: seq<(Tid, Event)>, i: nat, name: string, t: Tid, h: nat, u: Tid,
                        k: nat)
    requires IsRun(states, steps) && i <= |steps|
    requires HoldsName(states[i], t, h, name) && HoldsName(states[i], u, k, name)
    ensures t == u && h == k
  {
    var s, a := states[i], RunRegisters(states, steps, i);
    RunInv(states, steps, i);
    OneHandlePerName(s.reg, h, k);
    assert MutexInv(s, a, h);
    OneHolder(s.objs[h], a[h], t, u);
  }

  /** Every run is a run of the owner registers: a step of a mutex that takes effect is an allowed step of its register,
      and every other step of a thread inside a call changes no register. */
  lemma RunRefines(states: seq<Sys>, steps: seq<(Tid, Event)>, i: nat)
    requires IsRun(states, steps) && i < |steps| && steps[i].1.Do?
    ensures var t, h, act, s, a, b := steps[i].0, steps[i].1.handle, steps[i].1.act, states[i],
                RunRegisters(states, steps, i), RunRegisters(states, steps, i + 1);
            && h in a && Represents(s.objs[h], a[h])
            && (if TakesEffect(s.objs[h], t, act) then AtomicEnabled(a[h], t, act) && b == a[h := Atomic(a[h], t, act)]
                else b == a)
  {
    RunInv(states, steps, i);
    StepRefines(states[i], RunRegisters(states, steps, i), steps[i].0, steps[i].1.handle, steps[i].1.act);
  }

  lemma Unchanged(a: Registers, h: nat)
    requires h in a
    ensures a[h := a[h]] == a
  {
  }

  lemma StepRefines(s: Sys, a: Registers, t: Tid, h: nat, act: Act)
    requires SysInv(s, a) && Allowed(s, t, Do(h, act))
    ensures h in a && Represents(s.objs[h], a[h])
    ensures var b := StepRegisters(s, a, t, Do(h, act));
            if TakesEffect(s.objs[h], t, act) then AtomicEnabled(a[h], t, act) && b == a[h := Atomic(a[h], t, act)]
            else b == a
  {
    hide Represents, CountFits, UsersOwn, Registry.Inv, SameHandles, Follow, Enabled, Idle;
    assert MutexInv(s, a, h);
    FollowIs(s.objs[h], a[h], t, act);
    Unchanged(a, h);
  }

  /** At every moment of every run the semaphore of each mutex and the threads that hold it are 1 together, and its
      lock counter is the number of threads between counting and counting back. */
  lemma RunCounts(states: seq<Sys>, steps: seq<(Tid, Event)>, i: nat, h: nat)
    requires IsRun(states, steps) && i <= |steps| && h in states[i].objs
    ensures var o := states[i].objs[h]; o.sem + |Holders(o)| == 1 && o.locks == |Counters(o)|
  {
    var a := RunRegisters(states, steps, i);
    RunInv(states, steps, i);
    assert MutexInv(states[i], a, h);
    SemaphoreAndHolders(states[i].objs[h], a[h]);
  }

  /** At every moment of every run: when no thread inside a call on a mutex can go on, all of them wait for an
      owner that is outside. */
  lemma RunNoLostWakeup(states: seq<Sys>, steps: seq<(Tid, Event)>, i: nat, h: nat)
    requires IsRun(states, steps) && i <= |steps| && h in states[i].objs
    requires forall t: Tid, act: Act | t in states[i].objs[h].pc && (act.Go? || act.Return?) ::
               !Enabled(states[i].objs[h], t, act)
    ensures var o := states[i].objs[h];
            && (o.pc.Keys != {} ==> o.locker != 0 && o.locker !in o.pc)
            && (forall t | t in o.pc :: o.pc[t].LockDown?)
  {
    hide SysInv;
    var a := RunRegisters(states, steps, i);
    RunInv(states, steps, i);
    InvAt(states[i], a, h);
    NoLostWakeup(states[i].objs[h], a[h]);
  }

  lemma InvAt(s: Sys, a: Registers, h: nat)
    requires SysInv(s, a) && h in s.objs
    ensures h in a && h in s.owners && MutexInv(s, a, h)
  {
  }

  // ---- One release, however many captures ----

  ghost predicate Owner(a: Registers, h: nat, t: Tid) {
    h in a && a[h].owner == t
  }

  /** The up in a release by this thread. */
  predicate IsRelease(s: Sys, step: (Tid, Event), t: Tid, h: nat) {
    step == (t, Do(h, Go)) && h in s.objs && t in s.objs[h].pc && s.objs[h].pc[t].UnlockUp?
  }

  /** Nothing but its own release takes the mutex from its owner: no capture of its own, and nothing another thread
      does. */
  lemma StepKeepsOwner(s: Sys, a: Registers, u: Tid, e: Event, t: Tid, h: nat)
    requires SysInv(s, a) && Allowed(s, u, e) && t != 0 && Owner(a, h, t)
    ensures Owner(StepRegisters(s, a, u, e), h, if IsRelease(s, (u, e), t, h) then 0 else t)
  {
    hide Created, Closed, Open, Registry.Inv, SameHandles, Follow;
    match e
    case Create(_, _) =>
    case CloseMutex(k) =>
      if k == h && Close(s.reg, h).1 == 0 { FreedUnused(s, a, u, h); }
    case Do(k, act) =>
      if k == h {
        InvAt(s, a, h);
        ActKeepsOwner(s.objs[h], a[h], u, act, t);
      }
  }

  lemma ActKeepsOwner(o: Obj, a: Register, u: Tid, act: Act, t: Tid)
    requires Represents(o, a) && Enabled(o, u, act) && u != 0 && t != 0 && a.owner == t
    ensures Follow(o, a, u, act).owner == if u == t && act.Go? && o.pc[t].UnlockUp? then 0 else t
  {
    FollowIs(o, a, u, act);
    assert Holds(o, u) <==> a.owner == u;
  }

  lemma {:induction false} OwnerUntilRelease(states: seq<Sys>, steps: seq<(Tid, Event)>, i: nat, j: nat, t: Tid, h: nat)
    requires IsRun(states, steps) && i <= j <= |steps| && t != 0 && Owner(RunRegisters(states, steps, i), h, t)
    requires forall k | i <= k < j :: !IsRelease(states[k], steps[k], t, h)
    ensures Owner(RunRegisters(states, steps, j), h, t)
    decreases j
  {
    hide SysInv, StepRegisters, Step, Allowed, Owner, IsRelease;
    if i < j {
      OwnerUntilRelease(states, steps, i, j - 1, t, h);
      RunInv(states, steps, j - 1);
      StepKeepsOwner(states[j - 1], RunRegisters(states, steps, j - 1), steps[j - 1].0, steps[j - 1].1, t, h);
    }
  }

  /** Captures do not nest: in every run, from the moment a thread owns a mutex it stays the owner, whatever it and the
      others do, until its first release, and that leaves the mutex free. */
  lemma OneReleaseFrees(states: seq<Sys>, steps: seq<(Tid, Event)>, i: nat, j: nat, t: Tid, h: nat)
    requires IsRun(states, steps) && i <= j < |steps| && t != 0 && Owner(RunRegisters(states, steps, i), h, t)
    requires (forall k | i <= k < j :: !IsRelease(states[k], steps[k], t, h)) && IsRelease(states[j], steps[j], t, h)
    ensures forall k | i <= k <= j :: Owner(RunRegisters(states, steps, k), h, t)
    ensures Owner(RunRegisters(states, steps, j + 1), h, 0)
    ensures h in states[j + 1].objs && states[j + 1].objs[h].sem == 1 && states[j + 1].objs[h].locker == 0
  {
    hide SysInv, StepRegisters, Step;
    forall k | i <= k <= j ensures Owner(RunRegisters(states, steps, k), h, t) {
      OwnerUntilRelease(states, steps, i, k, t, h);
    }
    RunInv(states, steps, j);
    RunInv(states, steps, j + 1);
    StepKeepsOwner(states[j], RunRegisters(states, steps, j), steps[j].0, steps[j].1, t, h);
    FreeMutex(states[j + 1], RunRegisters(states, steps, j + 1), h);
  }

  lemma FreeMutex(s: Sys, a: Registers, h: nat)
    requires SysInv(s, a) && Owner(a, h, 0)
    ensures h in s.objs && s.objs[h].sem == 1 && s.objs[h].locker == 0
  {
    InvAt(s, a, h);
  }

  // ---- What a call has done when it returns ----

  /** The thread makes this call on the mutex at i and has not returned from it before j. */
  ghost predicate InCall(steps: seq<(Tid, Event)>, i: nat, j: nat, t: Tid, h: nat, call: Act) {
    && i < j <= |steps| && steps[i] == (t, Do(h, call)) && (call.CallLock? || call.CallUnlock?)
    && forall k | i < k < j :: !IsReturn(steps[k], t, h)
  }

  predicate IsReturn(step: (Tid, Event), t: Tid, h: nat) {
    step.0 == t && step.1.Do? && step.1.handle == h && step.1.act.Return?
  }

  /** How far the call has come, and whether the thread is the owner then. */
  predicate CallFits(call: Act, phase: Phase, owner: bool) {
    match phase
    case Capturing(timed) => call == CallLock(timed)
    case Releasing => call == CallUnlock
    case Finished(ok) => if call.CallLock? then (ok <==> owner) && (!ok ==> call.timed) else ok && !owner
  }

  ghost predicate InCallFits(a: Registers, t: Tid, h: nat, call: Act) {
    h in a && t in a[h].calls && CallFits(call, a[h].calls[t], a[h].owner == t)
  }

  lemma ActKeepsCall(o: Obj, a: Register, u: Tid, act: Act, t: Tid, call: Act)
    requires Represents(o, a) && Enabled(o, u, act) && u != 0 && t != 0 && !(u == t && act.Return?)
    requires t in a.calls && CallFits(call, a.calls[t], a.owner == t)
    ensures var b := Follow(o, a, u, act); t in b.calls && CallFits(call, b.calls[t], b.owner == t)
  {
    FollowIs(o, a, u, act);
    assert t in o.pc && (Holds(o, t) <==> a.owner == t);
  }

  lemma StepKeepsCall(s: Sys, a: Registers, u: Tid, e: Event, t: Tid, h: nat, call: Act)
    requires SysInv(s, a) && Allowed(s, u, e) && t != 0 && InCallFits(a, t, h, call) && !IsReturn((u, e), t, h)
    ensures InCallFits(StepRegisters(s, a, u, e), t, h, call)
  {
    hide Created, Closed, Open, Registry.Inv, SameHandles, Follow, CallFits;
    assert h in s.objs by { RegisterHasMutex(s, a, h); }
    InvAt(s, a, h);
    match e
    case Create(_, _) =>
    case CloseMutex(k) =>
      if k == h && Close(s.reg, h).1 == 0 { FreedUnused(s, a, u, h); }
    case Do(k, act) =>
      if k == h { ActKeepsCall(s.objs[h], a[h], u, act, t, call); }
  }

  lemma RegisterHasMutex(s: Sys, a: Registers, h: nat)
    requires SysInv(s, a) && h in a
    ensures h in s.objs
  {
  }

  lemma CallBegins(s: Sys, a: Registers, t: Tid, h: nat, call: Act)
    requires SysInv(s, a) && Allowed(s, t, Do(h, call)) && (call.CallLock? || call.CallUnlock?)
    ensures InCallFits(StepRegisters(s, a, t, Do(h, call)), t, h, call)
  {
    InvAt(s, a, h);
    FollowIs(s.objs[h], a[h], t, call);
  }

  lemma {:induction false} CallProgress(states: seq<Sys>, steps: seq<(Tid, Event)>, i: nat, j: nat, t: Tid, h: nat,
                                        call: Act)
    requires IsRun(states, steps) && InCall(steps, i, j, t, h, call)
    ensures t != 0 && InCallFits(RunRegisters(states, steps, j), t, h, call)
    decreases j
  {
    hide SysInv, StepRegisters, Step, InCallFits, IsReturn;
    var s, a := states[j - 1], RunRegisters(states, steps, j - 1);
    assert Allowed(states[i], steps[i].0, steps[i].1);
    RunInv(states, steps, j - 1);
    if i + 1 == j {
      CallBegins(s, a, t, h, call);
    } else {
      CallProgress(states, steps, i, j - 1, t, h, call);
      StepKeepsCall(s, a, steps[j - 1].0, steps[j - 1].1, t, h, call);
    }
  }

  /** What a call returns, in every run: a capture returns success if and only if the caller's id then is the owner
      id of the mutex, and fails only with a time limit; a release always returns success, and the caller is not
      the owner. */
  lemma CallReturns(states: seq<Sys>, steps: seq<(Tid, Event)>, i: nat, j: nat, t: Tid, h: nat, call: Act, ok: bool)
    requires IsRun(states, steps) && j < |steps| && InCall(steps, i, j, t, h, call)
    requires steps[j] == (t, Do(h, Return(ok)))
    ensures h in states[j].objs
    ensures call.CallLock? ==> (ok <==> states[j].objs[h].locker == t) && (!ok ==> call.timed)
    ensures call.CallUnlock? ==> ok && states[j].objs[h].locker != t
    ensures states[j].objs[h].locker == t ==> states[j].objs[h].sem == 0
  {
    hide SysInv, RunRegisters;
    var s, a := states[j], RunRegisters(states, steps, j);
    RunInv(states, steps, j);
    CallProgress(states, steps, i, j, t, h, call);
    assert Allowed(s, steps[j].0, steps[j].1);
    InvAt(s, a, h);
    assert Holds(s.objs[h], t) <==> a[h].owner == t;
  }

  /** Who owns a mutex that was just created: its creator if it asked for that and the mutex is new, nobody if it is new
      otherwise; the owner of one that existed does not change. */
  lemma CreatedOwner(s: Sys, a: Registers, t: Tid, name: string, locked: bool)
    requires SysInv(s, a) && Allowed(s, t, Create(name, locked))
    ensures var w, h := Step(s, t, Create(name, locked)), Open(s.reg, name).1;
            && h in w.objs && Live(w.reg, h) && NameOf(w.reg, h) == name && t in w.owners[h]
            && (if h in s.objs then w.objs == s.objs
                else w.objs[h].locker == (if locked then t else 0) && w.objs[h].sem == if locked then 0 else 1)
            && (forall k | k in s.objs :: k in w.objs && w.objs[k] == s.objs[k])
            && (h in s.objs <==> NameCount(s.reg, name) > 0)
  {
    hide AllOk, Live, Registry.Inv, Open, NameOf, NameCount, Idle;
    NamesAfterOpen(s.reg, name, 0);
    NameIsLive(s.reg, name);
  }

  lemma NameIsLive(r: Reg, name: string)
    requires Registry.Inv(r)
    ensures Live(r, Open(r, name).1) <==> NameCount(r, name) > 0
  {
    SpotFound(r, name);
    if Spot(r, name) < |r.slots| { HandleAt(r, Spot(r, name)); } else { NextIsNotLive(r); }
  }
}
