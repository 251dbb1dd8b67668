/** One mutex of the driver. Its lock and unlock functions run outside the registry mutex in small steps, which the
    threads interleave; the steps of all threads together behave like one owner register
    (linux/ipcdrv/ipcmutex.c). */
module MutexObject {

  /** Thread ids; 0 means none. */
  type Tid = nat

  /** What a thread inside a call does next: check the owner id, take the semaphore (giving up after a while when the
      call has a timeout), count, set or clear the owner id, give the semaphore back, return. */
  datatype PC = LockRead(timed: bool) | LockDown(timed: bool) | LockInc | LockOwn
              | UnlockRead | UnlockClear | UnlockUp | UnlockDec
              | Done(ok: bool)

  /** The semaphore has the count sem; locks is mutex_lock_count. Threads not in pc are outside. */
  datatype Obj = Obj(locker: Tid, sem: nat, locks: int, pc: map<Tid, PC>)

  datatype Act = CallLock(timed: bool) | CallUnlock | Go | TimeOut | Return(ok: bool)

  function NewMutex(t: Tid, locked: bool): Obj {
    if locked then Obj(t, 0, 1, map[]) else Obj(0, 1, 0, map[])
  }

  predicate Enabled(o: Obj, t: Tid, act: Act) {
    match act
    case CallLock(_) => t !in o.pc
    case CallUnlock => t !in o.pc
    case Go => t in o.pc && !o.pc[t].Done? && (o.pc[t].LockDown? ==> o.sem > 0)
    case TimeOut => t in o.pc && o.pc[t] == LockDown(true) && o.sem == 0
    case Return(ok) => t in o.pc && o.pc[t] == Done(ok)
  }

  function Next(o: Obj, t: Tid, act: Act): Obj
    requires Enabled(o, t, act)
  {
    match act
    case CallLock(timed) => o.(pc := o.pc[t := LockRead(timed)])
    case CallUnlock => o.(pc := o.pc[t := UnlockRead])
    case Go => Advance(o, t)
    case TimeOut => o.(pc := o.pc[t := Done(false)])
    case Return(_) => o.(pc := o.pc - {t})
  }

  function Advance(o: Obj, t: Tid): Obj
    requires Enabled(o, t, Go)
  {
    match o.pc[t]
    case LockRead(timed) => o.(pc := o.pc[t := if o.locker == t then Done(true) else LockDown(timed)])
    case LockDown(_) => o.(sem := o.sem - 1, pc := o.pc[t := LockInc])
    case LockInc => o.(locks := o.locks + 1, pc := o.pc[t := LockOwn])
    case LockOwn => o.(locker := t, pc := o.pc[t := Done(true)])
    case UnlockRead => o.(pc := o.pc[t := if o.locker != t then Done(true) else UnlockClear])
    case UnlockClear => o.(locker := 0, pc := o.pc[t := UnlockUp])
    case UnlockUp => o.(sem := o.sem + 1, pc := o.pc[t := UnlockDec])
    case UnlockDec => o.(locks := o.locks - 1, pc := o.pc[t := Done(true)])
  }

  // ---- What it is for: one owner register ----

  datatype Phase = Capturing(timed: bool) | Releasing | Finished(ok: bool)

  datatype Register = Register(owner: Tid, calls: map<Tid, Phase>)

  /** A capture takes effect when the register is free or already the caller's, a release at any time; a capture with
      a timeout can fail while another thread is the owner. */
  predicate AtomicEnabled(a: Register, t: Tid, act: Act) {
    match act
    case CallLock(_) => t !in a.calls
    case CallUnlock => t !in a.calls
    case Go => t in a.calls && !a.calls[t].Finished? && (a.calls[t].Capturing? ==> a.owner == 0 || a.owner == t)
    case TimeOut => t in a.calls && a.calls[t] == Capturing(true) && a.owner != 0 && a.owner != t
    case Return(ok) => t in a.calls && a.calls[t] == Finished(ok)
  }

  function Atomic(a: Register, t: Tid, act: Act): Register
    requires AtomicEnabled(a, t, act)
  {
    match act
    case CallLock(timed) => a.(calls := a.calls[t := Capturing(timed)])
    case CallUnlock => a.(calls := a.calls[t := Releasing])
    case Go =>
      Register(if a.calls[t].Capturing? then t else if a.owner == t then 0 else a.owner, a.calls[t := Finished(true)])
    case TimeOut => a.(calls := a.calls[t := Finished(false)])
    case Return(_) => a.(calls := a.calls - {t})
  }

  // ---- How the steps realise it ----

  /** The thread has taken the semaphore and not given it back. */
  predicate Holds(o: Obj, t: Tid) {
    o.locker == t || (t in o.pc && (o.pc[t].LockInc? || o.pc[t].LockOwn? || o.pc[t].UnlockUp?))
  }

  function PhaseOf(pc: PC): Phase {
    match pc
    case LockRead(timed) => Capturing(timed)
    case LockDown(timed) => Capturing(timed)
    case LockInc => Finished(true)
    case LockOwn => Finished(true)
    case UnlockRead => Releasing
    case UnlockClear => Releasing
    case UnlockUp => Releasing
    case UnlockDec => Finished(true)
    case Done(ok) => Finished(ok)
  }

  /** What the owner id says about a thread inside a call. */
  predicate LockerFits(o: Obj, t: Tid)
    requires t in o.pc
  {
    match o.pc[t]
    case LockRead(_) => true
    case UnlockRead => true
    case Done(_) => true
    case UnlockClear => o.locker == t
    case _ => o.locker != t
  }

  /** The mutex stands for the register: the owner is the thread that holds the semaphore. */
  ghost predicate Represents(o: Obj, a: Register) {
    && o.sem == (if a.owner == 0 then 1 else 0)
    && (forall t: Tid :: t != 0 ==> (Holds(o, t) <==> a.owner == t))
    && (a.owner == 0 ==> o.locker == 0)
    && 0 !in o.pc
    && (forall t: Tid :: t in o.pc <==> t in a.calls)
    && (forall t: Tid :: t in o.pc ==> a.calls[t] == PhaseOf(o.pc[t]) && LockerFits(o, t))
  }

  lemma NewRepresents(t: Tid, locked: bool)
    requires t != 0
    ensures Represents(NewMutex(t, locked), Register(if locked then t else 0, map[]))
  {
  }

  /** The step at which a call takes effect: the owner id read that settles it, the down, or the up. */
  predicate TakesEffect(o: Obj, t: Tid, act: Act)
    requires Enabled(o, t, act)
  {
    match act
    case Go =>
      (match o.pc[t]
       case LockRead(_) => o.locker == t
       case LockDown(_) => true
       case UnlockRead => o.locker != t
       case UnlockUp => true
       case _ => false)
    case _ => true
  }

  /** The register after the step. */
  function Follow(o: Obj, a: Register, t: Tid, act: Act): Register
    requires Enabled(o, t, act)
  {
    if TakesEffect(o, t, act) && AtomicEnabled(a, t, act) then Atomic(a, t, act) else a
  }

  /** Forward simulation: a step that takes effect is an allowed step of the register, and any other step leaves the
      register as it is. */
  lemma Simulates(o: Obj, a: Register, t: Tid, act: Act)
    requires Represents(o, a) && Enabled(o, t, act) && t != 0
    ensures TakesEffect(o, t, act) ==> AtomicEnabled(a, t, act)
    ensures Represents(Next(o, t, act), Follow(o, a, t, act))
  {
    if TakesEffect(o, t, act) { EffectIsAllowed(o, a, t, act); }
    var w, b := Next(o, t, act), Follow(o, a, t, act);
    SemaphoreFollows(o, a, t, act);
    forall u: Tid | u != 0 ensures Holds(w, u) <==> b.owner == u { HolderFollows(o, a, t, act, u); }
    forall u: Tid ensures u in w.pc <==> u in b.calls { CallFollows(o, a, t, act, u); }
    forall u: Tid | u in w.pc ensures b.calls[u] == PhaseOf(w.pc[u]) && LockerFits(w, u) {
      CallFollows(o, a, t, act, u);
    }
  }

  lemma EffectIsAllowed(o: Obj, a: Register, t: Tid, act: Act)
    requires Represents(o, a) && Enabled(o, t, act) && t != 0 && TakesEffect(o, t, act)
    ensures AtomicEnabled(a, t, act)
  {
    assert Holds(o, t) <==> a.owner == t;
  }

  lemma FollowIs(o: Obj, a: Register, t: Tid, act: Act)
    requires Represents(o, a) && Enabled(o, t, act) && t != 0
    ensures if TakesEffect(o, t, act) then AtomicEnabled(a, t, act) && Follow(o, a, t, act) == Atomic(a, t, act)
            else Follow(o, a, t, act) == a
  {
    if TakesEffect(o, t, act) { EffectIsAllowed(o, a, t, act); }
  }

  lemma SemaphoreFollows(o: Obj, a: Register, t: Tid, act: Act)
    requires Represents(o, a) && Enabled(o, t, act) && t != 0
    requires TakesEffect(o, t, act) ==> AtomicEnabled(a, t, act)
    ensures var w, b := Next(o, t, act), Follow(o, a, t, act);
            w.sem == (if b.owner == 0 then 1 else 0) && (b.owner == 0 ==> w.locker == 0)
  {
    assert Holds(o, t) <==> a.owner == t;
    if o.locker != 0 { assert Holds(o, o.locker); }
  }

  lemma HolderFollows(o: Obj, a: Register, t: Tid, act: Act, u: Tid)
    requires Represents(o, a) && Enabled(o, t, act) && t != 0 && u != 0
    requires TakesEffect(o, t, act) ==> AtomicEnabled(a, t, act)
    ensures Holds(Next(o, t, act), u) <==> Follow(o, a, t, act).owner == u
  {
    assert Holds(o, t) <==> a.owner == t;
    assert Holds(o, u) <==> a.owner == u;
  }

  lemma CallFollows(o: Obj, a: Register, t: Tid, act: Act, u: Tid)
    requires Represents(o, a) && Enabled(o, t, act) && t != 0
    requires TakesEffect(o, t, act) ==> AtomicEnabled(a, t, act)
    ensures var w, b := Next(o, t, act), Follow(o, a, t, act);
            && (u in w.pc <==> u in b.calls)
            && (u in w.pc ==> u != 0 && b.calls[u] == PhaseOf(w.pc[u]) && LockerFits(w, u))
  {
    assert Holds(o, t) <==> a.owner == t;
    if u != 0 { assert Holds(o, u) <==> a.owner == u; }
  }

  /** At most one thread holds the mutex. */
  lemma OneHolder(o: Obj, a: Register, t: Tid, u: Tid)
    requires Represents(o, a) && t != 0 && u != 0 && Holds(o, t) && Holds(o, u)
    ensures t == u
  {
  }

  // ---- The counters ----

  /** The thread has counted its lock and not taken the count back. */
  predicate Counted(o: Obj, t: Tid) {
    o.locker == t || (t in o.pc && (o.pc[t].LockOwn? || o.pc[t].UnlockUp? || o.pc[t].UnlockDec?))
  }

  function Holders(o: Obj): set<Tid> {
    set t | t in o.pc.Keys + {o.locker} && t != 0 && Holds(o, t)
  }

  function Counters(o: Obj): set<Tid> {
    set t | t in o.pc.Keys + {o.locker} && t != 0 && Counted(o, t)
  }

  /** The semaphore and the threads between down and up: always 1 together. */
  lemma SemaphoreAndHolders(o: Obj, a: Register)
    requires Represents(o, a)
    ensures o.sem + |Holders(o)| == 1
  {
    if a.owner == 0 {
      assert Holders(o) == {};
    } else {
      assert Holds(o, a.owner);
      assert Holders(o) == {a.owner};
    }
  }

  /** mutex_lock_count is the number of threads between the increment and the decrement; unlike the semaphore, the
      counter is behind, so that can be several. */
  predicate CountFits(o: Obj) { o.locks == |Counters(o)| }

  lemma CountFollows(o: Obj, a: Register, t: Tid, act: Act)
    requires Represents(o, a) && Enabled(o, t, act) && t != 0 && CountFits(o)
    ensures CountFits(Next(o, t, act))
  {
    var w := Next(o, t, act);
    forall u: Tid | u != t ensures u in Counters(w) <==> u in Counters(o) {
      if u != 0 { OtherCounters(o, a, t, act, u); }
    }
    OwnCounter(o, a, t, act);
    ChangeAt(Counters(o), Counters(w), t);
  }

  lemma ChangeAt(was: set<Tid>, now: set<Tid>, t: Tid)
    requires forall u: Tid | u != t :: u in now <==> u in was
    ensures |now| - |was| == (if t in now then 1 else 0) - (if t in was then 1 else 0)
  {
    assert now - {t} == was - {t};
    assert t in was ==> |was - {t}| == |was| - 1;
    assert t in now ==> |now - {t}| == |now| - 1;
    assert t !in was ==> was - {t} == was;
    assert t !in now ==> now - {t} == now;
  }

  lemma OtherCounters(o: Obj, a: Register, t: Tid, act: Act, u: Tid)
    requires Represents(o, a) && Enabled(o, t, act) && t != 0 && u != 0 && u != t
    ensures u in Counters(Next(o, t, act)) <==> u in Counters(o)
  {
    assert Holds(o, t) <==> a.owner == t;
    assert Holds(o, u) <==> a.owner == u;
  }

  lemma OwnCounter(o: Obj, a: Register, t: Tid, act: Act)
    requires Represents(o, a) && Enabled(o, t, act) && t != 0
    ensures t in Counters(Next(o, t, act)) <==>
      if act.Go? && o.pc[t].LockInc? then t !in Counters(o)
      else if act.Go? && o.pc[t].UnlockDec? then t !in Counters(o)
      else t in Counters(o)
    ensures act.Go? && o.pc[t].LockInc? ==> t !in Counters(o)
    ensures act.Go? && o.pc[t].UnlockDec? ==> t in Counters(o)
  {
    assert Holds(o, t) <==> a.owner == t;
    assert LockerAt(o, t);
  }

  predicate LockerAt(o: Obj, t: Tid) {
    t in o.pc ==> LockerFits(o, t)
  }

  // ---- No wake-up is lost ----

  /** When no thread inside a call can go on, all of them wait for a thread outside that owns the mutex. */
  lemma NoLostWakeup(o: Obj, a: Register)
    requires Represents(o, a)
    requires forall t: Tid, act: Act | t in o.pc && (act.Go? || act.Return?) :: !Enabled(o, t, act)
    ensures o.pc.Keys != {} ==> o.locker != 0 && o.locker !in o.pc && a.owner == o.locker
    ensures forall t | t in o.pc :: o.pc[t].LockDown?
  {
    forall t | t in o.pc ensures o.pc[t].LockDown? && o.sem == 0 {
      assert !Enabled(o, t, Go);
      assert o.pc[t].Done? ==> Enabled(o, t, Return(o.pc[t].ok));
    }
    if o.pc.Keys != {} { assert Holds(o, a.owner); }
  }

  // ---- A thread on its own ----

  ghost predicate CanRun(o: Obj, t: Tid, acts: seq<Act>)
    decreases |acts|
  {
    acts == [] || (Enabled(o, t, acts[0]) && CanRun(Next(o, t, acts[0]), t, acts[1..]))
  }

  ghost function RunAlone(o: Obj, t: Tid, acts: seq<Act>): Obj
    requires CanRun(o, t, acts)
    decreases |acts|
  {
    if acts == [] then o else RunAlone(Next(o, t, acts[0]), t, acts[1..])
  }

  const LOCK := [CallLock(false), Go, Go]
  const UNLOCK := [CallUnlock, Go, Go]
  const HOME := [Go, Go, Return(true)]
  const RELOCK := [CallLock(false), Go, Return(true)]

  lemma OneMore(o: Obj, t: Tid, act: Act, acts: seq<Act>)
    requires Enabled(o, t, act) && CanRun(Next(o, t, act), t, acts)
    ensures CanRun(o, t, [act] + acts) && RunAlone(o, t, [act] + acts) == RunAlone(Next(o, t, act), t, acts)
  {
    assert ([act] + acts)[1..] == acts;
  }

  lemma {:induction false} RunBoth(o: Obj, t: Tid, first: seq<Act>, second: seq<Act>)
    requires CanRun(o, t, first) && CanRun(RunAlone(o, t, first), t, second)
    ensures CanRun(o, t, first + second)
    ensures RunAlone(o, t, first + second) == RunAlone(RunAlone(o, t, first), t, second)
    decreases |first|
  {
    if first == [] {
      assert first + second == second;
    } else {
      RunBoth(Next(o, t, first[0]), t, first[1..], second);
      OneMore(o, t, first[0], first[1..] + second);
      assert [first[0]] + (first[1..] + second) == first + second;
    }
  }

  lemma ThreeActs(o: Obj, t: Tid, acts: seq<Act>, w: Obj)
    requires |acts| == 3 && Enabled(o, t, acts[0])
    requires var o1 := Next(o, t, acts[0]);
             && Enabled(o1, t, acts[1])
             && var o2 := Next(o1, t, acts[1]);
                Enabled(o2, t, acts[2]) && Next(o2, t, acts[2]) == w
    ensures CanRun(o, t, acts) && RunAlone(o, t, acts) == w
  {
    var o1 := Next(o, t, acts[0]);
    var o2 := Next(o1, t, acts[1]);
    assert CanRun(w, t, []) && RunAlone(w, t, []) == w;
    OneMore(o2, t, acts[2], []);
    OneMore(o1, t, acts[1], [acts[2]]);
    OneMore(o, t, acts[0], [acts[1], acts[2]]);
    assert [acts[2]] + [] == [acts[2]];
    assert [acts[1]] + [acts[2]] == [acts[1], acts[2]];
    assert [acts[0]] + [acts[1], acts[2]] == acts;
  }

  lemma CaptureFree(o: Obj, t: Tid)
    requires t !in o.pc && o.locker != t && o.sem == 1
    ensures CanRun(o, t, LOCK + HOME)
    ensures RunAlone(o, t, LOCK + HOME) == o.(locker := t, sem := 0, locks := o.locks + 1)
  {
    hide CanRun, RunAlone, TakesEffect;
    var half := o.(sem := 0, pc := o.pc[t := LockInc]);
    var w := o.(locker := t, sem := 0, locks := o.locks + 1);
    ThreeActs(o, t, LOCK, half);
    assert w.(pc := w.pc[t := Done(true)]).pc - {t} == o.pc;
    ThreeActs(half, t, HOME, w);
    RunBoth(o, t, LOCK, HOME);
  }

  lemma CaptureOwn(o: Obj, t: Tid)
    requires t !in o.pc && o.locker == t
    ensures CanRun(o, t, RELOCK) && RunAlone(o, t, RELOCK) == o
  {
    assert o.pc[t := LockRead(false)][t := Done(true)] - {t} == o.pc;
    ThreeActs(o, t, RELOCK, o);
  }

  lemma ReleaseOwn(o: Obj, t: Tid)
    requires t !in o.pc && o.locker == t && t != 0
    ensures CanRun(o, t, UNLOCK + HOME)
    ensures RunAlone(o, t, UNLOCK + HOME) == o.(locker := 0, sem := o.sem + 1, locks := o.locks - 1)
  {
    hide CanRun, RunAlone;
    var half := o.(locker := 0, pc := o.pc[t := UnlockUp]);
    var w := o.(locker := 0, sem := o.sem + 1, locks := o.locks - 1);
    ThreeActs(o, t, UNLOCK, half);
    assert w.(pc := w.pc[t := Done(true)]).pc - {t} == o.pc;
    ThreeActs(half, t, HOME, w);
    RunBoth(o, t, UNLOCK, HOME);
  }

  /** A capture and n more of them. */
  function Captures(n: nat): seq<Act> {
    if n == 0 then LOCK + HOME else Captures(n - 1) + RELOCK
  }

  lemma {:induction false} CaptureAgain(o: Obj, t: Tid, n: nat)
    requires t !in o.pc && o.locker == 0 && t != 0 && o.sem == 1
    ensures CanRun(o, t, Captures(n))
    ensures RunAlone(o, t, Captures(n)) == o.(locker := t, sem := 0, locks := o.locks + 1)
  {
    if n == 0 {
      CaptureFree(o, t);
    } else {
      CaptureAgain(o, t, n - 1);
      var w := o.(locker := t, sem := 0, locks := o.locks + 1);
      CaptureOwn(w, t);
      RunBoth(o, t, Captures(n - 1), RELOCK);
    }
  }

  /** Captures do not nest: however many a thread has made of a free mutex, one release undoes them all. */
  lemma OneReleaseUndoes(o: Obj, t: Tid, n: nat)
    requires t !in o.pc && o.locker == 0 && t != 0 && o.sem == 1
    ensures CanRun(o, t, Captures(n) + (UNLOCK + HOME))
    ensures RunAlone(o, t, Captures(n) + (UNLOCK + HOME)) == o
  {
    CaptureAgain(o, t, n);
    var w := o.(locker := t, sem := 0, locks := o.locks + 1);
    ReleaseOwn(w, t);
    RunBoth(o, t, Captures(n), UNLOCK + HOME);
  }
}
