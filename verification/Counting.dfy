/** One semaphore or event of the driver. Lock takes the semaphore and then counts; unlock gives it back and then takes
    the count back. An event posts only when its lock counter is not 0; resetting an event is the same code as
    unlocking it (linux/ipcdrv/ipcsem.c, linux/ipcdrv/ipcevent.c). */
module Counting {
  type Tid = nat

  /** What a thread inside a call does next. Only events read the counter before posting. */
  datatype PC = Down(timed: bool) | Inc | Read | Up | Dec | Done(ok: bool)

  /** count is that of the semaphore, locks the lock counter. */
  datatype Obj = Obj(guarded: bool, count: nat, locks: int, pc: map<Tid, PC>)

  datatype Act = CallLock(timed: bool) | CallUnlock | Go | TimeOut | Return(ok: bool)

  function NewSemaphore(value: nat): Obj { Obj(false, value, 0, map[]) }

  /** The initial value asked for is ignored. */
  function NewEvent(): Obj { Obj(true, 1, 0, map[]) }

  /** A semaphore with this value, or an event, whose value is always 1. */
  predicate Starts(o: Obj, init: nat) { o == NewSemaphore(init) || (o == NewEvent() && init == 1) }

  predicate Enabled(o: Obj, t: Tid, act: Act) {
    match act
    case CallLock(_) => t !in o.pc
    case CallUnlock => t !in o.pc
    case Go => t in o.pc && !o.pc[t].Done? && (o.pc[t].Down? ==> o.count > 0)
    case TimeOut => t in o.pc && o.pc[t] == Down(true) && o.count == 0
    case Return(ok) => t in o.pc && o.pc[t] == Done(ok)
  }

  function MoveTo(o: Obj, t: Tid, pc: PC): Obj { o.(pc := o.pc[t := pc]) }

  function Next(o: Obj, t: Tid, act: Act): Obj
    requires Enabled(o, t, act)
  {
    match act
    case CallLock(timed) => MoveTo(o, t, Down(timed))
    case CallUnlock => MoveTo(o, t, if o.guarded then Read else Up)
    case Go =>
      (match o.pc[t]
       case Down(_) => MoveTo(o, t, Inc).(count := o.count - 1)
       case Inc => MoveTo(o, t, Done(true)).(locks := o.locks + 1)
       case Read => MoveTo(o, t, if o.locks != 0 then Up else Done(true))
       case Up => MoveTo(o, t, Dec).(count := o.count + 1)
       case Dec => MoveTo(o, t, Done(true)).(locks := o.locks - 1))
    case TimeOut => MoveTo(o, t, Done(false))
    case Return(_) => o.(pc := o.pc - {t})
  }

  // ---- How many threads are where ----

  function At(o: Obj, place: PC -> bool): set<Tid> {
    set t | t in o.pc && place(o.pc[t])
  }

  const AtInc := (pc: PC) => pc.Inc?
  const AtDec := (pc: PC) => pc.Dec?

  /** Past the guard, with the decrement still to come. */
  const Passed := (pc: PC) => pc.Up? || pc.Dec?

  function Here(o: Obj, t: Tid, place: PC -> bool): int {
    if t in o.pc && place(o.pc[t]) then 1 else 0
  }

  /** A step of one thread changes how many are at a place by where that thread was and is. */
  lemma StepMoves(o: Obj, t: Tid, act: Act, place: PC -> bool)
    requires Enabled(o, t, act)
    ensures |At(Next(o, t, act), place)| == |At(o, place)| + Here(Next(o, t, act), t, place) - Here(o, t, place)
  {
    OnlyOneMoves(o, t, act);
    PlacesMove(o, Next(o, t, act), t, place);
  }

  lemma OnlyOneMoves(o: Obj, t: Tid, act: Act)
    requires Enabled(o, t, act)
    ensures forall u: Tid | u != t :: u in Next(o, t, act).pc <==> u in o.pc
    ensures forall u: Tid | u != t && u in o.pc :: Next(o, t, act).pc[u] == o.pc[u]
  {
  }

  lemma PlacesMove(o: Obj, w: Obj, t: Tid, place: PC -> bool)
    requires forall u: Tid | u != t :: u in w.pc <==> u in o.pc
    requires forall u: Tid | u != t && u in o.pc :: w.pc[u] == o.pc[u]
    ensures |At(w, place)| == |At(o, place)| + Here(w, t, place) - Here(o, t, place)
  {
    hide At;
    SameElsewhere(o, w, t, place);
    Without(At(w, place), t);
    Without(At(o, place), t);
    InPlace(o, t, place);
    InPlace(w, t, place);
  }

  lemma SameElsewhere(o: Obj, w: Obj, t: Tid, place: PC -> bool)
    requires forall u: Tid | u != t :: u in w.pc <==> u in o.pc
    requires forall u: Tid | u != t && u in o.pc :: w.pc[u] == o.pc[u]
    ensures At(w, place) - {t} == At(o, place) - {t}
  {
  }

  lemma InPlace(o: Obj, t: Tid, place: PC -> bool)
    ensures t in At(o, place) <==> Here(o, t, place) == 1
  {
  }

  lemma Without(s: set<Tid>, t: Tid)
    ensures |s - {t}| == |s| - if t in s then 1 else 0
  {
    if t !in s { assert s - {t} == s; }
  }

  // ---- Conservation ----

  /** Nothing is lost: what the semaphore has, and what the counter says is taken, make up the initial value, but for
      the threads between up and decrement and those between down and increment. */
  predicate Conserved(o: Obj, init: int) {
    o.count + o.locks == init + |At(o, AtDec)| - |At(o, AtInc)|
  }

  lemma StepConserves(o: Obj, t: Tid, act: Act, init: int)
    requires Conserved(o, init) && Enabled(o, t, act)
    ensures Conserved(Next(o, t, act), init)
  {
    StepMoves(o, t, act, AtDec);
    StepMoves(o, t, act, AtInc);
  }

  ghost predicate IsRun(states: seq<Obj>, steps: seq<(Tid, Act)>) {
    && |states| == |steps| + 1
    && forall i | 0 <= i < |steps| ::
         Enabled(states[i], steps[i].0, steps[i].1) && states[i + 1] == Next(states[i], steps[i].0, steps[i].1)
  }

  /** Over every run of a semaphore or an event, whatever the threads do. */
  lemma {:induction false} Conservation(states: seq<Obj>, steps: seq<(Tid, Act)>, i: nat, init: nat)
    requires IsRun(states, steps) && i < |states| && Starts(states[0], init)
    ensures Conserved(states[i], init)
  {
    if i == 0 {
      assert At(states[0], AtDec) == {} && At(states[0], AtInc) == {};
    } else {
      Conservation(states, steps, i - 1, init);
      StepConserves(states[i - 1], steps[i - 1].0, steps[i - 1].1, init);
    }
  }

  /** When every thread is outside or waiting, the two add up to the initial value. */
  lemma Quiescence(states: seq<Obj>, steps: seq<(Tid, Act)>, i: nat, init: nat)
    requires IsRun(states, steps) && i < |states| && Starts(states[0], init)
    requires forall t | t in states[i].pc :: states[i].pc[t].Down? || states[i].pc[t].Done?
    ensures states[i].count + states[i].locks == init
  {
    Conservation(states, steps, i, init);
    assert At(states[i], AtDec) == {} && At(states[i], AtInc) == {};
  }

  // ---- What a call has done when it returns ----

  /** What the steps of one thread from i up to j have added to the semaphore. */
  ghost function Posted(states: seq<Obj>, steps: seq<(Tid, Act)>, i: nat, j: nat, t: Tid): int
    requires i <= j <= |steps| < |states|
    decreases j
  {
    if i == j then 0
    else
      Posted(states, steps, i, j - 1, t)
      + (if steps[j - 1].0 == t then states[j].count - states[j - 1].count else 0)
  }

  /** And to the lock counter. */
  ghost function Counted(states: seq<Obj>, steps: seq<(Tid, Act)>, i: nat, j: nat, t: Tid): int
    requires i <= j <= |steps| < |states|
    decreases j
  {
    if i == j then 0
    else
      Counted(states, steps, i, j - 1, t)
      + (if steps[j - 1].0 == t then states[j].locks - states[j - 1].locks else 0)
  }

  /** The thread makes a call at i and has not returned from it before j. */
  ghost predicate InCall(steps: seq<(Tid, Act)>, i: nat, j: nat, t: Tid) {
    && i < j <= |steps| && steps[i].0 == t && (steps[i].1.CallLock? || steps[i].1.CallUnlock?)
    && forall k | i < k < j && steps[k].0 == t :: !steps[k].1.Return?
  }

  /** In the call the thread has read the counter, and found it 0 or not. */
  ghost predicate HasRead(states: seq<Obj>, steps: seq<(Tid, Act)>, i: nat, j: nat, t: Tid, zero: bool)
    requires j <= |steps| < |states|
  {
    exists k | i < k < j ::
      steps[k] == (t, Go) && t in states[k].pc && states[k].pc[t].Read? && (states[k].locks == 0 <==> zero)
  }

  ghost predicate GaveUp(states: seq<Obj>, steps: seq<(Tid, Act)>, i: nat, j: nat, t: Tid)
    requires j <= |steps| < |states|
  {
    exists k | i < k < j :: steps[k] == (t, TimeOut) && states[k].count == 0
  }

  /** How far the call has come, by what it has done so far. */
  ghost predicate Progress(states: seq<Obj>, steps: seq<(Tid, Act)>, i: nat, j: nat, t: Tid, pc: PC)
    requires i < j <= |steps| < |states|
  {
    var call, o := steps[i].1, states[j];
    var posted, counted := Posted(states, steps, i, j, t), Counted(states, steps, i, j, t);
    match pc
    case Down(timed) => call == CallLock(timed) && posted == 0 && counted == 0
    case Inc => call.CallLock? && posted == -1 && counted == 0
    case Read => call == CallUnlock && o.guarded && posted == 0 && counted == 0
    case Up => call == CallUnlock && posted == 0 && counted == 0 && Passes(states, steps, i, j, t)
    case Dec => call == CallUnlock && posted == 1 && counted == 0 && Passes(states, steps, i, j, t)
    case Done(ok) =>
      if call.CallLock? then
        posted == (if ok then -1 else 0) && counted == (if ok then 1 else 0)
        && (!ok ==> call.timed && GaveUp(states, steps, i, j, t))
      else
        ok
        && (if posted == 0 then counted == 0 && o.guarded && HasRead(states, steps, i, j, t, true)
            else posted == 1 && counted == -1 && Passes(states, steps, i, j, t))
  }

  ghost predicate Passes(states: seq<Obj>, steps: seq<(Tid, Act)>, i: nat, j: nat, t: Tid)
    requires j <= |steps| < |states|
  {
    states[j].guarded ==> HasRead(states, steps, i, j, t, false)
  }

  lemma {:induction false} CallProgress(states: seq<Obj>, steps: seq<(Tid, Act)>, i: nat, j: nat, t: Tid)
    requires IsRun(states, steps) && InCall(steps, i, j, t)
    ensures t in states[j].pc && Progress(states, steps, i, j, t, states[j].pc[t])
    ensures states[j].guarded == states[i].guarded
    decreases j
  {
    var o, u, act := states[j - 1], steps[j - 1].0, steps[j - 1].1;
    if i + 1 == j {
      assert Posted(states, steps, i, i, t) == 0 && Counted(states, steps, i, i, t) == 0;
    } else {
      CallProgress(states, steps, i, j - 1, t);
      OnlyOneMoves(o, u, act);
      StillRead(states, steps, i, j - 1, t);
      if u == t { OwnProgress(states, steps, i, j, t); }
    }
  }

  lemma StillRead(states: seq<Obj>, steps: seq<(Tid, Act)>, i: nat, j: nat, t: Tid)
    requires j < |steps| < |states|
    ensures forall zero | HasRead(states, steps, i, j, t, zero) :: HasRead(states, steps, i, j + 1, t, zero)
    ensures GaveUp(states, steps, i, j, t) ==> GaveUp(states, steps, i, j + 1, t)
  {
  }

  lemma OwnProgress(states: seq<Obj>, steps: seq<(Tid, Act)>, i: nat, j: nat, t: Tid)
    requires IsRun(states, steps) && InCall(steps, i, j, t) && i + 1 < j && steps[j - 1].0 == t
    requires t in states[j - 1].pc && Progress(states, steps, i, j - 1, t, states[j - 1].pc[t])
    ensures t in states[j].pc && Progress(states, steps, i, j, t, states[j].pc[t])
  {
    var o, act := states[j - 1], steps[j - 1].1;
    StillRead(states, steps, i, j - 1, t);
    if act.TimeOut? {
      assert steps[j - 1] == (t, TimeOut);
    } else if o.pc[t].Read? {
      assert steps[j - 1] == (t, Go);
      assert HasRead(states, steps, i, j, t, o.locks == 0);
    }
  }

  /** What a lock returns: success, if and only if its own steps took the semaphore and counted it; a failure means that
      they did nothing, and that a time limit ran out while the semaphore was 0. */
  lemma LockReturns(states: seq<Obj>, steps: seq<(Tid, Act)>, i: nat, j: nat, t: Tid, ok: bool)
    requires IsRun(states, steps) && j < |steps| && InCall(steps, i, j, t)
    requires steps[i].1.CallLock? && steps[j] == (t, Return(ok))
    ensures Posted(states, steps, i, j, t) == (if ok then -1 else 0)
    ensures Counted(states, steps, i, j, t) == (if ok then 1 else 0)
    ensures !ok ==> steps[i].1.timed && GaveUp(states, steps, i, j, t)
  {
    CallProgress(states, steps, i, j, t);
  }

  /** What an unlock has done: it always returns success; a semaphore it has posted and counted back, and so has an
      event if the counter it read was not 0, and nothing if it was. */
  lemma UnlockReturns(states: seq<Obj>, steps: seq<(Tid, Act)>, i: nat, j: nat, t: Tid, ok: bool)
    requires IsRun(states, steps) && j < |steps| && InCall(steps, i, j, t)
    requires steps[i].1.CallUnlock? && steps[j] == (t, Return(ok))
    ensures ok
    ensures Counted(states, steps, i, j, t) == -Posted(states, steps, i, j, t)
    ensures Posted(states, steps, i, j, t) == 1 || (states[i].guarded && Posted(states, steps, i, j, t) == 0)
    ensures states[i].guarded ==> HasRead(states, steps, i, j, t, Posted(states, steps, i, j, t) == 0)
  {
    CallProgress(states, steps, i, j, t);
  }

  // ---- Events: the guard ----

  /** The counter covers every decrement still to come. */
  predicate Covered(o: Obj) { o.locks >= |At(o, Passed)| }

  /** The guard decides on the counter alone. It decides right when it refuses, or when the counter is more than the
      number of threads that have passed it already. */
  predicate DecidesRight(o: Obj) { o.locks == 0 || o.locks > |At(o, Passed)| }

  /** For an event whose counter covers what is to come, a step keeps it so if and only if it is not a wrong decision
      of the guard. */
  lemma StepCovers(o: Obj, t: Tid, act: Act)
    requires o.guarded && Covered(o) && Enabled(o, t, act)
    ensures Covered(Next(o, t, act)) <==> (act.Go? && o.pc[t].Read? ==> DecidesRight(o))
  {
    StepMoves(o, t, act, Passed);
  }

  lemma DecIsPassed(o: Obj)
    ensures |At(o, AtDec)| <= |At(o, Passed)|
  {
    Smaller(At(o, AtDec), At(o, Passed));
  }

  lemma Smaller(a: set<Tid>, b: set<Tid>)
    requires a <= b
    ensures |a| <= |b|
  {
    assert b == a + (b - a);
  }

  /** A covered event is saturated: its semaphore is at most 1, its counter not negative. */
  lemma Saturated(o: Obj)
    requires Covered(o) && Conserved(o, 1)
    ensures o.count <= 1 && o.locks >= 0
  {
    DecIsPassed(o);
  }

  /** Runs of an event in which the guard decides right every time. */
  ghost predicate DecidedRight(states: seq<Obj>, steps: seq<(Tid, Act)>)
    requires IsRun(states, steps)
  {
    forall i | 0 <= i < |steps| && steps[i].1.Go? && states[i].pc[steps[i].0].Read? :: DecidesRight(states[i])
  }

  /** Then the event is saturated all along. */
  lemma {:induction false} RunSaturates(states: seq<Obj>, steps: seq<(Tid, Act)>, i: nat)
    requires IsRun(states, steps) && i < |states| && states[0] == NewEvent() && DecidedRight(states, steps)
    ensures states[i].guarded && Covered(states[i])
    ensures states[i].count <= 1 && states[i].locks >= 0
  {
    Conservation(states, steps, i, 1);
    if i == 0 {
      assert At(states[0], Passed) == {};
    } else {
      RunSaturates(states, steps, i - 1);
      StepCovers(states[i - 1], steps[i - 1].0, steps[i - 1].1);
    }
    Saturated(states[i]);
  }

  /** At most one thread is inside unlock or reset. */
  predicate OnePoster(o: Obj) {
    forall t, u | t in o.pc && u in o.pc :: Posting(o.pc[t]) && Posting(o.pc[u]) ==> t == u
  }

  predicate Posting(pc: PC) { pc.Read? || pc.Up? || pc.Dec? }

  lemma OnePosterDecidesRight(o: Obj, t: Tid)
    requires OnePoster(o) && t in o.pc && o.pc[t].Read? && o.locks >= 0
    ensures DecidesRight(o)
  {
    assert At(o, Passed) == {};
  }

  /** Saturation: with at most one thread at a time inside unlock or reset, and any number of threads waiting, an event
      never has more than one post, and its counter is never negative. */
  lemma {:induction false} EventSaturates(states: seq<Obj>, steps: seq<(Tid, Act)>, i: nat)
    requires IsRun(states, steps) && i < |states| && states[0] == NewEvent()
    requires forall j | 0 <= j < |states| :: OnePoster(states[j])
    ensures states[i].count <= 1 && states[i].locks >= 0
    ensures states[i].guarded && Covered(states[i])
  {
    Conservation(states, steps, i, 1);
    if i == 0 {
      assert At(states[0], Passed) == {};
    } else {
      EventSaturates(states, steps, i - 1);
      var o, t, act := states[i - 1], steps[i - 1].0, steps[i - 1].1;
      if act.Go? && o.pc[t].Read? { OnePosterDecidesRight(o, t); }
      StepCovers(o, t, act);
    }
    Saturated(states[i]);
  }

  // ---- Events: what a wrong decision leads to ----

  ghost predicate Leads(o: Obj, steps: seq<(Tid, Act)>, w: Obj)
    decreases |steps|
  {
    if steps == [] then w == o
    else Enabled(o, steps[0].0, steps[0].1) && Leads(Next(o, steps[0].0, steps[0].1), steps[1..], w)
  }

  lemma Onward(o: Obj, t: Tid, act: Act, steps: seq<(Tid, Act)>, w: Obj)
    requires Enabled(o, t, act) && Leads(Next(o, t, act), steps, w)
    ensures Leads(o, [(t, act)] + steps, w)
  {
    assert ([(t, act)] + steps)[1..] == steps;
  }

  const AtUp := (pc: PC) => pc.Up?

  /** The threads that have passed the guard can all finish. */
  lemma {:induction false} PassedFinish(o: Obj) returns (steps: seq<(Tid, Act)>, w: Obj)
    ensures Leads(o, steps, w)
    ensures w.locks == o.locks - |At(o, Passed)| && w.count == o.count + |At(o, AtUp)|
    decreases |At(o, Passed)|, |At(o, AtUp)|
  {
    if At(o, Passed) == {} {
      steps, w := [], o;
      Smaller(At(o, AtUp), At(o, Passed));
    } else {
      var t :| t in At(o, Passed);
      StepMoves(o, t, Go, Passed);
      StepMoves(o, t, Go, AtUp);
      steps, w := PassedFinish(Next(o, t, Go));
      Onward(o, t, Go, steps, w);
      steps := [(t, Go)] + steps;
    }
  }

  /** A wrong decision of the guard shows: the threads past it only have to finish, and the counter is negative. So
      the condition of StepCovers is exact. */
  lemma WrongDecisionShows(o: Obj, t: Tid) returns (steps: seq<(Tid, Act)>, w: Obj)
    requires Covered(o) && t in o.pc && o.pc[t].Read? && !DecidesRight(o)
    ensures Leads(Next(o, t, Go), steps, w) && w.locks == -1
  {
    StepMoves(o, t, Go, Passed);
    steps, w := PassedFinish(Next(o, t, Go));
  }

  /** A run with two posters: thread 1 takes the event, threads 2 and 3 both read the counter before either posts.
      The event then has two posts and the counter is -1. */
  lemma TwoPosters() returns (steps: seq<(Tid, Act)>, w: Obj)
    ensures Leads(NewEvent(), steps, w) && w.count == 2 && w.locks == -1
  {
    var taken := Obj(true, 0, 1, map[1 := Done(true)]);
    steps, w := BothPost(taken);
    var o1 := Next(NewEvent(), 1, CallLock(false));
    var o2 := Next(o1, 1, Go);
    assert Next(o2, 1, Go).pc == taken.pc;
    Onward(o2, 1, Go, steps, w);
    steps := [(1, Go)] + steps;
    Onward(o1, 1, Go, steps, w);
    steps := [(1, Go)] + steps;
    Onward(NewEvent(), 1, CallLock(false), steps, w);
    steps := [(1, CallLock(false))] + steps;
  }

  lemma BothPost(o: Obj) returns (steps: seq<(Tid, Act)>, w: Obj)
    requires o == Obj(true, 0, 1, map[1 := Done(true)])
    ensures Leads(o, steps, w) && w.count == 2 && w.locks == -1
  {
    var o1 := Next(o, 2, CallUnlock);
    var o2 := Next(o1, 3, CallUnlock);
    var o3 := Next(o2, 2, Go);
    var o4 := Next(o3, 3, Go);
    assert At(o4, Passed) == {2, 3} && At(o4, AtUp) == {2, 3};
    steps, w := PassedFinish(o4);
    Onward(o3, 3, Go, steps, w);
    steps := [(3, Go)] + steps;
    Onward(o2, 2, Go, steps, w);
    steps := [(2, Go)] + steps;
    Onward(o1, 3, CallUnlock, steps, w);
    steps := [(3, CallUnlock)] + steps;
    Onward(o, 2, CallUnlock, steps, w);
    steps := [(2, CallUnlock)] + steps;
  }

  // ---- Events: the aftermath ----

  /** An unlock is refused if and only if the counter is 0 when it is read. */
  lemma GuardRefuses(o: Obj, t: Tid)
    requires t in o.pc && o.pc[t].Read?
    ensures Next(o, t, Go).pc[t] == Done(true) <==> o.locks == 0
    ensures Next(o, t, Go).pc[t] == Up <==> o.locks != 0
  {
  }

  predicate IsCounting(o: Obj, t: Tid, act: Act, pc: PC) {
    act.Go? && t in o.pc && o.pc[t] == pc
  }

  /** How often a thread has stepped from this place, up to state i: for Inc that is the number of completed locks,
      for Dec of completed posts. */
  ghost function Completed(states: seq<Obj>, steps: seq<(Tid, Act)>, i: nat, pc: PC): nat
    requires i <= |steps| < |states|
  {
    if i == 0 then 0
    else
      Completed(states, steps, i - 1, pc)
      + (if IsCounting(states[i - 1], steps[i - 1].0, steps[i - 1].1, pc) then 1 else 0)
  }

  /** The counter is a ledger of locks and posts. */
  lemma {:induction false} Ledger(states: seq<Obj>, steps: seq<(Tid, Act)>, i: nat, init: int)
    requires IsRun(states, steps) && i <= |steps| && Conserved(states[0], init)
    ensures states[i].locks == states[0].locks + Completed(states, steps, i, Inc) - Completed(states, steps, i, Dec)
    ensures Conserved(states[i], init)
  {
    hide Next, Enabled, Conserved, IsCounting;
    if i > 0 {
      Ledger(states, steps, i - 1, init);
      StepConserves(states[i - 1], steps[i - 1].0, steps[i - 1].1, init);
      StepCounts(states[i - 1], steps[i - 1].0, steps[i - 1].1);
    }
  }

  lemma StepCounts(o: Obj, t: Tid, act: Act)
    requires Enabled(o, t, act)
    ensures Next(o, t, act).locks
            == o.locks + (if IsCounting(o, t, act, Inc) then 1 else 0) - (if IsCounting(o, t, act, Dec) then 1 else 0)
  {
  }

  predicate AtRest(o: Obj) {
    forall t | t in o.pc :: !o.pc[t].Inc? && !o.pc[t].Dec?
  }

  /** The aftermath of n posts too many, over every interleaving: the event is as new again, at a moment when no
      thread is between its two steps, if and only if the completed locks outnumber the completed posts by n since
      then. */
  lemma Aftermath(states: seq<Obj>, steps: seq<(Tid, Act)>, i: nat, n: nat)
    requires IsRun(states, steps) && i <= |steps|
    requires Conserved(states[0], 1) && states[0].locks == -(n as int) && AtRest(states[i])
    ensures states[i].count == 1 - states[i].locks
    ensures states[i].count == 1 && states[i].locks == 0
            <==> Completed(states, steps, i, Inc) == n + Completed(states, steps, i, Dec)
  {
    Ledger(states, steps, i, 1);
    assert At(states[i], AtDec) == {} && At(states[i], AtInc) == {};
  }

  lemma {:induction false} LeadsBoth(o: Obj, first: seq<(Tid, Act)>, m: Obj, second: seq<(Tid, Act)>, w: Obj)
    requires Leads(o, first, m) && Leads(m, second, w)
    ensures Leads(o, first + second, w)
    decreases |first|
  {
    if first == [] {
      assert first + second == second;
    } else {
      LeadsBoth(Next(o, first[0].0, first[0].1), first[1..], m, second, w);
      assert (first + second)[1..] == first[1..] + second;
    }
  }

  /** And n locks are enough: they take up the n posts, and the next unlock is refused. */
  lemma {:induction false} LocksHeal(o: Obj, t: Tid, n: nat) returns (steps: seq<(Tid, Act)>)
    requires o == Obj(true, 1 + n, -(n as int), map[])
    ensures Leads(o, steps, NewEvent()) && |steps| == 4 * n
    decreases n
  {
    if n == 0 {
      steps := [];
    } else {
      var w := Obj(true, n, 1 - n, map[]);
      OneLock(o, t, w);
      steps := LocksHeal(w, t, n - 1);
      LeadsBoth(o, [(t, CallLock(false)), (t, Go), (t, Go), (t, Return(true))], w, steps, NewEvent());
      steps := [(t, CallLock(false)), (t, Go), (t, Go), (t, Return(true))] + steps;
    }
  }

  lemma OneLock(o: Obj, t: Tid, w: Obj)
    requires o.pc == map[] && o.count > 0 && w == o.(count := o.count - 1, locks := o.locks + 1)
    ensures Leads(o, [(t, CallLock(false)), (t, Go), (t, Go), (t, Return(true))], w)
  {
    var o1 := MoveTo(o, t, Down(false));
    var o2 := Next(o1, t, Go);
    var o3 := Next(o2, t, Go);
    assert o3.pc - {t} == w.pc;
    Onward(o3, t, Return(true), [], w);
    Onward(o2, t, Go, [(t, Return(true))], w);
    assert [(t, Go)] + [(t, Return(true))] == [(t, Go), (t, Return(true))];
    Onward(o1, t, Go, [(t, Go), (t, Return(true))], w);
    assert [(t, Go)] + [(t, Go), (t, Return(true))] == [(t, Go), (t, Go), (t, Return(true))];
    Onward(o, t, CallLock(false), [(t, Go), (t, Go), (t, Return(true))], w);
    assert [(t, CallLock(false))] + [(t, Go), (t, Go), (t, Return(true))]
      == [(t, CallLock(false)), (t, Go), (t, Go), (t, Return(true))];
  }
}
