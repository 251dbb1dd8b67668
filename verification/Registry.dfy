/** The registry of named, counted objects. The driver holds four of them, for semaphores, mutexes, events and shared
    memory; their create, close and close-all functions differ only in what else an entry holds
    (linux/ipcdrv/ipcsem.c, ipcmutex.c, ipcevent.c, ipcshm.c). */
module Registry {
  import opened Scan

  const EINVAL := 22
  const EBUSY := 16

  /** One list entry: the address handed out for it, its name, and its owner count. */
  datatype Slot = Slot(handle: nat, name: string, count: int)

  /** The list, oldest entry first, and the next address the allocator hands out. */
  datatype Reg = Reg(slots: seq<Slot>, next: nat)

  const EMPTY := Reg([], 1)

  function Named(name: string): Slot -> bool { (s: Slot) => s.name == name }

  function Addressed(handle: nat): Slot -> bool { (s: Slot) => s.handle == handle }

  /** Position of the entry with this name, or the number of entries. */
  function Spot(r: Reg, name: string): (p: nat)
    ensures p <= |r.slots|
  {
    First(r.slots, 0, Named(name))
  }

  /** Position of the entry with this handle, or the number of entries. */
  function At(r: Reg, handle: nat): (p: nat)
    ensures p <= |r.slots|
  {
    First(r.slots, 0, Addressed(handle))
  }

  function Recount(r: Reg, p: nat, d: int): Reg
    requires p < |r.slots|
  {
    r.(slots := r.slots[p := r.slots[p].(count := r.slots[p].count + d)])
  }

  /** Opening a name: the count of its entry goes up, or a new entry is put at the end with count 1. */
  function Open(r: Reg, name: string): (Reg, nat) {
    var p := Spot(r, name);
    if p < |r.slots| then (Recount(r, p, 1), r.slots[p].handle)
    else (Reg(r.slots + [Slot(r.next, name, 1)], r.next + 1), r.next)
  }

  function Without(r: Reg, p: nat): Reg
    requires p < |r.slots|
  {
    r.(slots := r.slots[..p] + r.slots[p + 1..])
  }

  /** Closing a handle: -EINVAL for one that is not in the list, 0 for the last owner, whose entry is removed,
      and -EBUSY otherwise. */
  function Close(r: Reg, handle: nat): (Reg, int) {
    var p := At(r, handle);
    if p == |r.slots| then (r, -EINVAL)
    else if r.slots[p].count - 1 == 0 then (Without(r, p), 0)
    else (Recount(r, p, -1), -EBUSY)
  }

  function CloseAll(r: Reg): (Reg, int) {
    (r.(slots := []), if exists i | 0 <= i < |r.slots| :: r.slots[i].count != 0 then -EBUSY else 0)
  }

  // ---- What every run keeps ----

  predicate Distinct<T(==)>(xs: seq<T>) {
    forall i, j | 0 <= i < j < |xs| :: xs[i] != xs[j]
  }

  function Names(r: Reg): (ns: seq<string>)
    ensures |ns| == |r.slots| && forall i | 0 <= i < |ns| :: ns[i] == r.slots[i].name
  {
    seq(|r.slots|, i requires 0 <= i < |r.slots| => r.slots[i].name)
  }

  function Handles(r: Reg): (hs: seq<nat>)
    ensures |hs| == |r.slots| && forall i | 0 <= i < |hs| :: hs[i] == r.slots[i].handle
  {
    seq(|r.slots|, i requires 0 <= i < |r.slots| => r.slots[i].handle)
  }

  predicate Owned(r: Reg) {
    0 < r.next && forall i | 0 <= i < |r.slots| :: r.slots[i].count >= 1 && 0 < r.slots[i].handle < r.next
  }

  predicate Inv(r: Reg) {
    Owned(r) && Distinct(Names(r)) && Distinct(Handles(r))
  }

  lemma RecountKeepsInv(r: Reg, p: nat, d: int)
    requires Inv(r) && p < |r.slots| && r.slots[p].count + d >= 1
    ensures Inv(Recount(r, p, d))
  {
    var w := Recount(r, p, d);
    assert Names(w) == Names(r) && Handles(w) == Handles(r);
  }

  lemma DistinctPush<T>(xs: seq<T>, x: T)
    requires Distinct(xs) && forall i | 0 <= i < |xs| :: xs[i] != x
    ensures Distinct(xs + [x])
  {
  }

  lemma DistinctDrop<T>(xs: seq<T>, p: nat)
    requires Distinct(xs) && p < |xs|
    ensures Distinct(xs[..p] + xs[p + 1..])
  {
    var w := xs[..p] + xs[p + 1..];
    forall i, j | 0 <= i < j < |w| ensures w[i] != w[j] {
      assert w[i] == xs[if i < p then i else i + 1] && w[j] == xs[if j < p then j else j + 1];
    }
  }

  lemma SpotFound(r: Reg, name: string)
    ensures forall j | 0 <= j < Spot(r, name) :: r.slots[j].name != name
    ensures Spot(r, name) < |r.slots| ==> r.slots[Spot(r, name)].name == name
  {
    Found(r.slots, 0, Named(name));
    assert forall s: Slot :: Named(name)(s) == (s.name == name);
  }

  lemma AtFound(r: Reg, handle: nat)
    ensures forall j | 0 <= j < At(r, handle) :: r.slots[j].handle != handle
    ensures At(r, handle) < |r.slots| ==> r.slots[At(r, handle)].handle == handle
  {
    Found(r.slots, 0, Addressed(handle));
    assert forall s: Slot :: Addressed(handle)(s) == (s.handle == handle);
  }

  lemma OpenKeepsInv(r: Reg, name: string)
    requires Inv(r)
    ensures Inv(Open(r, name).0)
  {
    SpotFound(r, name);
    if Spot(r, name) < |r.slots| {
      RecountKeepsInv(r, Spot(r, name), 1);
    } else {
      var w := Open(r, name).0;
      DistinctPush(Names(r), name);
      DistinctPush(Handles(r), r.next);
      assert Names(w) == Names(r) + [name] && Handles(w) == Handles(r) + [r.next];
    }
  }

  lemma WithoutKeepsInv(r: Reg, p: nat)
    requires Inv(r) && p < |r.slots|
    ensures Inv(Without(r, p))
  {
    var w := Without(r, p);
    DistinctDrop(Names(r), p);
    DistinctDrop(Handles(r), p);
    assert Names(w) == Names(r)[..p] + Names(r)[p + 1..];
    assert Handles(w) == Handles(r)[..p] + Handles(r)[p + 1..];
    assert forall i | 0 <= i < |w.slots| :: w.slots[i] == r.slots[if i < p then i else i + 1];
  }

  lemma CloseKeepsInv(r: Reg, handle: nat)
    requires Inv(r)
    ensures Inv(Close(r, handle).0)
  {
    var p := At(r, handle);
    if p < |r.slots| {
      if r.slots[p].count == 1 { WithoutKeepsInv(r, p); } else { RecountKeepsInv(r, p, -1); }
    }
  }

  // ---- The list as a map: owner counts by handle and by name ----

  /** Owner count of the first entry that satisfies a test; 0 when there is none. */
  function Tally(r: Reg, test: Slot -> bool): int {
    var p := First(r.slots, 0, test);
    if p < |r.slots| then r.slots[p].count else 0
  }

  function Count(r: Reg, handle: nat): int { Tally(r, Addressed(handle)) }

  function NameCount(r: Reg, name: string): int { Tally(r, Named(name)) }

  predicate Live(r: Reg, handle: nat) { At(r, handle) < |r.slots| }

  function NameOf(r: Reg, handle: nat): string
    requires Live(r, handle)
  {
    r.slots[At(r, handle)].name
  }

  /** At most the entry at p satisfies the test. */
  predicate Sole(r: Reg, p: nat, test: Slot -> bool) {
    forall i | 0 <= i < |r.slots| && i != p :: !test(r.slots[i])
  }

  lemma TallyOfRecount(r: Reg, p: nat, d: int, test: Slot -> bool)
    requires p < |r.slots| && test(Recount(r, p, d).slots[p]) == test(r.slots[p])
    requires test(r.slots[p]) ==> Sole(r, p, test)
    ensures Tally(Recount(r, p, d), test) == Tally(r, test) + if test(r.slots[p]) then d else 0
  {
    FirstAfterExchange(r.slots, p, Recount(r, p, d).slots[p], 0, test);
    Found(r.slots, 0, test);
  }

  lemma TallyOfPush(r: Reg, s: Slot, test: Slot -> bool)
    requires test(s) ==> Sole(r, |r.slots|, test)
    ensures Tally(r.(slots := r.slots + [s]), test) == Tally(r, test) + if test(s) then s.count else 0
  {
    Pushed(r.slots, s);
    FirstAroundInsertion(r.slots + [s], r.slots, |r.slots|, s, 0, test);
    Found(r.slots, 0, test);
  }

  lemma TallyOfWithout(r: Reg, p: nat, test: Slot -> bool)
    requires p < |r.slots| && (test(r.slots[p]) ==> Sole(r, p, test))
    ensures Tally(Without(r, p), test) == Tally(r, test) - if test(r.slots[p]) then r.slots[p].count else 0
  {
    var w := Without(r, p).slots;
    assert IsInsertion(r.slots, w, p, r.slots[p]);
    FirstAroundInsertion(r.slots, w, p, r.slots[p], 0, test);
    Found(w, 0, test);
    if test(r.slots[p]) {
      forall i | 0 <= i < |w| ensures !test(w[i]) { assert w[i] == r.slots[if i < p then i else i + 1]; }
    }
  }

  lemma OneName(r: Reg, p: nat, name: string)
    requires Inv(r) && p < |r.slots| && r.slots[p].name == name
    ensures Sole(r, p, Named(name))
  {
    assert Names(r)[p] == name;
    forall i | 0 <= i < |r.slots| && i != p ensures !Named(name)(r.slots[i]) {
      assert Names(r)[i] != Names(r)[p];
    }
  }

  lemma OneHandle(r: Reg, p: nat, handle: nat)
    requires Inv(r) && p < |r.slots| && r.slots[p].handle == handle
    ensures Sole(r, p, Addressed(handle))
  {
    assert Handles(r)[p] == handle;
    forall i | 0 <= i < |r.slots| && i != p ensures !Addressed(handle)(r.slots[i]) {
      assert Handles(r)[i] != Handles(r)[p];
    }
  }

  /** Opening adds 1 at the handle returned and at the name, and nothing anywhere else. */
  lemma OpenAddsOne(r: Reg, name: string, handle: nat, other: string)
    requires Inv(r)
    ensures Count(Open(r, name).0, handle) == Count(r, handle) + if Open(r, name).1 == handle then 1 else 0
    ensures NameCount(Open(r, name).0, other) == NameCount(r, other) + if name == other then 1 else 0
  {
    SpotFound(r, name);
    var p := Spot(r, name);
    if p < |r.slots| {
      if r.slots[p].handle == handle { OneHandle(r, p, handle); }
      TallyOfRecount(r, p, 1, Addressed(handle));
      if name == other { OneName(r, p, name); }
      TallyOfRecount(r, p, 1, Named(other));
    } else {
      TallyOfPush(r, Slot(r.next, name, 1), Addressed(handle));
      TallyOfPush(r, Slot(r.next, name, 1), Named(other));
    }
  }

  /** Closing a live handle takes 1 off the handle and off its name, and nothing off any other. */
  lemma CloseTakesOne(r: Reg, h: nat, handle: nat, other: string)
    requires Inv(r) && Live(r, h)
    ensures Close(r, h).1 != -EINVAL
    ensures Count(Close(r, h).0, handle) == Count(r, handle) - if h == handle then 1 else 0
    ensures NameCount(Close(r, h).0, other) == NameCount(r, other) - if NameOf(r, h) == other then 1 else 0
  {
    AtFound(r, h);
    var p := At(r, h);
    if h == handle { OneHandle(r, p, h); }
    if r.slots[p].name == other { OneName(r, p, other); }
    if r.slots[p].count == 1 {
      TallyOfWithout(r, p, Addressed(handle));
      TallyOfWithout(r, p, Named(other));
    } else {
      TallyOfRecount(r, p, -1, Addressed(handle));
      TallyOfRecount(r, p, -1, Named(other));
    }
  }

  lemma CountIsPositive(r: Reg, handle: nat)
    requires Inv(r)
    ensures Count(r, handle) >= 0
    ensures Live(r, handle) <==> Count(r, handle) > 0
  {
  }

  /** Which handles are live after an open, and how often they are owned. */
  lemma AfterOpen(r: Reg, name: string, k: nat)
    requires Inv(r)
    ensures var (w, h) := Open(r, name);
            && (Live(w, k) <==> Live(r, k) || k == h)
            && Count(w, k) == Count(r, k) + if k == h then 1 else 0
  {
    OpenKeepsInv(r, name);
    OpenAddsOne(r, name, k, name);
    CountIsPositive(r, k);
    CountIsPositive(Open(r, name).0, k);
  }

  /** The same for a close: the last owner takes the entry off the list. */
  lemma AfterClose(r: Reg, h: nat, k: nat)
    requires Inv(r) && Live(r, h)
    ensures var (w, error) := Close(r, h);
            && error == (if Count(r, h) == 1 then 0 else -EBUSY)
            && Count(w, k) == Count(r, k) - (if k == h then 1 else 0)
            && (Live(w, k) <==> Live(r, k) && (k == h ==> error != 0))
  {
    CloseKeepsInv(r, h);
    CloseTakesOne(r, h, k, "");
    CountIsPositive(r, k);
    CountIsPositive(Close(r, h).0, k);
  }

  // ---- Whole runs ----

  datatype Op = OpenOp(name: string) | CloseOp(handle: nat)

  function Step(r: Reg, op: Op): Reg {
    match op
    case OpenOp(name) => Open(r, name).0
    case CloseOp(handle) => Close(r, handle).0
  }

  function After(ops: seq<Op>): Reg {
    if ops == [] then EMPTY else Step(After(ops[..|ops| - 1]), ops[|ops| - 1])
  }

  /** What a caller sees of an operation, as a change of the number of times a handle is owned: an open that
      returned the handle, or a close of it that was not refused. */
  function Change(r: Reg, op: Op, handle: nat): int {
    match op
    case OpenOp(name) => if Open(r, name).1 == handle then 1 else 0
    case CloseOp(h) => if h == handle && Close(r, h).1 != -EINVAL then -1 else 0
  }

  /** Opens that returned the handle minus closes of it that were accepted. */
  function Balance(ops: seq<Op>, handle: nat): int {
    if ops == [] then 0
    else
      var was := ops[..|ops| - 1];
      Balance(was, handle) + Change(After(was), ops[|ops| - 1], handle)
  }

  lemma ChangeIsCount(r: Reg, op: Op, handle: nat)
    requires Inv(r)
    ensures Inv(Step(r, op))
    ensures Count(Step(r, op), handle) == Count(r, handle) + Change(r, op, handle)
  {
    match op
    case OpenOp(name) =>
      OpenKeepsInv(r, name);
      OpenAddsOne(r, name, handle, name);
    case CloseOp(h) =>
      CloseKeepsInv(r, h);
      if Live(r, h) { CloseTakesOne(r, h, handle, ""); }
  }

  /** Over every run the names in the list are pairwise distinct, and the owner count of every handle is the number
      of opens that returned it minus the number of closes of it; it is in the list exactly while that is not 0. */
  lemma {:induction false} CountIsBalance(ops: seq<Op>, handle: nat)
    ensures Inv(After(ops))
    ensures Count(After(ops), handle) == Balance(ops, handle) >= 0
    ensures Live(After(ops), handle) <==> Balance(ops, handle) > 0
  {
    if ops != [] {
      CountIsBalance(ops[..|ops| - 1], handle);
      ChangeIsCount(After(ops[..|ops| - 1]), ops[|ops| - 1], handle);
    }
    CountIsPositive(After(ops), handle);
  }

  /** So the result of a close is determined by the history: -EINVAL without an open to balance, 0 for the balancing
      close, after which the entry is gone, and -EBUSY before that. */
  lemma CloseResult(ops: seq<Op>, handle: nat)
    ensures var b, r := Balance(ops, handle), Close(After(ops), handle);
            && r.1 == (if b == 0 then -EINVAL else if b == 1 then 0 else -EBUSY)
            && (Live(r.0, handle) <==> b > 1)
  {
    var r := After(ops);
    CountIsBalance(ops, handle);
    CloseKeepsInv(r, handle);
    if Live(r, handle) { CloseTakesOne(r, handle, handle, ""); }
    CountIsPositive(Close(r, handle).0, handle);
  }

  /** Opening a name that is in the list returns the handle of its entry; opening any other name returns a handle that
      is not in the list. Either way the handle then is in the list under that name. */
  lemma OpenResult(ops: seq<Op>, name: string)
    ensures var r, w := After(ops), Open(After(ops), name);
            && Live(w.0, w.1) && NameOf(w.0, w.1) == name
            && (Live(r, w.1) ==> NameOf(r, w.1) == name)
            && (NameCount(r, name) > 0 <==> Live(r, w.1))
  {
    var r := After(ops);
    CountIsBalance(ops, 0);
    OpenKeepsInv(r, name);
    SpotFound(r, name);
    HandleAt(Open(r, name).0, Spot(r, name));
    if Spot(r, name) < |r.slots| { HandleAt(r, Spot(r, name)); } else { NextIsNotLive(r); }
  }

  lemma HandleAt(r: Reg, p: nat)
    requires Inv(r) && p < |r.slots|
    ensures At(r, r.slots[p].handle) == p
  {
    AtFound(r, r.slots[p].handle);
    OneHandle(r, p, r.slots[p].handle);
    assert Addressed(r.slots[p].handle)(r.slots[p]);
  }

  lemma OneHandlePerName(r: Reg, h: nat, k: nat)
    requires Inv(r) && Live(r, h) && Live(r, k) && NameOf(r, h) == NameOf(r, k)
    ensures h == k
  {
    AtFound(r, h);
    AtFound(r, k);
    assert Names(r)[At(r, h)] == Names(r)[At(r, k)];
  }

  lemma NameKept(r: Reg, w: Reg, k: nat, q: nat)
    requires Inv(w) && Live(r, k) && q < |w.slots|
    requires w.slots[q].handle == k && w.slots[q].name == NameOf(r, k)
    ensures Live(w, k) && NameOf(w, k) == NameOf(r, k)
  {
    HandleAt(w, q);
  }

  lemma NamesAfterOpen(r: Reg, name: string, k: nat)
    requires Inv(r)
    ensures var (w, h) := Open(r, name);
            && Live(w, h) && NameOf(w, h) == name
            && (Live(r, k) ==> Live(w, k) && NameOf(w, k) == NameOf(r, k))
  {
    var (w, h) := Open(r, name);
    OpenKeepsInv(r, name);
    SpotFound(r, name);
    HandleAt(w, Spot(r, name));
    if Live(r, k) {
      AtFound(r, k);
      NameKept(r, w, k, At(r, k));
    }
  }

  lemma NamesAfterClose(r: Reg, h: nat, k: nat)
    requires Inv(r) && Live(r, h) && Live(r, k) && Live(Close(r, h).0, k)
    ensures NameOf(Close(r, h).0, k) == NameOf(r, k)
  {
    CloseKeepsInv(r, h);
    AtFound(r, h);
    AtFound(r, k);
    AfterClose(r, h, k);
    var p, q := At(r, h), At(r, k);
    if r.slots[p].count != 1 {
      NameKept(r, Close(r, h).0, k, q);
    } else if p != q {
      NameKept(r, Close(r, h).0, k, if q < p then q else q - 1);
    }
  }

  lemma NextIsNotLive(r: Reg)
    requires Inv(r)
    ensures !Live(r, r.next)
  {
    AtFound(r, r.next);
  }

  /** Closing all empties the list, and reports -EBUSY if and only if it was not empty. */
  lemma CloseAllResult(ops: seq<Op>)
    ensures var r := After(ops);
            && CloseAll(r).0.slots == []
            && CloseAll(r).1 == if r.slots == [] then 0 else -EBUSY
  {
    CountIsBalance(ops, 0);
    var r := After(ops);
    if r.slots != [] { assert r.slots[0].count != 0; }
  }
}
