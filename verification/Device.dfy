/** The device file of the driver: which registry a command goes to, the use count, and the purge at the last close
    (linux/ipcdrv/ipcmodule.c). */
module Device {
  import opened Registry

  const ENODEV := 19

  /** The four registries, and so the four groups of commands. */
  datatype Kind = SemKind | MutexKind | EventKind | ShmKind

  const KINDS := 4

  function Index(kind: Kind): (i: nat)
    ensures i < KINDS
  {
    match kind
    case SemKind => 0
    case MutexKind => 1
    case EventKind => 2
    case ShmKind => 3
  }

  /** The commands that change a registry, and the rest: lock, unlock and reset work on an entry and report the
      outcome of its lock protocol; a number that names no command is refused. */
  datatype Command = OpenCommand(kind: Kind, name: string) | CloseCommand(kind: Kind, handle: nat)
                   | EntryCommand(outcome: int) | UnknownCommand

  /** m_usage, the files whose private_data is set, and the lists. */
  datatype State<F> = State(usage: int, files: set<F>, regs: seq<Reg>)

  function Fresh<F>(): State<F> { State(0, {}, [EMPTY, EMPTY, EMPTY, EMPTY]) }

  function OpenFile<F(==)>(s: State<F>, f: F): State<F> {
    State(s.usage + 1, s.files + {f}, s.regs)
  }

  /** The last file to close purges all four lists. */
  function CloseFile<F(==)>(s: State<F>, f: F): State<F> {
    State(s.usage - 1, s.files - {f}, if s.usage - 1 == 0 then Purged(s.regs) else s.regs)
  }

  function Purged(regs: seq<Reg>): (ps: seq<Reg>)
    ensures |ps| == |regs| && forall k | 0 <= k < |regs| :: ps[k] == Registry.CloseAll(regs[k]).0
  {
    seq(|regs|, k requires 0 <= k < |regs| => Registry.CloseAll(regs[k]).0)
  }

  /** A file that is not open is refused. Creating returns 0 whether the name was new or not. */
  function Ioctl<F(==)>(s: State<F>, f: F, command: Command): (State<F>, int)
    requires |s.regs| == KINDS
  {
    if f !in s.files then (s, -ENODEV)
    else match command
      case OpenCommand(kind, name) =>
        (s.(regs := s.regs[Index(kind) := Registry.Open(s.regs[Index(kind)], name).0]), 0)
      case CloseCommand(kind, handle) =>
        var c := Registry.Close(s.regs[Index(kind)], handle);
        (s.(regs := s.regs[Index(kind) := c.0]), Reported(kind, c.1))
      case EntryCommand(outcome) => (s, outcome)
      case UnknownCommand => (s, -EINVAL)
  }

  /** The close command of the mutexes alone hides that the object is still in use (linux/ipcdrv/ioctlrw.c:182-188). */
  function Reported(kind: Kind, error: int): int {
    if kind.MutexKind? && error == -EBUSY then 0 else error
  }

  /** What an open command does: one more at this name, and at the handle it hands out, in this registry; nothing
      else. */
  lemma OpenCounts<F>(s: State<F>, f: F, kind: Kind, name: string, other: Kind, n: string, handle: nat)
    requires Inv(s) && f in s.files
    ensures var (w, error) := Ioctl(s, f, OpenCommand(kind, name));
            && error == 0
            && NameCount(w.regs[Index(other)], n)
               == NameCount(s.regs[Index(other)], n) + (if kind == other && name == n then 1 else 0)
            && Count(w.regs[Index(other)], handle)
               == Count(s.regs[Index(other)], handle)
                  + if kind == other && Registry.Open(s.regs[Index(kind)], name).1 == handle then 1 else 0
  {
    OpenAddsOne(s.regs[Index(kind)], name, handle, n);
  }

  /** What a close command does, and what it reports: 0 for the last owner, -EINVAL for a handle that is not there,
      and for an object still in use -EBUSY, but 0 if it is a mutex. */
  lemma CloseCounts<F>(s: State<F>, f: F, kind: Kind, h: nat, other: Kind, n: string, handle: nat)
    requires Inv(s) && f in s.files
    ensures var (w, error) := Ioctl(s, f, CloseCommand(kind, h));
            var owners, live := Count(s.regs[Index(kind)], h), Live(s.regs[Index(kind)], h);
            && error == (if owners == 0 then -22 else if owners == 1 || kind == MutexKind then 0 else -16)
            && NameCount(w.regs[Index(other)], n)
               == NameCount(s.regs[Index(other)], n)
                  - (if kind == other && live && NameOf(s.regs[Index(kind)], h) == n then 1 else 0)
            && Count(w.regs[Index(other)], handle)
               == Count(s.regs[Index(other)], handle) - if kind == other && h == handle && owners > 0 then 1 else 0
  {
    var r := s.regs[Index(kind)];
    CountIsPositive(r, h);
    if Live(r, h) {
      CloseTakesOne(r, h, handle, n);
      AfterClose(r, h, h);
    }
  }

  /** While another file is open, closing one leaves all lists as they are. */
  lemma CloseKeepsObjects<F>(s: State<F>, f: F, g: F)
    requires Inv(s) && f in s.files && g in s.files && f != g
    ensures CloseFile(s, f).regs == s.regs
  {
    var others := s.files - {f};
    assert g in others && |others - {g}| == |others| - 1;
  }

  // ---- Whole runs ----

  datatype Call<F> = OpenCall(f: F) | CloseCall(f: F) | IoctlCall(f: F, command: Command)

  /** The kernel opens a file once and releases it once. It may be asked for an ioctl on any file. */
  predicate Allowed<F(==)>(s: State<F>, c: Call<F>) {
    match c
    case OpenCall(f) => f !in s.files
    case CloseCall(f) => f in s.files
    case IoctlCall(f, _) => true
  }

  function Step<F(==)>(s: State<F>, c: Call<F>): State<F>
    requires |s.regs| == KINDS
  {
    match c
    case OpenCall(f) => OpenFile(s, f)
    case CloseCall(f) => CloseFile(s, f)
    case IoctlCall(f, command) => Ioctl(s, f, command).0
  }

  ghost predicate IsRun<F>(states: seq<State<F>>, calls: seq<Call<F>>) {
    && |states| == |calls| + 1 && states[0] == Fresh()
    && forall i | 0 <= i < |calls| ::
         |states[i].regs| == KINDS && Allowed(states[i], calls[i]) && states[i + 1] == Step(states[i], calls[i])
  }

  predicate Inv<F(==)>(s: State<F>) {
    && |s.regs| == KINDS && s.usage == |s.files|
    && (forall k | 0 <= k < KINDS :: Registry.Inv(s.regs[k]))
    && (s.usage == 0 ==> forall k | 0 <= k < KINDS :: s.regs[k].slots == [])
  }

  lemma FreshInv<F>()
    ensures Inv(Fresh<F>())
  {
  }

  lemma OpenFileKeepsInv<F>(s: State<F>, f: F)
    requires Inv(s) && f !in s.files
    ensures Inv(OpenFile(s, f))
  {
  }

  lemma CloseFileKeepsInv<F>(s: State<F>, f: F)
    requires Inv(s) && f in s.files
    ensures Inv(CloseFile(s, f))
  {
  }

  lemma IoctlKeepsInv<F>(s: State<F>, f: F, command: Command)
    requires Inv(s)
    ensures Inv(Ioctl(s, f, command).0)
    ensures Ioctl(s, f, command).0.usage == s.usage && Ioctl(s, f, command).0.files == s.files
    ensures f !in s.files ==> Ioctl(s, f, command) == (s, -19)
    ensures f in s.files && command.UnknownCommand? ==> Ioctl(s, f, command) == (s, -22)
  {
    if f in s.files {
      match command
      case OpenCommand(kind, name) => OpenKeepsInv(s.regs[Index(kind)], name);
      case CloseCommand(kind, handle) => CloseKeepsInv(s.regs[Index(kind)], handle);
      case _ =>
    }
  }

  /** No object outlives the last open file: at every moment of every run the use count is the number of open files,
      and when it is 0 all four lists are empty. */
  lemma {:induction false} NoObjectOutlives<F>(states: seq<State<F>>, calls: seq<Call<F>>, i: nat)
    requires IsRun(states, calls) && i < |states|
    ensures Inv(states[i])
  {
    if i > 0 {
      NoObjectOutlives(states, calls, i - 1);
      var s := states[i - 1];
      match calls[i - 1]
      case OpenCall(f) => OpenFileKeepsInv(s, f);
      case CloseCall(f) => CloseFileKeepsInv(s, f);
      case IoctlCall(f, command) => IoctlKeepsInv(s, f, command);
    } else {
      FreshInv<F>();
    }
  }

  /** How often a handle is owned, as the callers see it: the open commands that returned it minus the close commands of
      it, since there was last no open file. */
  ghost function Owned<F>(states: seq<State<F>>, calls: seq<Call<F>>, i: nat, kind: Kind, handle: nat): int
    requires IsRun(states, calls) && i < |states|
  {
    if i == 0 then 0
    else
      var was, s := Owned(states, calls, i - 1, kind, handle), states[i - 1];
      match calls[i - 1]
      case OpenCall(_) => was
      case CloseCall(f) => if s.files == {f} then 0 else was
      case IoctlCall(f, command) => if f in s.files then was + Change(s, command, kind, handle, was) else was
  }

  function Change<F(==)>(s: State<F>, command: Command, kind: Kind, handle: nat, was: int): int
    requires |s.regs| == KINDS
  {
    match command
    case OpenCommand(k, name) => if k == kind && Registry.Open(s.regs[Index(k)], name).1 == handle then 1 else 0
    case CloseCommand(k, h) => if k == kind && h == handle && was > 0 then -1 else 0
    case EntryCommand(_) => 0
    case UnknownCommand => 0
  }

  /** Over every run, whatever files are opened and closed in between: the owner count of a handle is what its
      callers see, and the object is there exactly while that is positive. */
  lemma {:induction false} CountIsOwned<F>(states: seq<State<F>>, calls: seq<Call<F>>, i: nat, kind: Kind, handle: nat)
    requires IsRun(states, calls) && i < |states|
    ensures |states[i].regs| == KINDS
    ensures Count(states[i].regs[Index(kind)], handle) == Owned(states, calls, i, kind, handle) >= 0
    ensures Live(states[i].regs[Index(kind)], handle) <==> Owned(states, calls, i, kind, handle) > 0
  {
    hide Registry.Inv, Count, Live, Ioctl;
    NoObjectOutlives(states, calls, i);
    if i == 0 {
      assert Count(EMPTY, handle) == 0 by { EmptyCounts(EMPTY, handle); }
    } else {
      CountIsOwned(states, calls, i - 1, kind, handle);
      NoObjectOutlives(states, calls, i - 1);
      StepCounts(states[i - 1], calls[i - 1], kind, handle);
    }
    CountIsPositive(states[i].regs[Index(kind)], handle);
  }

  lemma EmptyCounts(r: Reg, handle: nat)
    requires r.slots == []
    ensures Count(r, handle) == 0
  {
  }

  lemma StepCounts<F>(s: State<F>, c: Call<F>, kind: Kind, handle: nat)
    requires Inv(s) && Allowed(s, c)
    ensures var was, now := Count(s.regs[Index(kind)], handle), Count(Step(s, c).regs[Index(kind)], handle);
            match c
            case OpenCall(_) => now == was
            case CloseCall(f) => now == if s.files == {f} then 0 else was
            case IoctlCall(f, command) =>
              now == if f in s.files then was + Change(s, command, kind, handle, was) else was
  {
    hide Registry.Inv, Count;
    match c
    case OpenCall(_) =>
    case CloseCall(f) =>
      if s.files == {f} {
        EmptyCounts(Step(s, c).regs[Index(kind)], handle);
      } else {
        var g :| g in s.files && g != f;
        CloseKeepsObjects(s, f, g);
      }
    case IoctlCall(f, command) =>
      if f in s.files {
        match command
        case OpenCommand(k, name) => OpenCounts(s, f, k, name, kind, "", handle);
        case CloseCommand(k, h) =>
          CloseCounts(s, f, k, h, kind, "", handle);
          CountIsPositive(s.regs[Index(kind)], handle);
        case _ =>
      }
  }

  /** So an object that was opened stays, as long as some file is open and its handle is not closed. */
  lemma {:induction false} StaysLive<F>(states: seq<State<F>>, calls: seq<Call<F>>, i: nat, j: nat, kind: Kind,
                                        handle: nat)
    requires IsRun(states, calls) && i <= j < |states| && |states[i].regs| == KINDS
    requires Live(states[i].regs[Index(kind)], handle)
    requires forall k | i <= k <= j :: states[k].files != {}
    requires forall k | i <= k < j && calls[k].IoctlCall? :: calls[k].command != CloseCommand(kind, handle)
    ensures |states[j].regs| == KINDS && Live(states[j].regs[Index(kind)], handle)
    decreases j
  {
    hide Registry.Inv, Count, Live, Allowed, Registry.Open, Registry.Close, Purged;
    CountIsOwned(states, calls, j, kind, handle);
    if i < j {
      StaysLive(states, calls, i, j - 1, kind, handle);
      CountIsOwned(states, calls, j - 1, kind, handle);
    }
  }
}
