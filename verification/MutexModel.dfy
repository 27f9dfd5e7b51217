/** The recursive mutex as a system of threads that take turns: one step is what a thread does
    between two points where another may run. */
module MutexModel {
  import opened Wrappers

  type Thread = nat
  type Mutex = nat

  /** One element of the owner list. */
  datatype Entry = Entry(mx: Mutex, id: Thread, count: nat)

  /** Where a thread stands. The scans carry the index of the current list element. */
  datatype Pc =
    | Idle
    | LockEnter(m: Mutex)
    | LockScan(m: Mutex, at: nat)
    | LockLeave(m: Mutex, owned: bool)
    | LockWait(m: Mutex)
    | UnlockEnter(m: Mutex)
    | UnlockScan(m: Mutex, at: nat)
    | UnlockRelease(m: Mutex)
    | UnlockLeave(m: Mutex)

  /** The calls that have returned, oldest first. */
  datatype Call = Locked(t: Thread, m: Mutex) | LockFailed(t: Thread, m: Mutex) | Unlocked(t: Thread, m: Mutex)

  datatype State = State(
    listLock: Option<Thread>, owners: seq<Entry>, held: map<Mutex, Thread>, pcs: map<Thread, Pc>, history: seq<Call>)
  {
    function Pc(t: Thread): Pc {
      if t in pcs then pcs[t] else Idle
    }

    function Goto(t: Thread, pc: Pc): State {
      this.(pcs := pcs[t := pc])
    }

    function Return(t: Thread, c: Call): State {
      this.(pcs := pcs[t := Idle], history := history + [c])
    }

    predicate Holds(t: Thread, m: Mutex) {
      m in held && held[m] == t
    }
  }

  const Initial := State(None, [], map[], map[], [])

  /** A thread calls lock or unlock, goes on with the call it is in, or goes on and finds no
      memory for a new list element. */
  datatype Action = CallLock(m: Mutex) | CallUnlock(m: Mutex) | Proceed | NoMemory

  predicate Enabled(s: State, t: Thread, a: Action) {
    match a
    case CallLock(_) => s.Pc(t).Idle?
    case CallUnlock(_) => s.Pc(t).Idle?
    case NoMemory => s.Pc(t).LockScan? && s.Pc(t).at >= |s.owners|
    case Proceed =>
      match s.Pc(t)
      case Idle => false
      case LockEnter(_) => s.listLock.None?
      case UnlockEnter(_) => s.listLock.None?
      case LockWait(m) => m !in s.held
      case _ => true
  }

  /** `current` of the list walk belongs to thread `t` and mutex `m`. */
  predicate Matches(e: Entry, m: Mutex, t: Thread) {
    e.mx == m && e.id == t
  }

  function Apply(s: State, t: Thread, a: Action): State
    requires Enabled(s, t, a)
  {
    match a
    case CallLock(m) => s.Goto(t, LockEnter(m))
    case CallUnlock(m) => s.Goto(t, UnlockEnter(m))
    case NoMemory => s.Return(t, LockFailed(t, s.Pc(t).m))
    case Proceed =>
      match s.Pc(t)
      case LockEnter(m) => s.(listLock := Some(t)).Goto(t, LockScan(m, 0))
      case LockScan(m, at) =>
        if at >= |s.owners| then s.(owners := [Entry(m, t, 1)] + s.owners).Goto(t, LockLeave(m, false))
        else if Matches(s.owners[at], m, t) then Recounted(s, at, s.owners[at].count + 1).Goto(t, LockLeave(m, true))
        else s.Goto(t, LockScan(m, at + 1))
      case LockLeave(m, owned) =>
        var r := s.(listLock := None);
        if owned then r.Return(t, Locked(t, m)) else r.Goto(t, LockWait(m))
      case LockWait(m) => s.(held := s.held[m := t]).Return(t, Locked(t, m))
      case UnlockEnter(m) => s.(listLock := Some(t)).Goto(t, UnlockScan(m, 0))
      case UnlockScan(m, at) =>
        if at >= |s.owners| then s.Goto(t, UnlockLeave(m))
        else if !Matches(s.owners[at], m, t) then s.Goto(t, UnlockScan(m, at + 1))
        else if s.owners[at].count == 1 then
          s.(owners := s.owners[..at] + s.owners[at + 1..]).Goto(t, UnlockRelease(m))
        else Recounted(s, at, Predecessor(s.owners[at].count)).Goto(t, UnlockScan(m, at + 1))
      case UnlockRelease(m) => s.(held := s.held - {m}).Goto(t, UnlockLeave(m))
      case UnlockLeave(m) => s.(listLock := None).Return(t, Unlocked(t, m))
  }

  function Recounted(s: State, at: nat, count: nat): State
    requires at < |s.owners|
  {
    s.(owners := s.owners[at := s.owners[at].(count := count)])
  }

  function Predecessor(n: nat): nat {
    if n == 0 then 0 else n - 1
  }

  /** A run: any thread may take any step that is enabled. */
  ghost predicate Next(s: State, r: State) {
    exists t: Thread, a: Action :: Enabled(s, t, a) && r == Apply(s, t, a)
  }

  ghost predicate IsRun(run: seq<State>) {
    && run != [] && run[0] == Initial
    && forall i :: 0 <= i < |run| - 1 ==> Next(run[i], run[i + 1])
  }

  // ----- what the callers see -----

  /** How deep a thread is in a mutex by the calls that returned: every lock counts one up,
      every unlock one down, and an unlock of a mutex the thread is not in counts nothing. */
  function Depth(history: seq<Call>, t: Thread, m: Mutex): nat {
    if history == [] then 0
    else
      var before := Depth(history[..|history| - 1], t, m);
      match history[|history| - 1]
      case Locked(u, k) => if u == t && k == m then before + 1 else before
      case Unlocked(u, k) => if u == t && k == m then Predecessor(before) else before
      case LockFailed(_, _) => before
  }

  /** The thread runs code between a lock of `m` that returned and the matching unlock. */
  predicate Inside(s: State, t: Thread, m: Mutex) {
    Depth(s.history, t, m) > 0 && !Unlocking(s.Pc(t), m)
  }

  predicate Unlocking(pc: Pc, m: Mutex) {
    (pc.UnlockEnter? || pc.UnlockScan? || pc.UnlockRelease? || pc.UnlockLeave?) && pc.m == m
  }

  /** Some allocation has failed. */
  predicate OutOfMemory(history: seq<Call>) {
    exists i :: 0 <= i < |history| && history[i].LockFailed?
  }

  /** The thread is at a point where it holds the list lock. */
  predicate InList(pc: Pc) {
    pc.LockScan? || pc.LockLeave? || pc.UnlockScan? || pc.UnlockRelease? || pc.UnlockLeave?
  }
}
