/** The recursive mutex call by call: every return answers a call, and what a call does from the
    moment it is made to the moment it returns. */
module MutexCalls {
  import opened Wrappers
  import opened MutexModel
  import opened MutexProofs
  import opened MutexTheorems

  // ----- every return answers a call -----

  datatype Request = Lock(m: Mutex) | Unlock(m: Mutex)

  /** A run with the steps that make it. */
  ghost predicate IsTrace(run: seq<State>, steps: seq<(Thread, Action)>) {
    && |run| == |steps| + 1 && run[0] == Initial
    && forall i :: 0 <= i < |steps| ==> IsStep(run[i], steps[i].0, steps[i].1, run[i + 1])
  }

  ghost predicate IsStep(s: State, t: Thread, a: Action, r: State) {
    Enabled(s, t, a) && r == Apply(s, t, a)
  }

  /** What a thread has called, in order. */
  function Requests(steps: seq<(Thread, Action)>, t: Thread): seq<Request> {
    if steps == [] then []
    else
      var before, last := Requests(steps[..|steps| - 1], t), steps[|steps| - 1];
      if last.0 != t then before
      else match last.1
        case CallLock(m) => before + [Lock(m)]
        case CallUnlock(m) => before + [Unlock(m)]
        case _ => before
  }

  function Answer(c: Call, t: Thread): seq<Request> {
    match c
    case Locked(u, m) => if u == t then [Lock(m)] else []
    case LockFailed(u, m) => if u == t then [Lock(m)] else []
    case Unlocked(u, m) => if u == t then [Unlock(m)] else []
  }

  /** The calls of a thread that have returned, in order. */
  function Answers(history: seq<Call>, t: Thread): seq<Request> {
    if history == [] then [] else Answers(history[..|history| - 1], t) + Answer(history[|history| - 1], t)
  }

  /** The call a thread is in. */
  function Pending(pc: Pc): seq<Request> {
    match pc
    case Idle => []
    case LockEnter(m) => [Lock(m)]
    case LockScan(m, _) => [Lock(m)]
    case LockLeave(m, _) => [Lock(m)]
    case LockWait(m) => [Lock(m)]
    case UnlockEnter(m) => [Unlock(m)]
    case UnlockScan(m, _) => [Unlock(m)]
    case UnlockRelease(m) => [Unlock(m)]
    case UnlockLeave(m) => [Unlock(m)]
  }

  ghost predicate AllAnswered(s: State, requests: seq<Request>, t: Thread) {
    requests == Answers(s.history, t) + Pending(s.Pc(t))
  }

  lemma AnswersGrow(history: seq<Call>, c: Call, t: Thread)
    ensures Answers(history + [c], t) == Answers(history, t) + Answer(c, t)
  {
    assert (history + [c])[..|history|] == history;
  }

  /** What a step adds to the calls of a thread. */
  function Asked(t: Thread, a: Action, u: Thread): seq<Request> {
    if u != t then []
    else match a
      case CallLock(m) => [Lock(m)]
      case CallUnlock(m) => [Unlock(m)]
      case _ => []
  }

  /** The return a step makes, if it makes one. */
  function Returns(s: State, t: Thread, a: Action): Option<Call>
    requires Enabled(s, t, a)
  {
    var r := Apply(s, t, a);
    if |r.history| > |s.history| then Some(r.history[|s.history|]) else None
  }

  lemma StepShape(s: State, t: Thread, a: Action)
    requires Enabled(s, t, a)
    ensures match Returns(s, t, a)
            case None => Apply(s, t, a).history == s.history && Pending(Apply(s, t, a).Pc(t)) == Pending(s.Pc(t)) + Asked(t, a, t)
            case Some(c) =>
              && Apply(s, t, a).history == s.history + [c] && Apply(s, t, a).Pc(t).Idle? && Asked(t, a, t) == []
              && Answer(c, t) == Pending(s.Pc(t)) && forall u: Thread :: u != t ==> Answer(c, u) == []
    ensures forall u: Thread :: u != t ==> Apply(s, t, a).Pc(u) == s.Pc(u)
  {
  }

  lemma StepAnswers(s: State, t: Thread, a: Action, u: Thread, requests: seq<Request>)
    requires Enabled(s, t, a) && AllAnswered(s, requests, u)
    ensures AllAnswered(Apply(s, t, a), requests + Asked(t, a, u), u)
  {
    var before := Answers(s.history, u);
    StepShape(s, t, a);
    if Returns(s, t, a).Some? {
      AnswersGrow(s.history, Returns(s, t, a).value, u);
    }
    assert requests + [] == requests && before + [] == before;
    assert (before + Pending(s.Pc(u))) + Asked(t, a, u) == before + (Pending(s.Pc(u)) + Asked(t, a, u));
    assert (before + Pending(s.Pc(u))) + [] == before + Pending(s.Pc(u));
  }

  /** In every run, the calls a thread has made are the calls of its that have returned, in the same
      order, and then the one it is in: no call is lost and none returns unasked. */
  lemma {:induction false} CallsAnswered(run: seq<State>, steps: seq<(Thread, Action)>, t: Thread)
    requires IsTrace(run, steps)
    ensures Requests(steps, t) == Answers(run[|steps|].history, t) + Pending(run[|steps|].Pc(t))
  {
    if steps != [] {
      var n := |steps| - 1;
      assert IsTrace(run[..|run| - 1], steps[..n]) by {
        forall i | 0 <= i < n ensures IsStep(run[i], steps[i].0, steps[i].1, run[i + 1]) {
        }
      }
      CallsAnswered(run[..|run| - 1], steps[..n], t);
      assert IsStep(run[n], steps[n].0, steps[n].1, run[n + 1]);
      StepAnswers(run[n], steps[n].0, steps[n].1, t, Requests(steps[..n], t));
      assert Requests(steps[..n], t) + [] == Requests(steps[..n], t);
    }
  }

  /** Every run is one with steps. */
  lemma {:induction false} RunHasSteps(run: seq<State>) returns (steps: seq<(Thread, Action)>)
    requires IsRun(run)
    ensures IsTrace(run, steps)
  {
    steps := [];
    if |run| > 1 {
      var n := |run| - 1;
      forall i | 0 <= i < n - 1 ensures Next(run[..n][i], run[..n][i + 1]) {
        assert Next(run[i], run[i + 1]);
      }
      var before := RunHasSteps(run[..n]);
      assert Next(run[n - 1], run[n]);
      var t: Thread, a: Action :| Enabled(run[n - 1], t, a) && run[n] == Apply(run[n - 1], t, a);
      steps := before + [(t, a)];
      TraceGrows(run, before, t, a);
    }
  }

  lemma TraceGrows(run: seq<State>, before: seq<(Thread, Action)>, t: Thread, a: Action)
    requires |run| > 1 && IsTrace(run[..|run| - 1], before) && IsStep(run[|run| - 2], t, a, run[|run| - 1])
    ensures IsTrace(run, before + [(t, a)])
  {
    var steps, shorter := before + [(t, a)], run[..|run| - 1];
    forall i | 0 <= i < |steps| ensures IsStep(run[i], steps[i].0, steps[i].1, run[i + 1]) {
      if i < |before| {
        assert IsStep(shorter[i], before[i].0, before[i].1, shorter[i + 1]);
      }
    }
  }

  // ----- a call from beginning to end -----

  /** From `s`, `n` steps of thread `t` alone lead to `r`. */
  ghost predicate GoesOn(s: State, t: Thread, n: nat, r: State)
    decreases n
  {
    if n == 0 then r == s else Enabled(s, t, Proceed) && GoesOn(Apply(s, t, Proceed), t, n - 1, r)
  }

  lemma {:induction false} OneMore(s: State, t: Thread, n: nat, r: State)
    requires GoesOn(s, t, n, r) && Enabled(r, t, Proceed)
    ensures GoesOn(s, t, n + 1, Apply(r, t, Proceed))
    decreases n
  {
    if n > 0 {
      OneMore(Apply(s, t, Proceed), t, n - 1, r);
    } else {
      assert GoesOn(Apply(r, t, Proceed), t, 0, Apply(r, t, Proceed));
    }
  }

  /** `r` is `s` but for the list lock, what is named here, and where `t` stands. */
  ghost predicate Differs(s: State, r: State, t: Thread, owners: seq<Entry>, held: map<Mutex, Thread>, pc: Pc) {
    && r.owners == owners && r.held == held && r.history == s.history && r.Pc(t) == pc
    && forall u: Thread :: u != t ==> r.Pc(u) == s.Pc(u)
  }

  ghost predicate NoneBetween(owners: seq<Entry>, m: Mutex, t: Thread, at: nat, end: nat) {
    at <= end <= |owners| && forall j :: at <= j < end ==> !Matches(owners[j], m, t)
  }

  /** A scan passes what belongs to others. */
  lemma {:induction false} LockScanGoes(s: State, r0: State, t: Thread, m: Mutex, at: nat, end: nat, n0: nat) returns (r: State, n: nat)
    requires GoesOn(s, t, n0, r0) && r0.Pc(t) == LockScan(m, at) && NoneBetween(r0.owners, m, t, at, end)
    ensures GoesOn(s, t, n, r) && Differs(r0, r, t, r0.owners, r0.held, LockScan(m, end)) && r.listLock == r0.listLock
    decreases end - at
  {
    r, n := r0, n0;
    if at < end {
      OneMore(s, t, n0, r0);
      r, n := LockScanGoes(s, Apply(r0, t, Proceed), t, m, at + 1, end, n0 + 1);
    }
  }

  lemma {:induction false} UnlockScanGoes(s: State, r0: State, t: Thread, m: Mutex, at: nat, end: nat, n0: nat) returns (r: State, n: nat)
    requires GoesOn(s, t, n0, r0) && r0.Pc(t) == UnlockScan(m, at) && NoneBetween(r0.owners, m, t, at, end)
    ensures GoesOn(s, t, n, r) && Differs(r0, r, t, r0.owners, r0.held, UnlockScan(m, end)) && r.listLock == r0.listLock
    decreases end - at
  {
    r, n := r0, n0;
    if at < end {
      OneMore(s, t, n0, r0);
      r, n := UnlockScanGoes(s, Apply(r0, t, Proceed), t, m, at + 1, end, n0 + 1);
    }
  }

  /** The place of the entry of a thread in the list, or the end of the list. */
  function Place(owners: seq<Entry>, m: Mutex, t: Thread): (i: nat)
    ensures i <= |owners| && forall j :: 0 <= j < i ==> !Matches(owners[j], m, t)
    ensures i < |owners| ==> Matches(owners[i], m, t)
  {
    if owners == [] || Matches(owners[0], m, t) then 0 else 1 + Place(owners[1..], m, t)
  }

  lemma {:induction false} CountAtPlace(owners: seq<Entry>, m: Mutex, t: Thread)
    ensures CountOf(owners, m, t) == if Place(owners, m, t) < |owners| then owners[Place(owners, m, t)].count else 0
  {
    if owners != [] && !Matches(owners[0], m, t) {
      CountAtPlace(owners[1..], m, t);
    }
  }

  /** Where the entry of an idle thread stands, and what it says. */
  lemma IdleEntry(s: State, t: Thread, m: Mutex)
    requires Reachable(s) && s.Pc(t).Idle?
    ensures Proper(s.owners) && CountOf(s.owners, m, t) == Depth(s.history, t, m)
    ensures s.Holds(t, m) <==> CountOf(s.owners, m, t) > 0
    ensures var p := Place(s.owners, m, t);
            if p < |s.owners| then s.owners[p].count == CountOf(s.owners, m, t) > 0 else CountOf(s.owners, m, t) == 0
  {
    ReachableInv(s);
    assert PairOk(s, t, m);
    CountAtPlace(s.owners, m, t);
  }

  /** The call has returned, and for other threads and other mutexes nothing is different. */
  ghost predicate Returned(s: State, r: State, t: Thread, m: Mutex, c: Call) {
    && r.Pc(t).Idle? && r.history == s.history + [c] && r.listLock.None?
    && (forall u: Thread :: u != t ==> r.Pc(u) == s.Pc(u))
    && (forall k: Mutex :: k != m ==> (k in r.held <==> k in s.held) && (k in s.held ==> r.held[k] == s.held[k]))
    && forall k: Mutex, u: Thread :: k != m || u != t ==> CountOf(r.owners, k, u) == CountOf(s.owners, k, u)
  }

  /** The call gives the list lock back and is over. */
  lemma UnlockLeaves(s: State, r0: State, t: Thread, m: Mutex, owners: seq<Entry>, held: map<Mutex, Thread>, n0: nat) returns (r: State, n: nat)
    requires GoesOn(s, t, n0, r0) && Differs(s, r0, t, owners, held, UnlockLeave(m))
    ensures GoesOn(s, t, n, r) && r.Pc(t).Idle? && r.listLock.None? && r.history == s.history + [Unlocked(t, m)]
    ensures r.owners == owners && r.held == held && forall u: Thread :: u != t ==> r.Pc(u) == s.Pc(u)
  {
    OneMore(s, t, n0, r0);
    r, n := Apply(r0, t, Proceed), n0 + 1;
  }

  /** An unlock up to the place where the scan finds something or ends. */
  lemma UnlockEnters(s: State, t: Thread, m: Mutex) returns (r: State, n: nat)
    requires s.Pc(t) == UnlockEnter(m) && s.listLock.None?
    ensures GoesOn(s, t, n, r) && Differs(s, r, t, s.owners, s.held, UnlockScan(m, Place(s.owners, m, t)))
  {
    assert GoesOn(s, t, 0, s);
    OneMore(s, t, 0, s);
    r, n := UnlockScanGoes(s, Apply(s, t, Proceed), t, m, 0, Place(s.owners, m, t), 1);
  }

  lemma LockEnters(s: State, t: Thread, m: Mutex) returns (r: State, n: nat)
    requires s.Pc(t) == LockEnter(m) && s.listLock.None?
    ensures GoesOn(s, t, n, r) && Differs(s, r, t, s.owners, s.held, LockScan(m, Place(s.owners, m, t)))
  {
    assert GoesOn(s, t, 0, s);
    OneMore(s, t, 0, s);
    r, n := LockScanGoes(s, Apply(s, t, Proceed), t, m, 0, Place(s.owners, m, t), 1);
  }

  /** An unlock that finds no entry. */
  lemma UnlockOfNothing(s: State, t: Thread, m: Mutex) returns (r: State, n: nat)
    requires s.Pc(t) == UnlockEnter(m) && s.listLock.None? && Place(s.owners, m, t) == |s.owners|
    ensures GoesOn(s, t, n, r) && Returned(s, r, t, m, Unlocked(t, m)) && r.owners == s.owners && r.held == s.held
  {
    r, n := UnlockEnters(s, t, m);
    OneMore(s, t, n, r);
    r, n := Apply(r, t, Proceed), n + 1;
    r, n := UnlockLeaves(s, r, t, m, s.owners, s.held, n);
  }

  /** An unlock that is the last. */
  lemma UnlockOfLast(s: State, t: Thread, m: Mutex) returns (r: State, n: nat)
    requires s.Pc(t) == UnlockEnter(m) && s.listLock.None? && Proper(s.owners)
    requires var p := Place(s.owners, m, t); p < |s.owners| && s.owners[p].count == 1
    ensures GoesOn(s, t, n, r) && Returned(s, r, t, m, Unlocked(t, m))
    ensures CountOf(r.owners, m, t) == 0 && m !in r.held
  {
    var p := Place(s.owners, m, t);
    var owners := s.owners[..p] + s.owners[p + 1..];
    Removes(s.owners, p, m, t, owners);
    r, n := UnlockEnters(s, t, m);
    OneMore(s, t, n, r);
    r, n := Apply(r, t, Proceed), n + 1;
    assert Differs(s, r, t, owners, s.held, UnlockRelease(m));
    OneMore(s, t, n, r);
    r, n := Apply(r, t, Proceed), n + 1;
    r, n := UnlockLeaves(s, r, t, m, owners, s.held - {m}, n);
  }

  lemma Removes(owners: seq<Entry>, p: nat, m: Mutex, t: Thread, r: seq<Entry>)
    requires Proper(owners) && p < |owners| && Matches(owners[p], m, t) && r == owners[..p] + owners[p + 1..]
    ensures forall k: Mutex, u: Thread :: CountOf(r, k, u) == if k == m && u == t then 0 else CountOf(owners, k, u)
  {
    forall k: Mutex, u: Thread ensures CountOf(r, k, u) == if k == m && u == t then 0 else CountOf(owners, k, u) {
      CountOfRemoved(owners, p, k, u);
      assert Matches(owners[p], k, u) <==> k == m && u == t;
    }
  }

  lemma Recounts(owners: seq<Entry>, p: nat, c: nat, m: Mutex, t: Thread)
    requires Proper(owners) && p < |owners| && Matches(owners[p], m, t) && c > 0
    ensures var r := owners[p := owners[p].(count := c)];
            && NoneBetween(r, m, t, p + 1, |owners|)
            && forall k: Mutex, u: Thread :: CountOf(r, k, u) == if k == m && u == t then c else CountOf(owners, k, u)
  {
    var r := owners[p := owners[p].(count := c)];
    forall j | p + 1 <= j < |owners| ensures !Matches(r[j], m, t) {
      assert !Matches(owners[j], owners[p].mx, owners[p].id);
    }
    forall k: Mutex, u: Thread ensures CountOf(r, k, u) == if k == m && u == t then c else CountOf(owners, k, u) {
      CountOfRecounted(owners, p, c, k, u);
    }
  }

  /** The rest of a scan that finds nothing more. */
  lemma UnlockToEnd(s: State, r0: State, t: Thread, m: Mutex, owners: seq<Entry>, at: nat, n0: nat) returns (r: State, n: nat)
    requires GoesOn(s, t, n0, r0) && Differs(s, r0, t, owners, s.held, UnlockScan(m, at)) && NoneBetween(owners, m, t, at, |owners|)
    ensures GoesOn(s, t, n, r) && r.Pc(t).Idle? && r.listLock.None? && r.history == s.history + [Unlocked(t, m)]
    ensures r.owners == owners && r.held == s.held && forall u: Thread :: u != t ==> r.Pc(u) == s.Pc(u)
  {
    r, n := UnlockScanGoes(s, r0, t, m, at, |owners|, n0);
    OneMore(s, t, n, r);
    r, n := Apply(r, t, Proceed), n + 1;
    r, n := UnlockLeaves(s, r, t, m, owners, s.held, n);
  }

  /** An unlock of several: the scan goes on to the end, and finds nothing else. */
  lemma UnlockOfMore(s: State, t: Thread, m: Mutex) returns (r: State, n: nat)
    requires s.Pc(t) == UnlockEnter(m) && s.listLock.None? && Proper(s.owners)
    requires var p := Place(s.owners, m, t); p < |s.owners| && s.owners[p].count > 1
    ensures GoesOn(s, t, n, r) && Returned(s, r, t, m, Unlocked(t, m))
    ensures CountOf(r.owners, m, t) == s.owners[Place(s.owners, m, t)].count - 1 && r.held == s.held
  {
    var p := Place(s.owners, m, t);
    var c := s.owners[p].count - 1;
    var owners := s.owners[p := s.owners[p].(count := c)];
    Recounts(s.owners, p, c, m, t);
    r, n := UnlockEnters(s, t, m);
    OneMore(s, t, n, r);
    r, n := Apply(r, t, Proceed), n + 1;
    r, n := UnlockToEnd(s, r, t, m, owners, p + 1, n);
  }

  /** An unlock called while the list lock is free runs to its return, if its thread is let go on: it
      is one unlock more in the history, the count is one less, the mutex is held afterwards only if
      the count was above 1, and nothing else is different. */
  lemma UnlockReturns(s: State, t: Thread, m: Mutex) returns (r: State, n: nat)
    requires Reachable(s) && s.Pc(t).Idle? && s.listLock.None?
    ensures GoesOn(Apply(s, t, CallUnlock(m)), t, n, r)
    ensures Returned(s, r, t, m, Unlocked(t, m))
    ensures CountOf(r.owners, m, t) == if CountOf(s.owners, m, t) > 0 then CountOf(s.owners, m, t) - 1 else 0
    ensures Depth(r.history, t, m) == if Depth(s.history, t, m) > 0 then Depth(s.history, t, m) - 1 else 0
    ensures r.Holds(t, m) <==> CountOf(s.owners, m, t) > 1
    ensures forall u: Thread :: u != t ==> (r.Holds(u, m) <==> s.Holds(u, m))
  {
    IdleEntry(s, t, m);
    var called := Apply(s, t, CallUnlock(m));
    var p := Place(s.owners, m, t);
    DepthAfter(s.history, Unlocked(t, m), t, m);
    if p == |s.owners| {
      r, n := UnlockOfNothing(called, t, m);
    } else if s.owners[p].count == 1 {
      r, n := UnlockOfLast(called, t, m);
    } else {
      r, n := UnlockOfMore(called, t, m);
    }
  }

  /** A lock of a mutex the thread is in already. */
  lemma LockAgain(s: State, t: Thread, m: Mutex) returns (r: State, n: nat)
    requires s.Pc(t) == LockEnter(m) && s.listLock.None? && Proper(s.owners) && Place(s.owners, m, t) < |s.owners|
    ensures GoesOn(s, t, n, r) && Returned(s, r, t, m, Locked(t, m))
    ensures CountOf(r.owners, m, t) == s.owners[Place(s.owners, m, t)].count + 1 && r.held == s.held
  {
    var p := Place(s.owners, m, t);
    var c := s.owners[p].count + 1;
    Recounts(s.owners, p, c, m, t);
    r, n := LockEnters(s, t, m);
    OneMore(s, t, n, r);
    r, n := Apply(r, t, Proceed), n + 1;
    assert Differs(s, r, t, s.owners[p := s.owners[p].(count := c)], s.held, LockLeave(m, true));
    OneMore(s, t, n, r);
    r, n := Apply(r, t, Proceed), n + 1;
  }

  /** A first lock, up to the point where it waits for the mutex. */
  lemma LockToWait(s: State, t: Thread, m: Mutex) returns (r: State, n: nat)
    requires s.Pc(t) == LockEnter(m) && s.listLock.None? && Place(s.owners, m, t) == |s.owners|
    ensures GoesOn(s, t, n, r) && Differs(s, r, t, [Entry(m, t, 1)] + s.owners, s.held, LockWait(m)) && r.listLock.None?
  {
    r, n := LockEnters(s, t, m);
    OneMore(s, t, n, r);
    r, n := Apply(r, t, Proceed), n + 1;
    assert Differs(s, r, t, [Entry(m, t, 1)] + s.owners, s.held, LockLeave(m, false));
    OneMore(s, t, n, r);
    r, n := Apply(r, t, Proceed), n + 1;
  }

  lemma LockFirst(s: State, t: Thread, m: Mutex) returns (r: State, n: nat)
    requires s.Pc(t) == LockEnter(m) && s.listLock.None? && Place(s.owners, m, t) == |s.owners| && m !in s.held
    ensures GoesOn(s, t, n, r) && Returned(s, r, t, m, Locked(t, m))
    ensures CountOf(r.owners, m, t) == 1 && r.Holds(t, m)
  {
    r, n := LockToWait(s, t, m);
    OneMore(s, t, n, r);
    r, n := Apply(r, t, Proceed), n + 1;
    assert r.owners[1..] == s.owners;
  }

  /** A lock of a mutex that is free, or the thread's own, called while the list lock is free and
      with memory left, runs to its return in the same way: the thread holds the mutex, and the count
      is one more. */
  lemma LockReturns(s: State, t: Thread, m: Mutex) returns (r: State, n: nat)
    requires Reachable(s) && s.Pc(t).Idle? && s.listLock.None? && (m !in s.held || s.held[m] == t)
    ensures GoesOn(Apply(s, t, CallLock(m)), t, n, r)
    ensures Returned(s, r, t, m, Locked(t, m)) && r.Holds(t, m)
    ensures CountOf(r.owners, m, t) == CountOf(s.owners, m, t) + 1
    ensures Depth(r.history, t, m) == Depth(s.history, t, m) + 1
  {
    IdleEntry(s, t, m);
    var called := Apply(s, t, CallLock(m));
    DepthAfter(s.history, Locked(t, m), t, m);
    if Place(s.owners, m, t) < |s.owners| {
      r, n := LockAgain(called, t, m);
    } else {
      r, n := LockFirst(called, t, m);
    }
  }

  /** A lock of a mutex that another thread holds goes on to wait for it, without the list lock, and
      can take its next step exactly when the mutex is free. */
  lemma LockWaits(s: State, t: Thread, m: Mutex) returns (r: State, n: nat)
    requires Reachable(s) && s.Pc(t).Idle? && s.listLock.None? && m in s.held && s.held[m] != t
    ensures GoesOn(Apply(s, t, CallLock(m)), t, n, r)
    ensures r.Pc(t) == LockWait(m) && r.listLock.None? && r.history == s.history && r.held == s.held
    ensures CountOf(r.owners, m, t) == 1 && !Enabled(r, t, Proceed)
  {
    IdleEntry(s, t, m);
    r, n := LockToWait(Apply(s, t, CallLock(m)), t, m);
  }
}
