/** What the recursive mutex promises, in every reachable state and for every step. */
module MutexTheorems {
  import opened Wrappers
  import opened MutexModel
  import opened MutexProofs

  ghost predicate Reachable(s: State) {
    exists run: seq<State> :: IsRun(run) && s == run[|run| - 1]
  }

  lemma ReachableInv(s: State)
    requires Reachable(s)
    ensures Inv(s)
  {
    var run: seq<State> :| IsRun(run) && s == run[|run| - 1];
    RunKeepsInv(run, |run| - 1);
  }

  /** Reachable states are closed under steps, so the step lemmas below speak about all runs. */
  lemma StepReachable(s: State, t: Thread, a: Action)
    requires Reachable(s) && Enabled(s, t, a)
    ensures Reachable(Apply(s, t, a))
  {
    var run: seq<State> :| IsRun(run) && s == run[|run| - 1];
    var longer := run + [Apply(s, t, a)];
    forall i | 0 <= i < |longer| - 1 ensures Next(longer[i], longer[i + 1]) {
      if i < |run| - 1 {
        assert Next(run[i], run[i + 1]);
      }
    }
    assert IsRun(longer);
  }

  /** The thread has put its entry in the list but not acquired the mutex yet. */
  predicate InWindow(pc: Pc, m: Mutex) {
    pc == LockWait(m) || pc == LockLeave(m, false)
  }

  /** There is at most one entry for a thread and a mutex, and a thread with an entry holds the
      mutex, unless it stands between inserting the entry and acquiring the mutex. */
  lemma OwnersHold(s: State, i: nat, j: nat)
    requires Reachable(s) && i < |s.owners| && j < |s.owners|
    ensures s.owners[i].mx == s.owners[j].mx && s.owners[i].id == s.owners[j].id ==> i == j
    ensures s.Holds(s.owners[i].id, s.owners[i].mx) <==> !InWindow(s.Pc(s.owners[i].id), s.owners[i].mx)
  {
    ReachableInv(s);
    var e := s.owners[i];
    assert PairOk(s, e.id, e.mx);
    assert CountOf(s.owners, e.mx, e.id) > 0 by {
      if CountOf(s.owners, e.mx, e.id) == 0 {
        NoEntry(s.owners, e.mx, e.id);
      }
    }
    if i < j {
      assert !Matches(s.owners[j], s.owners[i].mx, s.owners[i].id);
    } else if j < i {
      assert !Matches(s.owners[i], s.owners[j].mx, s.owners[j].id);
    }
  }

  /** No two threads are inside the same mutex, and whoever is inside holds it. */
  lemma MutualExclusion(s: State, t: Thread, u: Thread, m: Mutex)
    requires Reachable(s) && Inside(s, t, m)
    ensures s.Holds(t, m)
    ensures Inside(s, u, m) ==> t == u
  {
    ReachableInv(s);
    assert PairOk(s, t, m) && PairOk(s, u, m);
  }

  /** Unless the thread is in a call on the mutex itself, the count of its entry is its completed
      locks less its completed unlocks; it has no entry exactly when that is 0, and then does not
      hold the mutex. */
  lemma CountBalances(s: State, t: Thread, m: Mutex)
    requires Reachable(s) && (s.Pc(t).Idle? || s.Pc(t).m != m)
    ensures CountOf(s.owners, m, t) == Depth(s.history, t, m)
    ensures s.Holds(t, m) <==> Depth(s.history, t, m) > 0
    ensures (exists e :: e in s.owners && Matches(e, m, t)) <==> Depth(s.history, t, m) > 0
  {
    ReachableInv(s);
    assert PairOk(s, t, m);
    if CountOf(s.owners, m, t) > 0 {
      var i := CountOfFinds(s.owners, m, t);
      assert s.owners[i] in s.owners;
    } else {
      NoEntry(s.owners, m, t);
    }
  }

  /** The real mutex is released by one step only, taken by its holder after its count has
      gone to 0; the step before that is the one that took the count to 0. */
  lemma ReleasedAtZero(s: State, t: Thread, a: Action, u: Thread, m: Mutex)
    requires Reachable(s) && Enabled(s, t, a)
    ensures var r := Apply(s, t, a);
            && ((s.Holds(u, m) && !r.Holds(u, m)) <==> (u == t && a == Proceed && s.Pc(t) == UnlockRelease(m)))
            && (s.Pc(t) == UnlockRelease(m) ==> s.Holds(t, m) && CountOf(s.owners, m, t) == 0)
            && ((CountOf(s.owners, m, u) > 0 && CountOf(r.owners, m, u) == 0)
                <==> (u == t && s.Pc(t).UnlockScan? && r.Pc(t) == UnlockRelease(m)))
  {
    ReachableInv(s);
    assert PairOk(s, t, m) && PairOk(s, u, m);
    if a.Proceed? && (s.Pc(t).LockScan? || s.Pc(t).UnlockScan?) {
      var k, at := s.Pc(t).m, s.Pc(t).at;
      assert PairOk(s, t, k);
      CountAfterScan(s, t, u, m);
      if at < |s.owners| {
        CountOfPrefix(s.owners, at, k, t);
      }
    }
  }

  /** An unlock by a thread that does not own the mutex changes neither the owner list nor the
      holder of any mutex, at any of its steps, and returns with the thread still outside. */
  lemma NonOwnerUnlockChangesNothing(s: State, t: Thread, m: Mutex)
    requires Reachable(s) && Unlocking(s.Pc(t), m) && Enabled(s, t, Proceed)
    requires CountOf(s.owners, m, t) == 0 && !s.Holds(t, m)
    ensures var r := Apply(s, t, Proceed);
            && r.owners == s.owners && r.held == s.held
            && CountOf(r.owners, m, t) == 0 && !r.Holds(t, m)
            && (Unlocking(r.Pc(t), m) || (r.Pc(t).Idle? && Depth(r.history, t, m) == 0))
  {
    ReachableInv(s);
    assert PairOk(s, t, m);
    NoEntry(s.owners, m, t);
    DepthAfter(s.history, Unlocked(t, m), t, m);
  }

  // ----- progress -----

  /** Whoever holds the list lock can take its next step exactly so long as no allocation has
      failed: it never waits for a user mutex there. After a failed allocation nobody in the list
      is left to give the lock back. */
  lemma ListHolderProceeds(s: State, t: Thread)
    requires Reachable(s) && s.listLock == Some(t)
    ensures !OutOfMemory(s.history) <==> InList(s.Pc(t))
    ensures !OutOfMemory(s.history) <==> Enabled(s, t, Proceed)
  {
    ReachableInv(s);
  }

  /** How many steps the thread in the list takes at most to give the list lock back. */
  function StepsToLeave(s: State, t: Thread): nat {
    match s.Pc(t)
    case LockScan(_, at) => 2 + if at < |s.owners| then |s.owners| - at else 0
    case UnlockScan(_, at) => 3 + if at < |s.owners| then |s.owners| - at else 0
    case LockLeave(_, _) => 1
    case UnlockRelease(_) => 2
    case UnlockLeave(_) => 1
    case _ => 0
  }

  /** Each step of the thread in the list brings it closer to leaving, and no step of another
      thread sets it back; it leaves by giving the list lock back. */
  lemma ListIsLeft(s: State, t: Thread, u: Thread, a: Action)
    requires Reachable(s) && InList(s.Pc(t)) && Enabled(s, u, a) && a != NoMemory
    ensures var r := Apply(s, u, a);
            if u == t then StepsToLeave(r, t) < StepsToLeave(s, t) && (!InList(r.Pc(t)) ==> r.listLock.None?)
            else StepsToLeave(r, t) == StepsToLeave(s, t) && InList(r.Pc(t))
  {
    ReachableInv(s);
    if u != t && a.Proceed? {
      assert !InList(s.Pc(u));
    }
  }

  /** A thread in a call that cannot step waits for the list lock held by a thread, or for a
      mutex held by another thread: it never waits for a mutex it holds itself. */
  lemma WaitsForAnother(s: State, t: Thread)
    requires Reachable(s) && !s.Pc(t).Idle? && !Enabled(s, t, Proceed)
    ensures (s.Pc(t).LockEnter? || s.Pc(t).UnlockEnter?) ==> s.listLock.Some?
    ensures s.Pc(t).LockWait? ==> s.Pc(t).m in s.held && s.held[s.Pc(t).m] != t
    ensures s.Pc(t).LockEnter? || s.Pc(t).UnlockEnter? || s.Pc(t).LockWait?
  {
    ReachableInv(s);
    if s.Pc(t).LockWait? {
      assert PairOk(s, t, s.Pc(t).m);
    }
  }

  /** After one failed allocation no lock or unlock ever gets past the list lock again. */
  lemma FailedAllocationSticks(s: State, t: Thread, a: Action)
    requires Reachable(s) && OutOfMemory(s.history) && Enabled(s, t, a)
    ensures s.listLock.Some? && Apply(s, t, a).listLock == s.listLock
    ensures OutOfMemory(Apply(s, t, a).history)
  {
    ReachableInv(s);
    ListStep(s, t, a);
    assert !InList(s.Pc(t));
    var i :| 0 <= i < |s.history| && s.history[i].LockFailed?;
    assert Apply(s, t, a).history[i].LockFailed?;
  }

  /** That does happen: the first call of all can fail so. */
  lemma AllocationCanFail(t: Thread, m: Mutex) returns (s: State)
    ensures Reachable(s) && OutOfMemory(s.history) && s.listLock == Some(t) && s.Pc(t).Idle?
  {
    assert IsRun([Initial]) && [Initial][|[Initial]| - 1] == Initial;
    assert Reachable(Initial);
    StepReachable(Initial, t, CallLock(m));
    var entered := Apply(Initial, t, CallLock(m));
    StepReachable(entered, t, Proceed);
    var scanning := Apply(entered, t, Proceed);
    StepReachable(scanning, t, NoMemory);
    s := Apply(scanning, t, NoMemory);
    assert s.history[0].LockFailed?;
  }
}
