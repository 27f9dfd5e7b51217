/** What every interleaving of the recursive mutex keeps. */
module MutexProofs {
  import opened Wrappers
  import opened MutexModel

  // ----- the owner list -----

  /** The count of the first entry of `t` for `m`, 0 without one. */
  function CountOf(owners: seq<Entry>, m: Mutex, t: Thread): nat {
    if owners == [] then 0
    else if Matches(owners[0], m, t) then owners[0].count
    else CountOf(owners[1..], m, t)
  }

  /** At most one entry for each mutex and thread, and none with count 0. */
  ghost predicate Proper(owners: seq<Entry>) {
    && (forall i, j :: 0 <= i < j < |owners| ==> !Matches(owners[j], owners[i].mx, owners[i].id))
    && (forall i :: 0 <= i < |owners| ==> owners[i].count > 0)
  }

  lemma {:induction false} CountOfAbsent(owners: seq<Entry>, m: Mutex, t: Thread)
    requires forall i :: 0 <= i < |owners| ==> !Matches(owners[i], m, t)
    ensures CountOf(owners, m, t) == 0
  {
    if owners != [] {
      CountOfAbsent(owners[1..], m, t);
    }
  }

  lemma {:induction false} CountOfAt(owners: seq<Entry>, i: nat, m: Mutex, t: Thread)
    requires i < |owners| && Matches(owners[i], m, t)
    requires forall j :: 0 <= j < i ==> !Matches(owners[j], m, t)
    ensures CountOf(owners, m, t) == owners[i].count
  {
    if i > 0 {
      CountOfAt(owners[1..], i - 1, m, t);
    }
  }

  /** A positive count comes from an entry, a proper list without an entry counts 0. */
  lemma {:induction false} CountOfFinds(owners: seq<Entry>, m: Mutex, t: Thread) returns (i: nat)
    requires CountOf(owners, m, t) > 0
    ensures i < |owners| && Matches(owners[i], m, t) && owners[i].count == CountOf(owners, m, t)
  {
    if Matches(owners[0], m, t) {
      i := 0;
    } else {
      var j := CountOfFinds(owners[1..], m, t);
      i := j + 1;
    }
  }

  lemma {:induction false} CountOfRecounted(owners: seq<Entry>, i: nat, count: nat, m: Mutex, t: Thread)
    requires Proper(owners) && i < |owners| && count > 0
    ensures var r := owners[i := owners[i].(count := count)];
            Proper(r) && CountOf(r, m, t) == if Matches(owners[i], m, t) then count else CountOf(owners, m, t)
  {
    var r := owners[i := owners[i].(count := count)];
    if i == 0 {
      assert r[1..] == owners[1..];
    } else {
      CountOfRecounted(owners[1..], i - 1, count, m, t);
      assert r[1..] == owners[1..][i - 1 := owners[i].(count := count)];
    }
  }

  lemma CountInFront(owners: seq<Entry>, e: Entry, k: Mutex, u: Thread)
    ensures CountOf([e] + owners, k, u) == if Matches(e, k, u) then e.count else CountOf(owners, k, u)
  {
    assert ([e] + owners)[1..] == owners;
  }

  lemma ProperRemoved(owners: seq<Entry>, i: nat)
    requires Proper(owners) && i < |owners|
    ensures Proper(owners[..i] + owners[i + 1..])
  {
    var r := owners[..i] + owners[i + 1..];
    forall a, b | 0 <= a < b < |r| ensures !Matches(r[b], r[a].mx, r[a].id) {
      var c, d := if a < i then a else a + 1, if b < i then b else b + 1;
      assert r[a] == owners[c] && r[b] == owners[d] && c < d;
    }
  }

  /** Only the part with the first match counts. */
  lemma {:induction false} CountOfParts(a: seq<Entry>, b: seq<Entry>, m: Mutex, t: Thread)
    ensures (forall i :: 0 <= i < |a| ==> !Matches(a[i], m, t)) ==> CountOf(a + b, m, t) == CountOf(b, m, t)
    ensures (exists i :: 0 <= i < |a| && Matches(a[i], m, t)) ==> CountOf(a + b, m, t) == CountOf(a, m, t)
  {
    if a == [] {
      assert a + b == b;
    } else {
      CountOfParts(a[1..], b, m, t);
      assert a + b == [a[0]] + (a[1..] + b);
      CountInFront(a[1..] + b, a[0], m, t);
    }
  }

  lemma RemovedWasAlone(owners: seq<Entry>, i: nat, m: Mutex, t: Thread)
    requires Proper(owners) && i < |owners| && Matches(owners[i], m, t)
    ensures CountOf(owners[..i] + owners[i + 1..], m, t) == 0
  {
    var r := owners[..i] + owners[i + 1..];
    forall j | 0 <= j < |r| ensures !Matches(r[j], m, t) {
      assert r[j] == owners[if j < i then j else j + 1];
    }
    CountOfAbsent(r, m, t);
  }

  lemma RemovedWasOther(owners: seq<Entry>, i: nat, m: Mutex, t: Thread)
    requires i < |owners| && !Matches(owners[i], m, t)
    ensures CountOf(owners[..i] + owners[i + 1..], m, t) == CountOf(owners, m, t)
  {
    var front, back := owners[..i], owners[i + 1..];
    assert owners == front + ([owners[i]] + back);
    CountOfParts(front, back, m, t);
    CountOfParts(front, [owners[i]] + back, m, t);
    CountInFront(back, owners[i], m, t);
  }

  lemma CountOfRemoved(owners: seq<Entry>, i: nat, m: Mutex, t: Thread)
    requires Proper(owners) && i < |owners|
    ensures var r := owners[..i] + owners[i + 1..];
            Proper(r) && CountOf(r, m, t) == if Matches(owners[i], m, t) then 0 else CountOf(owners, m, t)
  {
    ProperRemoved(owners, i);
    if Matches(owners[i], m, t) {
      RemovedWasAlone(owners, i, m, t);
    } else {
      RemovedWasOther(owners, i, m, t);
    }
  }

  /** How the count seen by a scan grows by one element. */
  lemma {:induction false} CountOfPrefix(owners: seq<Entry>, at: nat, m: Mutex, t: Thread)
    requires Proper(owners) && at < |owners|
    ensures var seen := CountOf(owners[..at], m, t);
            && CountOf(owners[..at + 1], m, t)
               == (if seen > 0 then seen else if Matches(owners[at], m, t) then owners[at].count else 0)
            && (Matches(owners[at], m, t) ==> seen == 0 && CountOf(owners, m, t) == owners[at].count)
    ensures CountOf(owners[..at], m, t) > 0 ==> CountOf(owners, m, t) == CountOf(owners[..at], m, t)
  {
    if Matches(owners[at], m, t) {
      forall j | 0 <= j < at ensures !Matches(owners[j], m, t) {
        assert !Matches(owners[at], owners[j].mx, owners[j].id);
      }
      CountOfAt(owners, at, m, t);
      CountOfAt(owners[..at + 1], at, m, t);
      CountOfAbsent(owners[..at], m, t);
    } else if CountOf(owners[..at], m, t) > 0 {
      var i := CountOfFinds(owners[..at], m, t);
      assert forall j :: 0 <= j < i ==> !Matches(owners[i], owners[j].mx, owners[j].id);
      CountOfAt(owners, i, m, t);
      CountOfAt(owners[..at + 1], i, m, t);
    } else {
      if CountOf(owners[..at + 1], m, t) > 0 {
        var i := CountOfFinds(owners[..at + 1], m, t);
        assert forall j :: 0 <= j < i ==> !Matches(owners[i], owners[j].mx, owners[j].id);
        CountOfAt(owners[..at], i, m, t);
      }
    }
  }

  // ----- the invariant -----

  /** How the entry of `t` for `m`, the real mutex and the returned calls fit together, wherever
      the thread stands. Between the insertion of an entry and the acquisition of the mutex the
      entry exists but the thread does not hold the mutex. */
  ghost predicate PairOk(s: State, t: Thread, m: Mutex) {
    var count, depth, holds := CountOf(s.owners, m, t), Depth(s.history, t, m), s.Holds(t, m);
    match s.Pc(t)
    case LockScan(k, at) =>
      && at <= |s.owners| && count == depth && (holds <==> count > 0)
      && (k == m ==> CountOf(s.owners[..at], m, t) == 0)
    case LockLeave(k, owned) =>
      if k == m then count == depth + 1 && (holds <==> owned) && (owned <==> depth > 0)
      else count == depth && (holds <==> count > 0)
    case LockWait(k) =>
      if k == m then count == 1 && depth == 0 && !holds else count == depth && (holds <==> count > 0)
    case UnlockScan(k, at) =>
      && at <= |s.owners| && (holds <==> count > 0)
      && count == (if k == m && CountOf(s.owners[..at], m, t) > 0 then Predecessor(depth) else depth)
    case UnlockRelease(k) =>
      if k == m then count == 0 && depth == 1 && holds else count == depth && (holds <==> count > 0)
    case UnlockLeave(k) =>
      (holds <==> count > 0) && count == if k == m then Predecessor(depth) else depth
    case _ => count == depth && (holds <==> count > 0)
  }

  /** The list lock is held by whoever is in the list, or for good by a thread that ran out of
      memory there. */
  ghost predicate ListOk(s: State) {
    && (forall t: Thread :: InList(s.Pc(t)) ==> s.listLock == Some(t))
    && ((s.listLock.Some? && !InList(s.Pc(s.listLock.value))) <==> OutOfMemory(s.history))
    && (s.listLock.Some? ==> !s.Pc(s.listLock.value).LockWait?)
  }

  ghost predicate Inv(s: State) {
    && Proper(s.owners) && ListOk(s)
    && forall t: Thread, m: Mutex :: PairOk(s, t, m)
  }

  lemma NoEntry(owners: seq<Entry>, m: Mutex, t: Thread)
    requires Proper(owners) && CountOf(owners, m, t) == 0
    ensures forall i :: 0 <= i < |owners| ==> !Matches(owners[i], m, t)
  {
    forall i | 0 <= i < |owners| ensures !Matches(owners[i], m, t) {
      if Matches(owners[i], m, t) {
        assert forall j :: 0 <= j < i ==> !Matches(owners[i], owners[j].mx, owners[j].id);
        CountOfAt(owners, i, m, t);
      }
    }
  }

  lemma DepthAfter(history: seq<Call>, c: Call, t: Thread, m: Mutex)
    ensures var before := Depth(history, t, m);
            Depth(history + [c], t, m) == if c == Locked(t, m) then before + 1
                                          else if c == Unlocked(t, m) then Predecessor(before)
                                          else before
  {
    assert (history + [c])[..|history|] == history;
  }

  lemma ProperStep(s: State, t: Thread, a: Action)
    requires Inv(s) && Enabled(s, t, a)
    ensures Proper(Apply(s, t, a).owners)
  {
    if a.Proceed? && (s.Pc(t).LockScan? || s.Pc(t).UnlockScan?) {
      var m, at := s.Pc(t).m, s.Pc(t).at;
      assert PairOk(s, t, m);
      if at == |s.owners| {
        if s.Pc(t).LockScan? {
          assert s.owners[..at] == s.owners;
          NoEntry(s.owners, m, t);
        }
      } else if Matches(s.owners[at], m, t) {
        CountOfRecounted(s.owners, at, s.owners[at].count + 1, m, t);
        if s.owners[at].count > 1 {
          CountOfRecounted(s.owners, at, s.owners[at].count - 1, m, t);
        }
        CountOfRemoved(s.owners, at, m, t);
      }
    }
  }

  lemma ListStep(s: State, t: Thread, a: Action)
    requires Inv(s) && Enabled(s, t, a)
    ensures ListOk(Apply(s, t, a))
  {
    var r := Apply(s, t, a);
    assert OutOfMemory(r.history) <==> OutOfMemory(s.history) || a.NoMemory? by {
      if r.history != s.history {
        assert r.history[..|s.history|] == s.history;
        if OutOfMemory(s.history) {
          var i :| 0 <= i < |s.history| && s.history[i].LockFailed?;
          assert r.history[i].LockFailed?;
        }
        if a.NoMemory? {
          assert r.history[|s.history|].LockFailed?;
        }
      }
    }
    assert forall u: Thread :: u != t ==> r.Pc(u) == s.Pc(u);
  }

  /** Nothing about a thread and a mutex changes but what other threads see. */
  lemma PairFrame(s: State, r: State, u: Thread, k: Mutex)
    requires PairOk(s, u, k) && r.Pc(u) == s.Pc(u) && r.Holds(u, k) == s.Holds(u, k)
    requires CountOf(r.owners, k, u) == CountOf(s.owners, k, u)
    requires Depth(r.history, u, k) == Depth(s.history, u, k)
    requires (s.Pc(u).LockScan? || s.Pc(u).UnlockScan?) ==> r.owners == s.owners
    ensures PairOk(r, u, k)
  {
  }

  /** A step that changes neither the owner list nor the holders nor what has returned. */
  lemma PairStepControl(s: State, t: Thread, a: Action, u: Thread, k: Mutex)
    requires Inv(s) && Enabled(s, t, a)
    requires a.CallLock? || a.CallUnlock? || (a.Proceed? && (s.Pc(t).LockEnter? || s.Pc(t).UnlockEnter?))
    ensures PairOk(Apply(s, t, a), u, k)
  {
    var r := Apply(s, t, a);
    assert PairOk(s, u, k);
    if u != t {
      PairFrame(s, r, u, k);
    }
  }

  /** A step that ends a call, or gives back the list lock. */
  lemma PairStepLeave(s: State, t: Thread, a: Action, u: Thread, k: Mutex)
    requires Inv(s) && Enabled(s, t, a)
    requires a.NoMemory? || (a.Proceed? && (s.Pc(t).LockLeave? || s.Pc(t).UnlockLeave?))
    ensures PairOk(Apply(s, t, a), u, k)
  {
    var r := Apply(s, t, a);
    assert PairOk(s, u, k);
    if r.history != s.history {
      DepthAfter(s.history, r.history[|s.history|], u, k);
    }
    if u != t {
      PairFrame(s, r, u, k);
    }
  }

  /** A step that acquires or releases the real mutex. */
  lemma PairStepMutex(s: State, t: Thread, u: Thread, k: Mutex)
    requires Inv(s) && Enabled(s, t, Proceed) && (s.Pc(t).LockWait? || s.Pc(t).UnlockRelease?)
    ensures PairOk(Apply(s, t, Proceed), u, k)
  {
    var r := Apply(s, t, Proceed);
    assert PairOk(s, u, k) && PairOk(s, t, s.Pc(t).m);
    if r.history != s.history {
      DepthAfter(s.history, r.history[|s.history|], u, k);
    }
    if u != t {
      PairFrame(s, r, u, k);
    }
  }

  lemma CountAfterLockScan(s: State, t: Thread, u: Thread, k: Mutex)
    requires Inv(s) && s.Pc(t).LockScan?
    ensures var m, at, r := s.Pc(t).m, s.Pc(t).at, Apply(s, t, Proceed);
            CountOf(r.owners, k, u)
            == CountOf(s.owners, k, u) + if u == t && k == m && (at >= |s.owners| || Matches(s.owners[at], m, t)) then 1 else 0
  {
    var m, at := s.Pc(t).m, s.Pc(t).at;
    assert PairOk(s, t, m);
    if at == |s.owners| {
      assert s.owners[..at] == s.owners;
      CountInFront(s.owners, Entry(m, t, 1), k, u);
    } else if Matches(s.owners[at], m, t) {
      CountOfPrefix(s.owners, at, m, t);
      CountOfRecounted(s.owners, at, s.owners[at].count + 1, k, u);
    }
  }

  lemma CountAfterUnlockScan(s: State, t: Thread, u: Thread, k: Mutex)
    requires Inv(s) && s.Pc(t).UnlockScan?
    ensures var m, at, r := s.Pc(t).m, s.Pc(t).at, Apply(s, t, Proceed);
            CountOf(r.owners, k, u)
            == CountOf(s.owners, k, u) - if u == t && k == m && at < |s.owners| && Matches(s.owners[at], m, t) then 1 else 0
  {
    var m, at := s.Pc(t).m, s.Pc(t).at;
    assert PairOk(s, t, m);
    if at < |s.owners| && Matches(s.owners[at], m, t) {
      CountOfPrefix(s.owners, at, m, t);
      if s.owners[at].count == 1 {
        CountOfRemoved(s.owners, at, k, u);
      } else {
        CountOfRecounted(s.owners, at, s.owners[at].count - 1, k, u);
      }
    }
  }

  /** What a step of `t` in a scan does to the count of any thread for any mutex. */
  lemma CountAfterScan(s: State, t: Thread, u: Thread, k: Mutex)
    requires Inv(s) && Enabled(s, t, Proceed) && (s.Pc(t).LockScan? || s.Pc(t).UnlockScan?)
    ensures var m, at, r := s.Pc(t).m, s.Pc(t).at, Apply(s, t, Proceed);
            var count := CountOf(s.owners, k, u);
            CountOf(r.owners, k, u) ==
              if u != t || k != m then count
              else if s.Pc(t).LockScan? && (at >= |s.owners| || Matches(s.owners[at], m, t)) then count + 1
              else if s.Pc(t).UnlockScan? && at < |s.owners| && Matches(s.owners[at], m, t) then count - 1
              else count
  {
    if s.Pc(t).LockScan? {
      CountAfterLockScan(s, t, u, k);
    } else {
      CountAfterUnlockScan(s, t, u, k);
    }
  }

  lemma PairStepLockScan(s: State, t: Thread, k: Mutex)
    requires Inv(s) && s.Pc(t).LockScan?
    ensures PairOk(Apply(s, t, Proceed), t, k)
  {
    var m, at, r := s.Pc(t).m, s.Pc(t).at, Apply(s, t, Proceed);
    assert PairOk(s, t, k);
    CountAfterScan(s, t, t, k);
    if at == |s.owners| {
      assert s.owners[..at] == s.owners;
    } else {
      CountOfPrefix(s.owners, at, k, t);
    }
  }

  lemma PairStepUnlockScan(s: State, t: Thread, k: Mutex)
    requires Inv(s) && s.Pc(t).UnlockScan?
    ensures PairOk(Apply(s, t, Proceed), t, k)
  {
    var m, at, r := s.Pc(t).m, s.Pc(t).at, Apply(s, t, Proceed);
    assert PairOk(s, t, k);
    CountAfterScan(s, t, t, k);
    if at == |s.owners| {
      assert s.owners[..at] == s.owners;
    } else {
      CountOfPrefix(s.owners, at, k, t);
      if r.Pc(t).UnlockScan? {
        ProperStep(s, t, Proceed);
        CountOfPrefix(r.owners, at, k, t);
        assert r.owners[..at] == s.owners[..at];
      }
    }
  }

  lemma PairStepScan(s: State, t: Thread, u: Thread, k: Mutex)
    requires Inv(s) && Enabled(s, t, Proceed) && (s.Pc(t).LockScan? || s.Pc(t).UnlockScan?)
    ensures PairOk(Apply(s, t, Proceed), u, k)
  {
    if u != t {
      CountAfterScan(s, t, u, k);
      PairFrame(s, Apply(s, t, Proceed), u, k);
    } else if s.Pc(t).LockScan? {
      PairStepLockScan(s, t, k);
    } else {
      PairStepUnlockScan(s, t, k);
    }
  }

  lemma PairStep(s: State, t: Thread, a: Action, u: Thread, k: Mutex)
    requires Inv(s) && Enabled(s, t, a)
    ensures PairOk(Apply(s, t, a), u, k)
  {
    if a.CallLock? || a.CallUnlock? || (a.Proceed? && (s.Pc(t).LockEnter? || s.Pc(t).UnlockEnter?)) {
      PairStepControl(s, t, a, u, k);
    } else if a.NoMemory? || s.Pc(t).LockLeave? || s.Pc(t).UnlockLeave? {
      PairStepLeave(s, t, a, u, k);
    } else if s.Pc(t).LockScan? || s.Pc(t).UnlockScan? {
      PairStepScan(s, t, u, k);
    } else {
      PairStepMutex(s, t, u, k);
    }
  }

  lemma InvStep(s: State, t: Thread, a: Action)
    requires Inv(s) && Enabled(s, t, a)
    ensures Inv(Apply(s, t, a))
  {
    ProperStep(s, t, a);
    ListStep(s, t, a);
    forall u: Thread, k: Mutex ensures PairOk(Apply(s, t, a), u, k) {
      PairStep(s, t, a, u, k);
    }
  }

  /** Every state of every run meets the invariant. */
  lemma {:induction false} RunKeepsInv(run: seq<State>, i: nat)
    requires IsRun(run) && i < |run|
    ensures Inv(run[i])
  {
    if i > 0 {
      RunKeepsInv(run, i - 1);
      assert Next(run[i - 1], run[i]);
      var t: Thread, a: Action :| Enabled(run[i - 1], t, a) && run[i] == Apply(run[i - 1], t, a);
      InvStep(run[i - 1], t, a);
    }
  }
}
