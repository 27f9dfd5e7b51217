/** The message queue of the user interface: any thread adds messages, and whoever draws takes
    them off, a limited number at a time. Message texts are opaque. */
module UserInterface {
  import opened Wrappers
  import opened Queues

  type Message = string

  /** How many of `n` waiting messages a flush with limit `max` shows. */
  function Quota(max: int, n: nat): nat {
    if max >= 1 && max < n then max else n
  }

  /** What `ui_msg` does under the lock. */
  method UiMsg(queue: SimpleQueue<Message>, message: Message)
    requires queue.Valid()
    modifies queue, queue.cells
    ensures queue.Valid() && queue.Contents() == old(queue.Contents()) + [message]
    ensures |queue.cells| == |old(queue.cells)| + 1 && queue.cells[..|old(queue.cells)|] == old(queue.cells)
    ensures fresh(queue.cells[|old(queue.cells)|])
  {
    var msg := new Cell(message);
    queue.InsertTail(msg);
  }

  /** A flush that found `waiting` has shown the oldest `i` messages of it. */
  ghost predicate Showing(waiting: seq<Message>, i: nat, shown: seq<Message>, left: seq<Message>) {
    i <= |waiting| && shown == waiting[..i] && left == waiting[i..]
  }

  /** One round of the loop: the first message goes to the display and off the queue. */
  method ShowFirst(queue: SimpleQueue<Message>, shown: seq<Message>, ghost waiting: seq<Message>, ghost i: nat)
    returns (r: seq<Message>)
    requires queue.Valid() && queue.first != null && Showing(waiting, i, shown, queue.Contents())
    modifies queue
    ensures queue.Valid() && Showing(waiting, i + 1, r, queue.Contents())
  {
    var msg := queue.first;
    assert queue.Contents()[0] == msg.data == waiting[i] && waiting[i..][1..] == waiting[i + 1..];
    r := shown + [msg.data];
    queue.RemoveHead(msg);
  }

  lemma EmptyQueue(queue: SimpleQueue<Message>)
    requires queue.Valid() && queue.first == null
    ensures queue.Contents() == []
  {
  }

  /** `ui_msg_flush`, run without interruption. `shown` is what went to the display: the oldest
      messages, as many as the limit allows. */
  method UiMsgFlush(queue: SimpleQueue<Message>, max: int) returns (i: nat, shown: seq<Message>)
    requires queue.Valid()
    modifies queue
    ensures queue.Valid() && Showing(old(queue.Contents()), i, shown, queue.Contents())
    ensures i == Quota(max, |old(queue.Contents())|)
  {
    ghost var waiting := queue.Contents();
    i, shown := 0, [];
    if queue.first == null {
      EmptyQueue(queue);
      return;
    }
    while queue.first != null
      invariant queue.Valid() && (1 <= max ==> i < max)
      invariant Showing(waiting, i, shown, queue.Contents())
      decreases |waiting| - i
    {
      shown := ShowFirst(queue, shown, waiting, i);
      i := i + 1;
      if i == max {
        return;
      }
    }
    EmptyQueue(queue);
  }

  // ----- threads -----

  type Thread = nat

  /** Where a thread stands. A flush carries its limit and how many messages it has shown; the
      two ghosts of the past, what was displayed and what waited when it got the lock, are there
      to say what it amounts to. */
  datatype Pc =
    | Idle
    | SendWait(message: Message)
    | SendInsert(message: Message)
    | SendLeave
    | FlushTest(max: int)
    | FlushWait(max: int)
    | FlushLoop(max: int, i: nat, shownBefore: seq<Message>, waiting: seq<Message>)
    | FlushLeave(max: int, i: nat, shownBefore: seq<Message>, waiting: seq<Message>)

  datatype Envelope = Envelope(sender: Thread, message: Message)

  /** `sent` lists the messages in the order in which their senders held the lock. */
  datatype State = State(lock: Option<Thread>, queue: seq<Message>, shown: seq<Message>, sent: seq<Envelope>, pcs: map<Thread, Pc>)
  {
    function Pc(t: Thread): Pc {
      if t in pcs then pcs[t] else Idle
    }

    function Goto(t: Thread, pc: Pc): State {
      this.(pcs := pcs[t := pc])
    }
  }

  const Initial := State(None, [], [], [], map[])

  datatype Action = Send(message: Message) | Flush(max: int) | Proceed

  predicate Enabled(s: State, t: Thread, a: Action) {
    match a
    case Send(_) => s.Pc(t).Idle?
    case Flush(_) => s.Pc(t).Idle?
    case Proceed => !s.Pc(t).Idle? && ((s.Pc(t).SendWait? || s.Pc(t).FlushWait?) ==> s.lock.None?)
  }

  function Apply(s: State, t: Thread, a: Action): State
    requires Enabled(s, t, a)
  {
    match a
    case Send(message) => s.Goto(t, SendWait(message))
    case Flush(max) => s.Goto(t, FlushTest(max))
    case Proceed =>
      match s.Pc(t)
      case SendWait(message) => s.(lock := Some(t)).Goto(t, SendInsert(message))
      case SendInsert(message) => s.(queue := s.queue + [message], sent := s.sent + [Envelope(t, message)]).Goto(t, SendLeave)
      case SendLeave => s.(lock := None).Goto(t, Idle)
      case FlushTest(max) => s.Goto(t, if s.queue == [] then Idle else FlushWait(max))
      case FlushWait(max) => s.(lock := Some(t)).Goto(t, FlushLoop(max, 0, s.shown, s.queue))
      case FlushLoop(max, i, shownBefore, waiting) =>
        if s.queue == [] then s.Goto(t, FlushLeave(max, i, shownBefore, waiting))
        else
          var r := s.(shown := s.shown + [s.queue[0]], queue := s.queue[1..]);
          r.Goto(t, if i + 1 == max then FlushLeave(max, i + 1, shownBefore, waiting)
                    else FlushLoop(max, i + 1, shownBefore, waiting))
      case FlushLeave(_, _, _, _) => s.(lock := None).Goto(t, Idle)
  }

  ghost predicate Next(s: State, r: State) {
    exists t: Thread, a: Action :: Enabled(s, t, a) && r == Apply(s, t, a)
  }

  ghost predicate IsRun(run: seq<State>) {
    && run != [] && run[0] == Initial
    && forall i :: 0 <= i < |run| - 1 ==> Next(run[i], run[i + 1])
  }

  // ----- what every interleaving keeps -----

  predicate HasLock(pc: Pc) {
    pc.SendInsert? || pc.SendLeave? || pc.FlushLoop? || pc.FlushLeave?
  }

  /** A flush under way has shown the oldest `i` of the messages it found. */
  predicate FlushOk(s: State, pc: Pc) {
    match pc
    case FlushLoop(max, i, shownBefore, waiting) =>
      && i <= |waiting| && (max >= 1 ==> i < max)
      && s.queue == waiting[i..] && s.shown == shownBefore + waiting[..i]
    case FlushLeave(max, i, shownBefore, waiting) =>
      && i == Quota(max, |waiting|)
      && s.queue == waiting[i..] && s.shown == shownBefore + waiting[..i]
    case _ => true
  }

  ghost predicate ThreadOk(s: State, t: Thread) {
    (HasLock(s.Pc(t)) <==> s.lock == Some(t)) && FlushOk(s, s.Pc(t))
  }

  function Texts(sent: seq<Envelope>): (m: seq<Message>)
    ensures |m| == |sent| && forall i :: 0 <= i < |sent| ==> m[i] == sent[i].message
  {
    seq(|sent|, i requires 0 <= i < |sent| => sent[i].message)
  }

  ghost predicate Inv(s: State) {
    s.shown + s.queue == Texts(s.sent) && forall t: Thread :: ThreadOk(s, t)
  }

  lemma ShowOne(s: State, pc: Pc)
    requires pc.FlushLoop? && FlushOk(s, pc) && s.queue != []
    ensures pc.i < |pc.waiting| && s.queue[0] == pc.waiting[pc.i] && s.queue[1..] == pc.waiting[pc.i + 1..]
    ensures s.shown + [s.queue[0]] == pc.shownBefore + pc.waiting[..pc.i + 1]
  {
    assert pc.waiting[..pc.i + 1] == pc.waiting[..pc.i] + [pc.waiting[pc.i]];
  }

  /** The thread that takes the step. */
  lemma OwnStep(s: State, t: Thread, a: Action)
    requires Enabled(s, t, a) && ThreadOk(s, t)
    ensures ThreadOk(Apply(s, t, a), t)
  {
    var pc := s.Pc(t);
    if a.Proceed? && pc.FlushLoop? && s.queue != [] {
      ShowOne(s, pc);
    }
    if a.Proceed? && pc.FlushWait? {
      assert s.shown + s.queue[..0] == s.shown;
    }
  }

  /** The others. */
  lemma OtherStep(s: State, t: Thread, a: Action, u: Thread)
    requires Enabled(s, t, a) && ThreadOk(s, t) && ThreadOk(s, u) && u != t
    ensures ThreadOk(Apply(s, t, a), u)
  {
    assert Apply(s, t, a).Pc(u) == s.Pc(u);
  }

  lemma StepConserves(s: State, t: Thread, a: Action)
    requires Enabled(s, t, a) && s.shown + s.queue == Texts(s.sent)
    ensures var r := Apply(s, t, a); r.shown + r.queue == Texts(r.sent)
  {
    if a.Proceed? && s.Pc(t).SendInsert? {
      var m := s.Pc(t).message;
      assert Texts(s.sent + [Envelope(t, m)]) == Texts(s.sent) + [m];
      assert s.shown + (s.queue + [m]) == (s.shown + s.queue) + [m];
    }
    if s.queue != [] {
      assert s.shown + [s.queue[0]] + s.queue[1..] == s.shown + s.queue;
    }
  }

  lemma InvStep(s: State, t: Thread, a: Action)
    requires Inv(s) && Enabled(s, t, a)
    ensures Inv(Apply(s, t, a))
  {
    StepConserves(s, t, a);
    forall u: Thread ensures ThreadOk(Apply(s, t, a), u) {
      assert ThreadOk(s, t) && ThreadOk(s, u);
      if u == t {
        OwnStep(s, t, a);
      } else {
        OtherStep(s, t, a, u);
      }
    }
  }

  /** Nothing is lost, duplicated or reordered: in every state of every run, what was shown
      followed by what waits is what was sent, in lock order; and only one thread has the lock. */
  lemma {:induction false} RunConserves(run: seq<State>, i: nat)
    requires IsRun(run) && i < |run|
    ensures run[i].shown + run[i].queue == Texts(run[i].sent)
    ensures forall t: Thread, u: Thread :: HasLock(run[i].Pc(t)) && HasLock(run[i].Pc(u)) ==> t == u
    ensures Inv(run[i])
  {
    if i > 0 {
      RunConserves(run, i - 1);
      assert Next(run[i - 1], run[i]);
      var t: Thread, a: Action :| Enabled(run[i - 1], t, a) && run[i] == Apply(run[i - 1], t, a);
      InvStep(run[i - 1], t, a);
    }
    assert Inv(run[i]);
    forall t: Thread, u: Thread | HasLock(run[i].Pc(t)) && HasLock(run[i].Pc(u)) ensures t == u {
      assert ThreadOk(run[i], t) && ThreadOk(run[i], u);
    }
  }

  /** A flush that is about to give the lock back has shown the oldest messages of those it
      found when it got the lock: as many as its limit allows, all of them without a limit. */
  lemma FlushShowsOldest(run: seq<State>, i: nat, t: Thread)
    requires IsRun(run) && i < |run| && run[i].Pc(t).FlushLeave?
    ensures var pc := run[i].Pc(t);
            && pc.i == (if pc.max >= 1 && pc.max < |pc.waiting| then pc.max else |pc.waiting|)
            && run[i].shown == pc.shownBefore + pc.waiting[..pc.i]
            && run[i].queue == pc.waiting[pc.i..]
            && run[i].lock == Some(t)
  {
    RunConserves(run, i);
    assert ThreadOk(run[i], t);
  }

  // ----- what is sent is what the threads send -----

  /** A run with the steps that make it. */
  ghost predicate IsTrace(run: seq<State>, steps: seq<(Thread, Action)>) {
    && |run| == |steps| + 1 && run[0] == Initial
    && forall i :: 0 <= i < |steps| ==> IsStep(run[i], steps[i].0, steps[i].1, run[i + 1])
  }

  ghost predicate IsStep(s: State, t: Thread, a: Action, r: State) {
    Enabled(s, t, a) && r == Apply(s, t, a)
  }

  function Asked(t: Thread, a: Action, u: Thread): seq<Message> {
    if u == t && a.Send? then [a.message] else []
  }

  /** The messages a thread calls `ui_msg` with, in order. */
  function SendsOf(steps: seq<(Thread, Action)>, t: Thread): seq<Message> {
    if steps == [] then []
    else SendsOf(steps[..|steps| - 1], t) + Asked(steps[|steps| - 1].0, steps[|steps| - 1].1, t)
  }

  /** The messages of a thread that were queued. */
  function By(sent: seq<Envelope>, t: Thread): seq<Message> {
    if sent == [] then []
    else By(sent[..|sent| - 1], t) + if sent[|sent| - 1].sender == t then [sent[|sent| - 1].message] else []
  }

  /** The message a thread is about to queue. */
  function Pending(pc: Pc): seq<Message> {
    if pc.SendWait? || pc.SendInsert? then [pc.message] else []
  }

  ghost predicate AllSent(s: State, sends: seq<Message>, t: Thread) {
    sends == By(s.sent, t) + Pending(s.Pc(t))
  }

  lemma ByGrows(sent: seq<Envelope>, e: Envelope, t: Thread)
    ensures By(sent + [e], t) == By(sent, t) + if e.sender == t then [e.message] else []
  {
    assert (sent + [e])[..|sent|] == sent;
  }

  /** A step queues the message its thread is about to queue, or only takes note of a new one. */
  lemma StepShape(s: State, t: Thread, a: Action)
    requires Enabled(s, t, a)
    ensures var r := Apply(s, t, a);
            && (forall u: Thread :: u != t ==> r.Pc(u) == s.Pc(u))
            && if a.Proceed? && s.Pc(t).SendInsert? then
                 r.sent == s.sent + [Envelope(t, s.Pc(t).message)] && Pending(r.Pc(t)) == []
               else r.sent == s.sent && Pending(r.Pc(t)) == Pending(s.Pc(t)) + Asked(t, a, t)
  {
  }

  lemma StepSends(s: State, t: Thread, a: Action, u: Thread, sends: seq<Message>)
    requires Enabled(s, t, a) && AllSent(s, sends, u)
    ensures AllSent(Apply(s, t, a), sends + Asked(t, a, u), u)
  {
    var before, r := By(s.sent, u), Apply(s, t, a);
    StepShape(s, t, a);
    if a.Proceed? && s.Pc(t).SendInsert? {
      ByGrows(s.sent, Envelope(t, s.Pc(t).message), u);
    }
    if u == t {
      SendsRegroup(before, Pending(s.Pc(t)), Asked(t, a, t));
    } else {
      assert Asked(t, a, u) == [] && sends + [] == sends && before + [] == before;
    }
  }

  lemma SendsRegroup(before: seq<Message>, pending: seq<Message>, asked: seq<Message>)
    ensures (before + pending) + asked == before + (pending + asked)
    ensures asked == [] ==> (before + pending) + asked == (before + pending) + []
  {
  }

  /** In every run, the messages a thread has called `ui_msg` with are its messages among the sent
      ones, in the same order, and then the one it is about to queue: none is lost and none is made
      up. */
  lemma {:induction false} SentIsAsked(run: seq<State>, steps: seq<(Thread, Action)>, t: Thread)
    requires IsTrace(run, steps)
    ensures SendsOf(steps, t) == By(run[|steps|].sent, t) + Pending(run[|steps|].Pc(t))
  {
    if steps != [] {
      var n := |steps| - 1;
      assert IsTrace(run[..|run| - 1], steps[..n]) by {
        forall i | 0 <= i < n ensures IsStep(run[i], steps[i].0, steps[i].1, run[i + 1]) {
        }
      }
      SentIsAsked(run[..|run| - 1], steps[..n], t);
      assert IsStep(run[n], steps[n].0, steps[n].1, run[n + 1]);
      StepSends(run[n], steps[n].0, steps[n].1, t, SendsOf(steps[..n], t));
    }
  }

  /** A flush begins with the messages that wait when it gets the lock, and none of them shown. */
  lemma FlushBegins(s: State, t: Thread)
    requires Inv(s) && s.Pc(t).FlushWait? && Enabled(s, t, Proceed)
    ensures var pc := Apply(s, t, Proceed).Pc(t);
            pc.FlushLoop? && pc.i == 0 && pc.waiting == s.queue && pc.shownBefore == s.shown && pc.max == s.Pc(t).max
    ensures forall u: Thread :: !HasLock(s.Pc(u))
  {
    forall u: Thread ensures !HasLock(s.Pc(u)) {
      assert ThreadOk(s, u);
    }
  }

  // ----- a call from beginning to end -----

  /** From `s`, `n` steps of thread `t` alone lead to `r`. */
  ghost predicate GoesOn(s: State, t: Thread, n: nat, r: State)
    decreases n
  {
    if n == 0 then r == s else Enabled(s, t, Proceed) && GoesOn(Apply(s, t, Proceed), t, n - 1, r)
  }

  lemma {:induction false} OneMore(s: State, t: Thread, n: nat, r: State)
    requires GoesOn(s, t, n, r) && Enabled(r, t, Proceed)
    ensures GoesOn(s, t, n + 1, Apply(r, t, Proceed))
    decreases n
  {
    if n > 0 {
      OneMore(Apply(s, t, Proceed), t, n - 1, r);
    } else {
      assert GoesOn(Apply(r, t, Proceed), t, 0, Apply(r, t, Proceed));
    }
  }

  /** The call is over, the lock is free, and no other thread stands elsewhere. */
  ghost predicate Over(s: State, r: State, t: Thread) {
    r.Pc(t).Idle? && r.lock.None? && forall u: Thread :: u != t ==> r.Pc(u) == s.Pc(u)
  }

  /** `ui_msg`, called while the lock is free, runs to its return with the message at the end of the
      queue. */
  lemma SendReturns(s: State, t: Thread, message: Message) returns (r: State, n: nat)
    requires s.Pc(t).Idle? && s.lock.None?
    ensures GoesOn(Apply(s, t, Send(message)), t, n, r) && Over(s, r, t)
    ensures r.queue == s.queue + [message] && r.shown == s.shown && r.sent == s.sent + [Envelope(t, message)]
  {
    var called := Apply(s, t, Send(message));
    r, n := called, 0;
    OneMore(called, t, n, r);
    r, n := Apply(r, t, Proceed), n + 1;
    OneMore(called, t, n, r);
    r, n := Apply(r, t, Proceed), n + 1;
    OneMore(called, t, n, r);
    r, n := Apply(r, t, Proceed), n + 1;
  }

  /** The loop shows what is left to show. */
  lemma {:induction false} FlushLoops(s: State, r0: State, t: Thread, max: int, i: nat, before: seq<Message>, waiting: seq<Message>, n0: nat)
    returns (r: State, n: nat)
    requires GoesOn(s, t, n0, r0) && r0.Pc(t) == FlushLoop(max, i, before, waiting) && FlushOk(r0, r0.Pc(t))
    ensures GoesOn(s, t, n, r) && r.Pc(t) == FlushLeave(max, Quota(max, |waiting|), before, waiting) && FlushOk(r, r.Pc(t))
    ensures r.sent == r0.sent && forall u: Thread :: u != t ==> r.Pc(u) == r0.Pc(u)
    decreases |waiting| - i
  {
    OneMore(s, t, n0, r0);
    r, n := Apply(r0, t, Proceed), n0 + 1;
    if r0.queue != [] {
      ShowOne(r0, r0.Pc(t));
      if i + 1 != max {
        r, n := FlushLoops(s, r, t, max, i + 1, before, waiting, n);
      }
    }
  }

  /** `ui_msg_flush`, called while the lock is free, runs to its return: it shows the oldest messages
      of the queue, as many as its limit allows and all of them for a limit below 1, and leaves the
      rest. */
  lemma FlushReturns(s: State, t: Thread, max: int) returns (r: State, n: nat)
    requires s.Pc(t).Idle? && s.lock.None?
    ensures GoesOn(Apply(s, t, Flush(max)), t, n, r) && Over(s, r, t) && r.sent == s.sent
    ensures var i := if max >= 1 && max < |s.queue| then max else |s.queue|;
            r.shown == s.shown + s.queue[..i] && r.queue == s.queue[i..]
  {
    var called := Apply(s, t, Flush(max));
    r, n := called, 0;
    OneMore(called, t, n, r);
    r, n := Apply(r, t, Proceed), n + 1;
    assert s.shown + s.queue[..0] == s.shown;
    assert forall u: Thread :: u != t ==> r.Pc(u) == called.Pc(u) == s.Pc(u);
    if s.queue != [] {
      OneMore(called, t, n, r);
      var inside := Apply(r, t, Proceed);
      assert forall u: Thread :: u != t ==> inside.Pc(u) == r.Pc(u);
      r, n := FlushLoops(called, inside, t, max, 0, s.shown, s.queue, n + 1);
      OneMore(called, t, n, r);
      var done := Apply(r, t, Proceed);
      assert forall u: Thread :: u != t ==> done.Pc(u) == r.Pc(u) == inside.Pc(u);
      r, n := done, n + 1;
    }
  }
}
