/** Whole runs of getopt, and the order they leave argv in. */
module GetoptRuns {
  import opened Rotation
  import opened GetoptModel

  // ----- every call makes progress -----

  /** What is left of the element being read; a fresh element counts one more than its text. */
  function Unread(s: Scan): nat {
    if s.nextchar != "" then |s.nextchar| else if s.optind < |s.argv| then |s.argv[s.optind]| + 1 else 0
  }

  lemma SettledKeepsArgc(s: Scan)
    requires Ready(s) && s.nextchar == ""
    ensures var t := Settled(s); |t.argv| == |s.argv| && t.ordering == s.ordering
  {
  }

  lemma StepKeepsArgc(cfg: RawConfig, s: Scan)
    requires Ready(s)
    ensures var t := Step(cfg, s).0; |t.argv| == |s.argv| && t.ordering == s.ordering
  {
    if s.nextchar == "" {
      SettledKeepsArgc(s);
    }
  }

  /** The elements from `optind` on are not moved by a call. */
  lemma GatheredKeepsTail(s: Scan)
    requires Ordered(s) && s.nextchar == ""
    ensures var g := Gathered(s);
            |g.argv| == |s.argv| && s.optind <= g.optind && forall k :: s.optind <= k < |s.argv| ==> g.argv[k] == s.argv[k]
  {
  }

  lemma StepProgress(cfg: RawConfig, s: Scan)
    requires Ready(s) && Step(cfg, s).1.Returned?
    ensures var t := Step(cfg, s).0;
            t.optind > s.optind || (t.optind == s.optind && Unread(t) < Unread(s))
  {
    if s.nextchar == "" && s.ordering == Permute {
      GatheredKeepsTail(Clamped(s));
    }
  }

  /** The events of the calls up to the end of the options, whatever values they return, and the
      state the last call leaves. */
  function FullRun(cfg: RawConfig, s: Scan): (r: (seq<Event>, Scan))
    requires Ready(s)
    ensures |r.1.argv| == |s.argv|
    decreases |s.argv| - s.optind, Unread(s)
  {
    var (t, e) := Step(cfg, s);
    StepKeepsArgc(cfg, s);
    if e.Done? then ([], t)
    else
      StepProgress(cfg, s);
      var (es, f) := FullRun(cfg, t);
      ([e] + es, f)
  }

  /** The call returns -1: at the end of the options, or because that is the option's value. */
  predicate IsMinusOne(e: Event) {
    e.Done? || e.value == -1
  }

  ghost predicate NeverMinusOne(events: seq<Event>) {
    forall i :: 0 <= i < |events| ==> !IsMinusOne(events[i])
  }

  /** The events of the calls up to the first that returns -1, and the state that one leaves. */
  function Run(cfg: RawConfig, s: Scan): (r: (seq<Event>, Scan))
    requires Ready(s)
    ensures |r.1.argv| == |s.argv|
    decreases |s.argv| - s.optind, Unread(s)
  {
    var (t, e) := Step(cfg, s);
    StepKeepsArgc(cfg, s);
    if IsMinusOne(e) then ([], t)
    else
      StepProgress(cfg, s);
      var (es, f) := Run(cfg, t);
      ([e] + es, f)
  }

  ghost predicate IsCut(r: (seq<Event>, Scan), full: (seq<Event>, Scan)) {
    && r.0 <= full.0
    && (NeverMinusOne(full.0) ==> r == full)
    && (!NeverMinusOne(full.0) ==> r.0 != full.0)
  }

  /** A run sees the events before the first -1, and goes to the end of the options exactly if no
      option has that value. */
  lemma {:induction false} RunIsCut(cfg: RawConfig, s: Scan)
    requires Ready(s)
    ensures IsCut(Run(cfg, s), FullRun(cfg, s))
    decreases |s.argv| - s.optind, Unread(s)
  {
    var (t, e) := Step(cfg, s);
    StepKeepsArgc(cfg, s);
    if e.Returned? {
      StepProgress(cfg, s);
      if IsMinusOne(e) {
        assert FullRun(cfg, s).0[0] == e;
      } else {
        RunIsCut(cfg, t);
        CutExtends(e, Run(cfg, t), FullRun(cfg, t));
      }
    }
  }

  lemma CutExtends(e: Event, r: (seq<Event>, Scan), full: (seq<Event>, Scan))
    requires IsCut(r, full) && !IsMinusOne(e)
    ensures IsCut(([e] + r.0, r.1), ([e] + full.0, full.1))
  {
    var longer := [e] + full.0;
    assert forall i :: 0 <= i < |full.0| ==> full.0[i] == longer[i + 1];
    assert longer[1..] == full.0 && ([e] + r.0)[1..] == r.0;
  }

  // ----- argv is only ever permuted -----

  lemma ExchangedPermutes(s: Scan)
    requires Ordered(s) && s.nextchar == ""
    ensures multiset(Exchanged(s).argv) == multiset(s.argv)
  {
    RotatePermutes(s.argv, s.first, s.last, s.optind);
  }

  lemma PastDashesPermutes(s: Scan)
    requires Ordered(s) && s.nextchar == "" && s.optind < |s.argv|
    ensures multiset(PastDashes(s).argv) == multiset(s.argv)
  {
    ExchangedPermutes(s.(optind := s.optind + 1));
  }

  lemma SettledPermutes(s: Scan)
    requires Ready(s) && s.nextchar == ""
    ensures multiset(Settled(s).argv) == multiset(s.argv)
  {
    var c := Clamped(s);
    ExchangedPermutes(c);
    var t := if s.ordering == Permute then Gathered(c) else c;
    if t.optind < |t.argv| {
      PastDashesPermutes(t);
    }
  }

  lemma StepPermutes(cfg: RawConfig, s: Scan)
    requires Ready(s)
    ensures multiset(Step(cfg, s).0.argv) == multiset(s.argv)
  {
    if s.nextchar == "" {
      SettledPermutes(s);
    }
  }

  lemma {:induction false} RunPermutes(cfg: RawConfig, s: Scan)
    requires Ready(s)
    ensures multiset(Run(cfg, s).1.argv) == multiset(s.argv)
    decreases |s.argv| - s.optind, Unread(s)
  {
    var (t, e) := Step(cfg, s);
    StepPermutes(cfg, s);
    StepKeepsArgc(cfg, s);
    if !IsMinusOne(e) {
      StepProgress(cfg, s);
      RunPermutes(cfg, t);
    }
  }

  // ----- the reference: reading a command line without moving anything -----

  /** A command line, read once from left to right: what the calls report, the elements they
      consume, whether `--` ended it, the non-options passed over, and what follows the `--`. */
  datatype Parse = Parse(events: seq<Event>, consumed: seq<string>, dashes: bool, skipped: seq<string>, after: seq<string>)
  {
    /** The options with their arguments, and the `--`. */
    function Options(): seq<string> {
      consumed + if dashes then ["--"] else []
    }

    /** What the program is left to digest. */
    function Rest(): seq<string> {
      skipped + after
    }
  }

  /** Reads `args`; with `rest` not empty, in the middle of the option element `args[0]`. */
  function Read(cfg: RawConfig, args: seq<string>, rest: string): Parse
    requires rest != "" ==> args != []
    decreases |args|, if rest != "" then |rest| else if args == [] then 0 else |args[0]| + 1
  {
    if rest != "" then
      var o := Decode(cfg, args[0], rest, ElementAt(args, 1));
      var p := Read(cfg, args[o.advance..], o.nextchar);
      p.(events := [EventOf(o)] + p.events, consumed := args[..o.advance] + p.consumed)
    else if args == [] then Parse([], [], false, [], [])
    else if args[0] == "--" then Parse([], [], true, [], args[1..])
    else if NonOption(args[0]) then
      var p := Read(cfg, args[1..], "");
      p.(skipped := [args[0]] + p.skipped)
    else Read(cfg, args, Punctuated(cfg, args[0]))
  }

  /** `args` is the two sequences shuffled together, each in its own order. */
  predicate Shuffle<T(==)>(args: seq<T>, a: seq<T>, b: seq<T>) {
    if args == [] then
      a == [] && b == []
    else
      || (a != [] && a[0] == args[0] && Shuffle(args[1..], a[1..], b))
      || (b != [] && b[0] == args[0] && Shuffle(args[1..], a, b[1..]))
  }

  /** The first `n` elements of `args` are the consumed elements and the passed-over
      non-options, shuffled together; the rest is the `--` and what follows it. */
  ghost predicate SplitsAt(args: seq<string>, p: Parse, n: nat) {
    && n <= |args|
    && Shuffle(args[..n], p.consumed, p.skipped)
    && args[n..] == (if p.dashes then ["--"] else []) + p.after
    && (!p.dashes ==> p.after == [])
    && forall i :: 0 <= i < |p.skipped| ==> NonOption(p.skipped[i])
  }

  lemma SplitAfterDecoding(args: seq<string>, advance: nat, p: Parse, n: nat, events: seq<Event>)
    requires advance <= |args| && SplitsAt(args[advance..], p, n)
    ensures SplitsAt(args, p.(events := events, consumed := args[..advance] + p.consumed), advance + n)
  {
    ShufflePrefix(args, advance, n, p.consumed, p.skipped);
  }

  lemma SplitAfterSkipping(args: seq<string>, p: Parse, n: nat)
    requires args != [] && NonOption(args[0]) && SplitsAt(args[1..], p, n)
    ensures SplitsAt(args, p.(skipped := [args[0]] + p.skipped), n + 1)
  {
    assert args[..n + 1][1..] == args[1..][..n];
  }

  /** Reading splits every command line stably. */
  lemma {:induction false} ReadSplitsStably(cfg: RawConfig, args: seq<string>, rest: string) returns (n: nat)
    requires rest != "" ==> args != []
    ensures SplitsAt(args, Read(cfg, args, rest), n)
    decreases |args|, if rest != "" then |rest| else if args == [] then 0 else |args[0]| + 1
  {
    if rest != "" {
      var o := Decode(cfg, args[0], rest, ElementAt(args, 1));
      var p := Read(cfg, args[o.advance..], o.nextchar);
      var m := ReadSplitsStably(cfg, args[o.advance..], o.nextchar);
      SplitAfterDecoding(args, o.advance, p, m, [EventOf(o)] + p.events);
      n := o.advance + m;
    } else if args == [] || args[0] == "--" {
      n := 0;
    } else if NonOption(args[0]) {
      var m := ReadSplitsStably(cfg, args[1..], "");
      SplitAfterSkipping(args, Read(cfg, args[1..], ""), m);
      n := m + 1;
    } else {
      n := ReadSplitsStably(cfg, args, Punctuated(cfg, args[0]));
    }
  }

  /** Elements put in front of both a shuffled sequence and its first part keep it shuffled. */
  lemma {:induction false} ShufflePrefix<T>(args: seq<T>, n: nat, m: nat, a: seq<T>, b: seq<T>)
    requires n + m <= |args| && Shuffle(args[n..][..m], a, b)
    ensures Shuffle(args[..n + m], args[..n] + a, b) && args[n + m..] == args[n..][m..]
  {
    if n == 0 {
      assert args[0..] == args && args[..0] + a == a;
    } else {
      assert args[1..][n - 1..] == args[n..];
      ShufflePrefix(args[1..], n - 1, m, a, b);
      assert args[..n + m][1..] == args[1..][..n - 1 + m];
      assert (args[..n] + a)[1..] == args[1..][..n - 1] + a;
    }
  }

  // ----- PERMUTE moves argv into the order of the reference -----

  /** The options placed so far: those before the skipped block and those seen since. */
  function Front(s: Scan): seq<string>
    requires Ordered(s)
  {
    s.argv[..s.first] + s.argv[s.last..s.optind]
  }

  /** The non-options skipped so far. */
  function Held(s: Scan): seq<string>
    requires Ordered(s)
  {
    s.argv[s.first..s.last]
  }

  lemma SkipDependsOnTail(a: seq<string>, b: seq<string>, i: nat)
    requires i <= |a| == |b| && a[i..] == b[i..]
    ensures SkipNonOptions(a, i) == SkipNonOptions(b, i)
    decreases |a| - i
  {
    if i < |a| {
      assert a[i] == a[i..][0] == b[i..][0] == b[i];
      assert a[i + 1..] == a[i..][1..] == b[i..][1..] == b[i + 1..];
      SkipDependsOnTail(a, b, i + 1);
    }
  }

  lemma GatheredShape(s: Scan)
    requires Ordered(s) && s.nextchar == ""
    ensures var g := Gathered(s);
            && g.argv == Front(s) + Held(s) + s.argv[s.optind..]
            && g.first == |Front(s)|
            && g.last == g.optind == SkipNonOptions(s.argv, s.optind)
  {
    var rotated := Rotate(s.argv, s.first, s.last, s.optind);
    RotateTradesBlocks(s.argv, s.first, s.last, s.optind);
    assert rotated[s.optind..] == s.argv[s.optind..];
    SkipDependsOnTail(rotated, s.argv, s.optind);
    if s.first == s.last || s.last == s.optind {
      assert Front(s) + Held(s) == s.argv[..s.optind];
    }
  }

  lemma SliceJoins<T>(a: seq<T>, k: nat, b: seq<T>)
    requires 0 < k <= |a|
    ensures [a[0]] + (a[1..][..k - 1] + b) == a[..k] + b
  {
  }

  lemma SliceExtends<T>(a: seq<T>, first: nat, last: nat, i: nat, n: nat)
    requires first <= last <= i && i + n <= |a|
    ensures a[..first] + a[last..i + n] == (a[..first] + a[last..i]) + a[i..][..n]
    ensures a[i..][n..] == a[i + n..]
  {
  }

  lemma ConcatPieces<T>(x: seq<T>, h: seq<T>, r: seq<T>, k: nat)
    requires k <= |r|
    ensures var a := x + h + r;
            && a[..|x|] == x && a[|x|..|x| + |h| + k] == h + r[..k] && a[|x| + |h| + k..] == r[k..]
            && (k < |r| ==> a[|x| + |h| + k] == r[k] && a[|x| + |h| + k + 1..] == r[k..][1..])
  {
  }

  lemma {:induction false} ReadSkips(cfg: RawConfig, args: seq<string>, k: nat)
    requires k <= |args| && forall i :: 0 <= i < k ==> NonOption(args[i])
    ensures var p := Read(cfg, args[k..], "");
            Read(cfg, args, "") == p.(skipped := args[..k] + p.skipped)
  {
    if k == 0 {
      assert args[0..] == args;
      assert args[..0] + Read(cfg, args, "").skipped == Read(cfg, args, "").skipped;
    } else {
      ReadSkips(cfg, args[1..], k - 1);
      assert args[1..][k - 1..] == args[k..];
      SliceJoins(args, k, Read(cfg, args[k..], "").skipped);
    }
  }

  /** Where argv ends up: `front` and `held` are the options and non-options placed before. */
  function Sorted(front: seq<string>, held: seq<string>, p: Parse): seq<string> {
    front + p.Options() + held + p.Rest()
  }

  lemma SortedSkips(front: seq<string>, held: seq<string>, p: Parse, more: seq<string>)
    ensures Sorted(front, held, p.(skipped := more + p.skipped)) == Sorted(front, held + more, p)
  {
    assert (more + p.skipped) + p.after == more + p.Rest();
  }

  ghost predicate ArrivesAt(r: (seq<Event>, Scan), front: seq<string>, held: seq<string>, p: Parse) {
    && r.0 == p.events
    && r.1.argv == Sorted(front, held, p)
    && r.1.optind == |front| + |p.Options()|
  }

  lemma ArrivesAfterCall(r: (seq<Event>, Scan), e: Event, front: seq<string>, held: seq<string>, p: Parse, more: seq<string>)
    requires ArrivesAt(r, front + more, held, p)
    ensures ArrivesAt(([e] + r.0, r.1), front, held, p.(events := [e] + p.events, consumed := more + p.consumed))
  {
    var q := p.(events := [e] + p.events, consumed := more + p.consumed);
    assert q.Options() == more + p.Options();
    assert Sorted(front, held, q) == Sorted(front + more, held, p);
  }

  /** A state with a gathered block, cut where its indices point. */
  lemma GatheredPieces(g: Scan, front: seq<string>, held: seq<string>, args: seq<string>, k: nat)
    requires Ordered(g) && k <= |args| && g.argv == front + held + args
    requires g.first == |front| && g.last == g.optind == |front| + |held| + k
    ensures Front(g) == front && Held(g) == held + args[..k] && g.argv[g.optind..] == args[k..]
    ensures k < |args| ==> g.argv[g.optind] == args[k] && g.argv[g.optind + 1..] == args[k..][1..]
  {
    ConcatPieces(front, held, args, k);
  }

  lemma StopsAtArgc(cfg: RawConfig, s: Scan)
    requires Ordered(s) && s.ordering == Permute && s.nextchar == "" && Gathered(s).optind == |s.argv|
    ensures var g := Gathered(s);
            FullRun(cfg, s) == ([], g.(optind := if g.first != g.last then g.first else g.optind))
  {
  }

  lemma StopsAtDashes(cfg: RawConfig, s: Scan)
    requires Ordered(s) && s.ordering == Permute && s.nextchar == ""
    requires Gathered(s).optind < |s.argv| && Gathered(s).argv[Gathered(s).optind] == "--"
    ensures var u := PastDashes(Gathered(s));
            FullRun(cfg, s) == ([], u.(optind := if u.first != u.last then u.first else u.optind))
  {
  }

  lemma ReadNonOptionsOnly(cfg: RawConfig, args: seq<string>)
    requires forall i :: 0 <= i < |args| ==> NonOption(args[i])
    ensures Read(cfg, args, "") == Parse([], [], false, args, [])
  {
    ReadSkips(cfg, args, |args|);
    assert args[|args|..] == [] && args[..|args|] == args;
    assert args + [] == args;
  }

  lemma ArrivesWithNonOptions(r: (seq<Event>, Scan), front: seq<string>, held: seq<string>, args: seq<string>)
    requires r.0 == [] && r.1.argv == front + held + args && r.1.optind == |front|
    ensures ArrivesAt(r, front, held, Parse([], [], false, args, []))
  {
    var p := Parse([], [], false, args, []);
    assert p.Options() == [] && p.Rest() == args;
  }

  lemma RunEndsAtArgc(cfg: RawConfig, s: Scan)
    requires Ordered(s) && s.ordering == Permute && s.nextchar == "" && Gathered(s).optind == |s.argv|
    ensures ArrivesAt(FullRun(cfg, s), Front(s), Held(s), Read(cfg, s.argv[s.optind..], ""))
  {
    StopsAtArgc(cfg, s);
    GatheredShape(s);
    ReadNonOptionsOnly(cfg, s.argv[s.optind..]);
    ArrivesWithNonOptions(FullRun(cfg, s), Front(s), Held(s), s.argv[s.optind..]);
  }

  lemma SortedDashes(front: seq<string>, held: seq<string>, after: seq<string>)
    ensures Sorted(front, held, Parse([], [], true, [], after)) == front + ["--"] + held + after
  {
    assert [] + ["--"] == ["--"] && [] + after == after;
  }

  lemma DashesRotated(a: seq<string>, first: nat, last: nat)
    requires first <= last < |a| && a[last] == "--"
    ensures Rotate(a, first, last, last + 1) == a[..first] + ["--"] + a[first..last] + a[last + 1..]
    ensures a[..first] + a[last..last] == a[..first]
  {
    RotateTradesBlocks(a, first, last, last + 1);
    assert a[last..last + 1] == ["--"];
  }

  lemma PastDashesShape(g: Scan)
    requires Ordered(g) && g.nextchar == "" && g.last == g.optind < |g.argv| && g.argv[g.optind] == "--"
    ensures var p, u := Parse([], [], true, [], g.argv[g.optind + 1..]), PastDashes(g);
            && u.argv == Sorted(Front(g), Held(g), p)
            && |Front(g)| + 1 == if u.first != u.last then u.first else u.optind
  {
    DashesRotated(g.argv, g.first, g.last);
    SortedDashes(Front(g), Held(g), g.argv[g.optind + 1..]);
    if g.first == g.last {
      NothingToExchange(g.argv, g.first, g.last, g.optind + 1);
    }
  }

  lemma GatheredSkips(s: Scan)
    requires Ordered(s) && s.nextchar == ""
    ensures var g := Gathered(s);
            && (forall k :: s.optind <= k < g.optind ==> NonOption(g.argv[k]))
            && (g.optind < |g.argv| ==> !NonOption(g.argv[g.optind]))
  {
  }

  lemma FirstOptionInTail(a: seq<string>, b: seq<string>, from: nat, i: nat)
    requires from <= i < |a| == |b| && forall k :: from <= k < |a| ==> b[k] == a[k]
    requires (forall k :: from <= k < i ==> NonOption(b[k])) && !NonOption(b[i])
    ensures var args, k := a[from..], i - from;
            && 0 <= k < |args| && (forall n :: 0 <= n < k ==> NonOption(args[n]))
            && args[k] == b[i] && !NonOption(args[k]) && args[k..][1..] == b[i + 1..]
  {
    forall n | 0 <= n < i - from ensures NonOption(a[from..][n]) {
      assert a[from..][n] == b[from + n];
    }
  }

  /** The element a call stops at is the first of the unread part that is no non-option. */
  lemma GatheredStopsAt(s: Scan)
    requires Ordered(s) && s.nextchar == "" && Gathered(s).optind < |s.argv|
    ensures var g, args := Gathered(s), s.argv[s.optind..];
            var k := g.optind - s.optind;
            && 0 <= k < |args| && (forall i :: 0 <= i < k ==> NonOption(args[i]))
            && args[k] == g.argv[g.optind] && !NonOption(args[k])
            && args[k..][1..] == g.argv[g.optind + 1..]
  {
    GatheredKeepsTail(s);
    GatheredSkips(s);
    FirstOptionInTail(s.argv, Gathered(s).argv, s.optind, Gathered(s).optind);
  }

  lemma ArrivesAtDashes(cfg: RawConfig, r: (seq<Event>, Scan), front: seq<string>, held: seq<string>, args: seq<string>, k: nat)
    requires k < |args| && (forall i :: 0 <= i < k ==> NonOption(args[i])) && args[k] == "--"
    requires ArrivesAt(r, front, held + args[..k], Parse([], [], true, [], args[k..][1..]))
    ensures ArrivesAt(r, front, held, Read(cfg, args, ""))
  {
    ReadSkips(cfg, args, k);
    assert Read(cfg, args[k..], "") == Parse([], [], true, [], args[k..][1..]);
    ArrivesPastSkipped(r, front, held, Read(cfg, args[k..], ""), args[..k]);
  }

  lemma RunEndsAtDashes(cfg: RawConfig, s: Scan)
    requires Ordered(s) && s.ordering == Permute && s.nextchar == ""
    requires Gathered(s).optind < |s.argv| && Gathered(s).argv[Gathered(s).optind] == "--"
    ensures ArrivesAt(FullRun(cfg, s), Front(s), Held(s), Read(cfg, s.argv[s.optind..], ""))
  {
    var args, g := s.argv[s.optind..], Gathered(s);
    var k := g.optind - s.optind;
    StopsAtDashes(cfg, s);
    GatheredShape(s);
    GatheredStopsAt(s);
    GatheredPieces(g, Front(s), Held(s), args, k);
    PastDashesShape(g);
    ArrivesAtDashes(cfg, FullRun(cfg, s), Front(s), Held(s), args, k);
  }

  /** A PERMUTE run to the end of the options, from any state between two calls, reports what
      reading the unread part of argv reports, and leaves argv with all options in front and all
      non-options behind. */
  lemma {:induction false} PermuteRun(cfg: RawConfig, s: Scan)
    requires Ordered(s) && s.ordering == Permute
    ensures ArrivesAt(FullRun(cfg, s), Front(s), Held(s), Read(cfg, s.argv[s.optind..], s.nextchar))
    decreases |s.argv| - s.optind, Unread(s)
  {
    if s.nextchar != "" {
      PermuteRunInElement(cfg, s);
    } else if Gathered(s).optind == |s.argv| {
      RunEndsAtArgc(cfg, s);
    } else if Gathered(s).argv[Gathered(s).optind] == "--" {
      RunEndsAtDashes(cfg, s);
    } else {
      StepStartsElement(cfg, s);
      AtOptionIsCloser(cfg, s);
      PermuteRun(cfg, AtOption(cfg, s));
      PermuteRunToOption(cfg, s);
    }
  }

  /** The state in which a call from `s` starts to decode the next option element. */
  function AtOption(cfg: RawConfig, s: Scan): (v: Scan)
    requires Ordered(s) && s.ordering == Permute && s.nextchar == "" && FindsOption(s)
    ensures Ordered(v) && v.nextchar != "" && v.ordering == Permute
  {
    var g := Gathered(s);
    g.(nextchar := Punctuated(cfg, g.argv[g.optind]))
  }

  lemma AtOptionIsCloser(cfg: RawConfig, s: Scan)
    requires Ordered(s) && s.ordering == Permute && s.nextchar == "" && FindsOption(s)
    ensures var v := AtOption(cfg, s);
            |v.argv| == |s.argv| && (v.optind > s.optind || (v.optind == s.optind && Unread(v) < Unread(s)))
  {
    GatheredKeepsTail(s);
  }

  predicate FindsOption(s: Scan)
    requires Ordered(s) && s.nextchar == ""
  {
    var g := Gathered(s);
    g.optind < |g.argv| && g.argv[g.optind] != "--"
  }

  lemma StepStartsElement(cfg: RawConfig, s: Scan)
    requires Ordered(s) && s.ordering == Permute && s.nextchar == "" && FindsOption(s)
    ensures Step(cfg, s) == Step(cfg, AtOption(cfg, s))
    ensures FullRun(cfg, s) == FullRun(cfg, AtOption(cfg, s))
  {
  }

  lemma ReadAtOption(cfg: RawConfig, args: seq<string>)
    requires args != [] && args[0] != "--" && !NonOption(args[0])
    ensures Read(cfg, args, "") == Read(cfg, args, Punctuated(cfg, args[0]))
  {
  }

  lemma PermuteRunToOption(cfg: RawConfig, s: Scan)
    requires Ordered(s) && s.ordering == Permute && s.nextchar == "" && FindsOption(s)
    requires var v := AtOption(cfg, s);
             FullRun(cfg, s) == FullRun(cfg, v)
             && ArrivesAt(FullRun(cfg, v), Front(v), Held(v), Read(cfg, v.argv[v.optind..], v.nextchar))
    ensures ArrivesAt(FullRun(cfg, s), Front(s), Held(s), Read(cfg, s.argv[s.optind..], ""))
  {
    var g, v := Gathered(s), AtOption(cfg, s);
    GatheredShape(s);
    GatheredStopsAt(s);
    ArrivesFromOption(cfg, FullRun(cfg, v), v, Front(s), Held(s), s.argv[s.optind..], g.optind - s.optind);
  }

  lemma ArrivesFromOption(cfg: RawConfig, r: (seq<Event>, Scan), v: Scan, front: seq<string>, held: seq<string>, args: seq<string>, k: nat)
    requires Ordered(v) && k < |args| && v.argv == front + held + args
    requires v.first == |front| && v.last == v.optind == |front| + |held| + k
    requires (forall i :: 0 <= i < k ==> NonOption(args[i])) && args[k] != "--" && !NonOption(args[k])
    requires v.nextchar == Punctuated(cfg, args[k])
    requires ArrivesAt(r, Front(v), Held(v), Read(cfg, v.argv[v.optind..], v.nextchar))
    ensures ArrivesAt(r, front, held, Read(cfg, args, ""))
  {
    GatheredPieces(v, front, held, args, k);
    ReadToOption(cfg, args, k);
    ArrivesPastSkipped(r, front, held, Read(cfg, args[k..], v.nextchar), args[..k]);
  }

  lemma ReadToOption(cfg: RawConfig, args: seq<string>, k: nat)
    requires k < |args| && (forall i :: 0 <= i < k ==> NonOption(args[i]))
    requires args[k] != "--" && !NonOption(args[k])
    ensures var p := Read(cfg, args[k..], Punctuated(cfg, args[k]));
            Read(cfg, args, "") == p.(skipped := args[..k] + p.skipped)
  {
    ReadSkips(cfg, args, k);
    ReadAtOption(cfg, args[k..]);
  }

  lemma ArrivesPastSkipped(r: (seq<Event>, Scan), front: seq<string>, held: seq<string>, p: Parse, more: seq<string>)
    requires ArrivesAt(r, front, held + more, p)
    ensures ArrivesAt(r, front, held, p.(skipped := more + p.skipped))
  {
    SortedSkips(front, held, p, more);
  }

  lemma {:induction false} PermuteRunInElement(cfg: RawConfig, s: Scan)
    requires Ordered(s) && s.ordering == Permute && s.nextchar != ""
    ensures ArrivesAt(FullRun(cfg, s), Front(s), Held(s), Read(cfg, s.argv[s.optind..], s.nextchar))
    decreases |s.argv| - s.optind, Unread(s), 0
  {
    var (t, e) := Step(cfg, s);
    StepProgress(cfg, s);
    PermuteRun(cfg, t);
    var front, held, more := PiecesAfterDecoding(s, t);
    var p := Read(cfg, t.argv[t.optind..], t.nextchar);
    ArrivesAfterCall(FullRun(cfg, t), e, front, held, p, more);
    assert FullRun(cfg, s) == ([e] + FullRun(cfg, t).0, FullRun(cfg, t).1);
    assert Read(cfg, s.argv[s.optind..], s.nextchar) == p.(events := [e] + p.events, consumed := more + p.consumed);
  }

  /** How the pieces of argv are cut after decoding: the elements passed join the front. */
  lemma PiecesAfterDecoding(s: Scan, t: Scan) returns (front: seq<string>, held: seq<string>, more: seq<string>)
    requires Ordered(s) && Ordered(t) && s.optind < |s.argv|
    requires t == s.(optind := t.optind, nextchar := t.nextchar) && s.optind <= t.optind
    ensures front == Front(s) && held == Held(s)
    ensures more == s.argv[s.optind..][..t.optind - s.optind]
    ensures Front(t) == front + more && Held(t) == held
    ensures t.argv[t.optind..] == s.argv[s.optind..][t.optind - s.optind..]
    ensures ElementAt(s.argv[s.optind..], 1) == ElementAt(s.argv, s.optind + 1)
  {
    front, held, more := Front(s), Held(s), s.argv[s.optind..][..t.optind - s.optind];
    SliceExtends(s.argv, s.first, s.last, s.optind, t.optind - s.optind);
  }
}
