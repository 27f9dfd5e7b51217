/** PERMUTE against REQUIRE_ORDER: the two modes of getopt agree on a sorted argv. */
module GetoptOrders {
  import opened Wrappers
  import opened GetoptModel
  import opened GetoptRuns

  // ----- REQUIRE_ORDER stops at the first non-option -----

  /** Reads `args` up to its first non-option: what is reported, and how many are consumed. */
  function ReadStrictly(cfg: RawConfig, args: seq<string>, rest: string): (r: (seq<Event>, nat))
    requires rest != "" ==> args != []
    decreases |args|, if rest != "" then |rest| else if args == [] then 0 else |args[0]| + 1
  {
    if rest != "" then
      var o := Decode(cfg, args[0], rest, ElementAt(args, 1));
      var (events, n) := ReadStrictly(cfg, args[o.advance..], o.nextchar);
      ([EventOf(o)] + events, o.advance + n)
    else if args == [] then ([], 0)
    else if args[0] == "--" then ([], 1)
    else if NonOption(args[0]) then ([], 0)
    else ReadStrictly(cfg, args, Punctuated(cfg, args[0]))
  }

  ghost predicate StopsAfter(r: (seq<Event>, Scan), s: Scan, expected: (seq<Event>, nat)) {
    r.0 == expected.0 && r.1.argv == s.argv && r.1.optind == s.optind + expected.1
  }

  /** A REQUIRE_ORDER run to the end of the options leaves argv alone and stops where the strict reading stops. */
  lemma {:induction false} RequireOrderRun(cfg: RawConfig, s: Scan)
    requires Ordered(s) && s.ordering == RequireOrder && s.first == s.last
    ensures StopsAfter(FullRun(cfg, s), s, ReadStrictly(cfg, s.argv[s.optind..], s.nextchar))
    decreases |s.argv| - s.optind, Unread(s)
  {
    var (t, e) := Step(cfg, s);
    if s.nextchar != "" {
      StepProgress(cfg, s);
      RequireOrderRun(cfg, t);
      RequireOrderInElement(cfg, s);
    } else if e.Returned? {
      var v := s.(nextchar := Punctuated(cfg, s.argv[s.optind]));
      assert Step(cfg, s) == Step(cfg, v);
      RequireOrderRun(cfg, v);
    }
  }

  lemma RequireOrderInElement(cfg: RawConfig, s: Scan)
    requires Ordered(s) && s.nextchar != ""
    requires var t := Step(cfg, s).0; StopsAfter(FullRun(cfg, t), t, ReadStrictly(cfg, t.argv[t.optind..], t.nextchar))
    ensures StopsAfter(FullRun(cfg, s), s, ReadStrictly(cfg, s.argv[s.optind..], s.nextchar))
  {
    var (t, e) := Step(cfg, s);
    var args, n := s.argv[s.optind..], t.optind - s.optind;
    var front, held, more := PiecesAfterDecoding(s, t);
    ReadStrictlyInElement(cfg, args, s.nextchar);
    StopsLater(FullRun(cfg, t), t, ReadStrictly(cfg, args[n..], t.nextchar), s, e);
  }

  lemma StopsLater(r: (seq<Event>, Scan), t: Scan, expected: (seq<Event>, nat), s: Scan, e: Event)
    requires StopsAfter(r, t, expected) && t.argv == s.argv && s.optind <= t.optind
    ensures StopsAfter(([e] + r.0, r.1), s, ([e] + expected.0, t.optind - s.optind + expected.1))
  {
  }

  lemma ReadStrictlyInElement(cfg: RawConfig, args: seq<string>, rest: string)
    requires rest != "" && args != []
    ensures var o := Decode(cfg, args[0], rest, ElementAt(args, 1));
            var r := ReadStrictly(cfg, args[o.advance..], o.nextchar);
            ReadStrictly(cfg, args, rest) == ([EventOf(o)] + r.0, o.advance + r.1)
  {
  }

  // ----- the two readings agree -----

  ghost predicate NoneMissing(events: seq<Event>) {
    forall i :: 0 <= i < |events| && events[i].Returned? ==> !events[i].missing
  }

  /** An option that takes nothing from the next element reads the same whatever follows it. */
  lemma DecodeLooksNoFurther(cfg: RawConfig, elem: string, rest: string, next: Option<string>, other: Option<string>)
    requires rest != ""
    requires var o := Decode(cfg, elem, rest, next); !o.missing && o.advance <= 1
    ensures Decode(cfg, elem, rest, other) == Decode(cfg, elem, rest, next)
  {
  }

  /** The element being read is consumed. */
  lemma {:induction false} ReadConsumesCurrent(cfg: RawConfig, args: seq<string>, rest: string)
    requires rest != "" && args != []
    ensures var p := Read(cfg, args, rest); p.consumed != [] && p.consumed[0] == args[0]
    decreases |rest|
  {
    var o := Decode(cfg, args[0], rest, ElementAt(args, 1));
    if o.advance == 0 {
      assert args[0..] == args;
      ReadConsumesCurrent(cfg, args, o.nextchar);
    }
  }

  /** Nothing a strict reading would take for an option. */
  ghost predicate StopsReading(tail: seq<string>) {
    tail == [] || (NonOption(tail[0]) && tail[0] != "--")
  }

  ghost predicate SortedReads(cfg: RawConfig, p: Parse, rest: string, tail: seq<string>) {
    var sorted := p.Options() + tail;
    (rest != "" ==> sorted != []) && ReadStrictly(cfg, sorted, rest) == (p.events, |p.Options()|)
  }

  /** Reading the sorted options strictly gives what reading the command line gave, whatever
      comes behind them, so long as that is not taken for an option. */
  lemma {:induction false} SortedReadsTheSame(cfg: RawConfig, args: seq<string>, rest: string, tail: seq<string>)
    requires rest != "" ==> args != []
    requires var p := Read(cfg, args, rest);
             (tail == [] || NoneMissing(p.events)) && (p.dashes || StopsReading(tail))
    ensures SortedReads(cfg, Read(cfg, args, rest), rest, tail)
    decreases |args|, if rest != "" then |rest| else if args == [] then 0 else |args[0]| + 1
  {
    if rest != "" {
      var o := Decode(cfg, args[0], rest, ElementAt(args, 1));
      var q := Read(cfg, args[o.advance..], o.nextchar);
      assert Read(cfg, args, rest).events[0] == EventOf(o) && Read(cfg, args, rest).events[1..] == q.events;
      if o.missing {
        ReadsLastMissing(cfg, args, rest);
        SortedMissing(cfg, args, rest, Read(cfg, args, rest));
      } else {
        SortedReadsTheSame(cfg, args[o.advance..], o.nextchar, tail);
        SortedReadsCurrent(cfg, args, rest, tail);
      }
    } else if args == [] || args[0] == "--" {
    } else if NonOption(args[0]) {
      SortedReadsTheSame(cfg, args[1..], "", tail);
      assert Read(cfg, args, "").Options() == Read(cfg, args[1..], "").Options();
    } else {
      var inside := Punctuated(cfg, args[0]);
      SortedReadsTheSame(cfg, args, inside, tail);
      ReadConsumesCurrent(cfg, args, inside);
    }
  }

  /** An argument is missing only at the very end. */
  lemma ReadsLastMissing(cfg: RawConfig, args: seq<string>, rest: string)
    requires rest != "" && args != [] && Decode(cfg, args[0], rest, ElementAt(args, 1)).missing
    ensures var e := EventOf(Decode(cfg, args[0], rest, None));
            && |args| == 1 && e.missing
            && Read(cfg, args, rest) == Parse([e], args, false, [], [])
            && ReadStrictly(cfg, args, rest) == ([e], 1)
  {
    var o := Decode(cfg, args[0], rest, ElementAt(args, 1));
    assert |args| == 1 && o.advance == 1 && o.nextchar == "";
    assert args[1..] == [] && args[..1] == args;
  }

  lemma SortedMissing(cfg: RawConfig, args: seq<string>, rest: string, p: Parse)
    requires args != [] && p.Options() == args && ReadStrictly(cfg, args, rest) == (p.events, |args|)
    ensures SortedReads(cfg, p, rest, [])
  {
    assert p.Options() + [] == args;
  }

  /** If an argument is missing and something stands behind the options, a strict reading of the
      sorted command line takes that for the argument. */
  lemma {:induction false} SortedReadsOtherwise(cfg: RawConfig, args: seq<string>, rest: string, tail: seq<string>)
    requires rest != "" ==> args != []
    requires tail != [] && !NoneMissing(Read(cfg, args, rest).events)
    ensures !(Read(cfg, args, rest).events <= ReadStrictly(cfg, Read(cfg, args, rest).Options() + tail, rest).0)
    decreases |args|, if rest != "" then |rest| else if args == [] then 0 else |args[0]| + 1
  {
    if rest != "" {
      var o := Decode(cfg, args[0], rest, ElementAt(args, 1));
      var q := Read(cfg, args[o.advance..], o.nextchar);
      if o.missing {
        ReadsLastMissing(cfg, args, rest);
        TakesTail(cfg, args[0], rest, tail, Read(cfg, args, rest).Options(), EventOf(o));
      } else {
        MissingLater(EventOf(o), q.events);
        SortedReadsOtherwise(cfg, args[o.advance..], o.nextchar, tail);
        ReadsOtherwiseCurrent(cfg, args, rest, tail);
      }
    } else if args == [] || args[0] == "--" {
    } else if NonOption(args[0]) {
      SortedReadsOtherwise(cfg, args[1..], "", tail);
      assert Read(cfg, args, "").Options() == Read(cfg, args[1..], "").Options();
    } else {
      var inside := Punctuated(cfg, args[0]);
      SortedReadsOtherwise(cfg, args, inside, tail);
      ReadConsumesCurrent(cfg, args, inside);
    }
  }

  lemma MissingLater(e: Event, events: seq<Event>)
    requires !NoneMissing([e] + events) && (e.Returned? ==> !e.missing)
    ensures !NoneMissing(events)
  {
    var all := [e] + events;
    var i :| 0 <= i < |all| && all[i].Returned? && all[i].missing;
    assert events[i - 1] == all[i];
  }

  lemma TakesTail(cfg: RawConfig, elem: string, rest: string, tail: seq<string>, options: seq<string>, e: Event)
    requires rest != "" && tail != [] && options == [elem] && e.Returned? && e.missing
    ensures !([e] <= ReadStrictly(cfg, options + tail, rest).0)
  {
    var all := options + tail;
    var o := Decode(cfg, all[0], rest, ElementAt(all, 1));
    assert !o.missing;
    ReadStrictlyInElement(cfg, all, rest);
    assert ReadStrictly(cfg, all, rest).0[0] == EventOf(o);
  }

  lemma ReadsOtherwiseCurrent(cfg: RawConfig, args: seq<string>, rest: string, tail: seq<string>)
    requires rest != "" && args != [] && tail != []
    requires var o := Decode(cfg, args[0], rest, ElementAt(args, 1));
             var q := Read(cfg, args[o.advance..], o.nextchar);
             !o.missing && !(q.events <= ReadStrictly(cfg, q.Options() + tail, o.nextchar).0)
    ensures !(Read(cfg, args, rest).events <= ReadStrictly(cfg, Read(cfg, args, rest).Options() + tail, rest).0)
  {
    var o := Decode(cfg, args[0], rest, ElementAt(args, 1));
    var p, q := Read(cfg, args, rest), Read(cfg, args[o.advance..], o.nextchar);
    ReadConsumesCurrent(cfg, args, rest);
    OptionsExtended(p, q, o, args, tail);
    StrictlyReadsCurrent(cfg, args, rest, p.Options() + tail, q.Options() + tail);
    var r := ReadStrictly(cfg, q.Options() + tail, o.nextchar).0;
    assert ([EventOf(o)] + r)[1..] == r && ([EventOf(o)] + q.events)[1..] == q.events;
  }

  lemma SortedReadsCurrent(cfg: RawConfig, args: seq<string>, rest: string, tail: seq<string>)
    requires rest != "" && args != []
    requires var o := Decode(cfg, args[0], rest, ElementAt(args, 1));
             !o.missing && SortedReads(cfg, Read(cfg, args[o.advance..], o.nextchar), o.nextchar, tail)
    ensures SortedReads(cfg, Read(cfg, args, rest), rest, tail)
  {
    var o := Decode(cfg, args[0], rest, ElementAt(args, 1));
    var p, q := Read(cfg, args, rest), Read(cfg, args[o.advance..], o.nextchar);
    ReadConsumesCurrent(cfg, args, rest);
    OptionsExtended(p, q, o, args, tail);
    StrictlyReadsSorted(cfg, args, rest, p, q, tail);
  }

  lemma StrictlyReadsSorted(cfg: RawConfig, args: seq<string>, rest: string, p: Parse, q: Parse, tail: seq<string>)
    requires rest != "" && args != [] && p.Options() + tail != [] && (p.Options() + tail)[0] == args[0]
    requires var o := Decode(cfg, args[0], rest, ElementAt(args, 1));
             && !o.missing && SortedReads(cfg, q, o.nextchar, tail)
             && p.events == [EventOf(o)] + q.events && |p.Options()| == o.advance + |q.Options()|
             && p.Options() + tail == args[..o.advance] + (q.Options() + tail)
    ensures SortedReads(cfg, p, rest, tail)
  {
    StrictlyReadsCurrent(cfg, args, rest, p.Options() + tail, q.Options() + tail);
  }

  lemma OptionsExtended(p: Parse, q: Parse, o: Outcome, args: seq<string>, tail: seq<string>)
    requires o.advance <= |args| && args != [] && p.consumed != [] && p.consumed[0] == args[0]
    requires p == q.(events := [EventOf(o)] + q.events, consumed := args[..o.advance] + q.consumed)
    ensures |p.Options()| == o.advance + |q.Options()|
    ensures p.Options() + tail == args[..o.advance] + (q.Options() + tail)
    ensures p.Options() + tail != [] && (p.Options() + tail)[0] == args[0]
  {
    assert p.Options() == args[..o.advance] + q.Options();
  }

  /** An element that reads without a missing argument reads strictly the same in front of
      other elements, and the strict reading goes on with those. */
  lemma StrictlyReadsCurrent(cfg: RawConfig, args: seq<string>, rest: string, all: seq<string>, more: seq<string>)
    requires rest != "" && args != [] && all != [] && all[0] == args[0]
    requires var o := Decode(cfg, args[0], rest, ElementAt(args, 1));
             !o.missing && all == args[..o.advance] + more && (o.nextchar != "" ==> more != [])
    ensures var o := Decode(cfg, args[0], rest, ElementAt(args, 1));
            var r := ReadStrictly(cfg, more, o.nextchar);
            ReadStrictly(cfg, all, rest) == ([EventOf(o)] + r.0, o.advance + r.1)
  {
    var o := Decode(cfg, args[0], rest, ElementAt(args, 1));
    if o.advance <= 1 {
      DecodeLooksNoFurther(cfg, args[0], rest, ElementAt(args, 1), ElementAt(all, 1));
    }
    assert all[o.advance..] == more;
  }

  /** What follows the sorted options is not taken for an option. */
  lemma {:induction false} RestStartsWithNonOption(cfg: RawConfig, args: seq<string>, rest: string)
    requires rest != "" ==> args != []
    ensures var p := Read(cfg, args, rest);
            p.dashes || StopsReading(p.Rest())
    decreases |args|, if rest != "" then |rest| else if args == [] then 0 else |args[0]| + 1
  {
    if rest != "" {
      var o := Decode(cfg, args[0], rest, ElementAt(args, 1));
      RestStartsWithNonOption(cfg, args[o.advance..], o.nextchar);
    } else if args == [] || args[0] == "--" {
    } else if NonOption(args[0]) {
    } else {
      RestStartsWithNonOption(cfg, args, Punctuated(cfg, args[0]));
    }
  }

  // ----- sessions: from the first call to the last -----

  /** The calls a program makes until getopt returns -1. The first one sees optstring without
      its prefix. */
  function Session(cfg: RawConfig, posixlyCorrect: bool, argv: seq<string>): (r: (seq<Event>, Scan))
    requires |argv| >= 1
    ensures |r.1.argv| == |argv|
  {
    var s := Start(cfg, posixlyCorrect, argv, 0);
    var (t, e) := Step(Stripped(cfg), s);
    StepKeepsArgc(Stripped(cfg), s);
    if IsMinusOne(e) then ([], t)
    else
      var (events, f) := Run(cfg, t);
      ([e] + events, f)
  }

  ghost predicate NoPrefix(cfg: RawConfig) {
    CharAt(cfg.optstring, 0) != '-' && CharAt(cfg.optstring, 0) != '+'
  }

  lemma SessionIsRun(cfg: RawConfig, posixlyCorrect: bool, argv: seq<string>)
    requires |argv| >= 1 && NoPrefix(cfg)
    ensures Session(cfg, posixlyCorrect, argv) == Run(cfg, Start(cfg, posixlyCorrect, argv, 0))
  {
  }

  /** `r` reports what the reading `p` of the command line reports and leaves argv sorted, with
      `optind` at the first element behind the options. */
  ghost predicate SortsAs(r: (seq<Event>, Scan), program: string, p: Parse) {
    && r.0 == p.events
    && r.1.argv == [program] + p.Options() + p.Rest()
    && r.1.optind == 1 + |p.Options()|
  }

  lemma ArrivesSorted(r: (seq<Event>, Scan), program: string, p: Parse)
    requires ArrivesAt(r, [program], [], p)
    ensures SortsAs(r, program, p)
  {
    assert [program] + p.Options() + [] == [program] + p.Options();
  }

  lemma StartPieces(cfg: RawConfig, argv: seq<string>)
    requires |argv| >= 1
    ensures var s := Start(cfg, false, argv, 0); Front(s) == [argv[0]] && Held(s) == []
  {
    assert argv[..1] == [argv[0]] && argv[1..1] == [] && [argv[0]] + [] == [argv[0]];
  }

  lemma PermuteRunFromStart(cfg: RawConfig, argv: seq<string>)
    requires |argv| >= 1 && NoPrefix(cfg)
    ensures SortsAs(FullRun(cfg, Start(cfg, false, argv, 0)), argv[0], Read(cfg, argv[1..], ""))
  {
    var s := Start(cfg, false, argv, 0);
    StartPieces(cfg, argv);
    PermuteRun(cfg, s);
    ArrivesSorted(FullRun(cfg, s), argv[0], Read(cfg, argv[1..], ""));
  }

  /** A whole PERMUTE session sorts argv as the left-to-right reading says and reports what that
      reading reports, exactly if no option it reads has the value -1. */
  lemma PermuteSession(cfg: RawConfig, argv: seq<string>)
    requires |argv| >= 1 && NoPrefix(cfg)
    ensures var p := Read(cfg, argv[1..], "");
            && (SortsAs(Session(cfg, false, argv), argv[0], p) <==> NeverMinusOne(p.events))
            && Session(cfg, false, argv).0 <= p.events
            && (Session(cfg, false, argv).0 == p.events <==> NeverMinusOne(p.events))
  {
    SessionIsRun(cfg, false, argv);
    PermuteRunFromStart(cfg, argv);
    RunIsCut(cfg, Start(cfg, false, argv, 0));
  }

  /** `f` is argv stably partitioned: what a session consumed comes first, in its order, with
      the arguments and the `--`; `argv[optind..]` is the non-options passed over, in their
      order, and then what followed the `--`. */
  ghost predicate StablyPartitioned(argv: seq<string>, f: Scan, p: Parse, n: nat)
    requires |argv| >= 1
  {
    && f.optind <= |argv| == |f.argv|
    && f.argv[..f.optind] == [argv[0]] + p.consumed + (if p.dashes then ["--"] else [])
    && f.argv[f.optind..] == p.skipped + p.after
    && SplitsAt(argv[1..], p, n)
  }

  lemma ShuffleLength<T>(args: seq<T>, a: seq<T>, b: seq<T>)
    requires Shuffle(args, a, b)
    ensures |args| == |a| + |b|
  {
  }

  lemma SortedIsStablyPartitioned(argv: seq<string>, r: (seq<Event>, Scan), p: Parse, n: nat)
    requires |argv| >= 1 && SortsAs(r, argv[0], p) && SplitsAt(argv[1..], p, n)
    ensures StablyPartitioned(argv, r.1, p, n)
  {
    ShuffleLength(argv[1..][..n], p.consumed, p.skipped);
    var options := [argv[0]] + p.Options();
    assert options == [argv[0]] + p.consumed + (if p.dashes then ["--"] else []);
    assert r.1.argv == options + p.Rest();
  }

  /** A PERMUTE session partitions argv stably, if no option it reads has the value -1. */
  lemma PermuteSessionIsStablePartition(cfg: RawConfig, argv: seq<string>) returns (n: nat)
    requires |argv| >= 1 && NoPrefix(cfg) && NeverMinusOne(Read(cfg, argv[1..], "").events)
    ensures StablyPartitioned(argv, Session(cfg, false, argv).1, Read(cfg, argv[1..], ""), n)
  {
    var r, p := Session(cfg, false, argv), Read(cfg, argv[1..], "");
    PermuteSession(cfg, argv);
    n := ReadSplitsStably(cfg, argv[1..], "");
    SortedIsStablyPartitioned(argv, r, p, n);
  }

  /** In every mode, every session leaves a permutation of argv. */
  lemma SessionPermutes(cfg: RawConfig, posixlyCorrect: bool, argv: seq<string>)
    requires |argv| >= 1
    ensures multiset(Session(cfg, posixlyCorrect, argv).1.argv) == multiset(argv)
  {
    var s := Start(cfg, posixlyCorrect, argv, 0);
    var (t, e) := Step(Stripped(cfg), s);
    StepPermutes(Stripped(cfg), s);
    if !IsMinusOne(e) {
      RunPermutes(cfg, t);
    }
  }

  lemma RequireOrderSession(cfg: RawConfig, argv: seq<string>)
    requires |argv| >= 1 && NoPrefix(cfg)
    ensures var (events, n) := ReadStrictly(cfg, argv[1..], "");
            var r := Session(cfg, true, argv);
            && r.0 <= events
            && (NeverMinusOne(events) ==> r.0 == events && r.1.argv == argv && r.1.optind == 1 + n)
  {
    var s := Start(cfg, true, argv, 0);
    SessionIsRun(cfg, true, argv);
    RequireOrderRun(cfg, s);
    RunIsCut(cfg, s);
  }

  /** A REQUIRE_ORDER session on the argv that another session left goes like that one: the same
      returns, the same argv, the same `optind`. */
  ghost predicate SameInOrder(cfg: RawConfig, r: (seq<Event>, Scan))
    requires |r.1.argv| >= 1
  {
    var strict := Session(cfg, true, r.1.argv);
    strict.0 == r.0 && strict.1.argv == r.1.argv && strict.1.optind == r.1.optind
  }

  /** The two orders agree on a session, unless it reports a missing argument and leaves something
      behind the options. */
  ghost predicate AgreesUnlessMissing(cfg: RawConfig, argv: seq<string>)
    requires |argv| >= 1
  {
    var r := Session(cfg, false, argv);
    SameInOrder(cfg, r) <==> NoneMissing(r.0) || r.1.optind == |argv|
  }

  lemma SortsAsEnds(program: string, r: (seq<Event>, Scan), p: Parse)
    requires SortsAs(r, program, p)
    ensures r.1.optind == |r.1.argv| <==> p.Rest() == []
  {
  }

  /** Whether the orders agree is whether the strict reading of the sorted options agrees. */
  lemma SortsAsSame(cfg: RawConfig, program: string, r: (seq<Event>, Scan), p: Parse)
    requires SortsAs(r, program, p) && NoPrefix(cfg) && NeverMinusOne(p.events)
    ensures ReadStrictly(cfg, p.Options() + p.Rest(), "") == (p.events, |p.Options()|) ==> SameInOrder(cfg, r)
    ensures !(p.events <= ReadStrictly(cfg, p.Options() + p.Rest(), "").0) ==> !SameInOrder(cfg, r)
  {
    assert r.1.argv[1..] == p.Options() + p.Rest();
    RequireOrderSession(cfg, r.1.argv);
  }

  /** A PERMUTE session in which no option has the value -1 goes like a REQUIRE_ORDER session on
      the argv it leaves behind, unless it reports a missing argument and leaves something behind
      the options: just then the second session finds an argument where the first found none. */
  lemma OrdersAgree(cfg: RawConfig, argv: seq<string>)
    requires |argv| >= 1 && NoPrefix(cfg) && NeverMinusOne(Read(cfg, argv[1..], "").events)
    ensures AgreesUnlessMissing(cfg, argv)
  {
    var p, r := Read(cfg, argv[1..], ""), Session(cfg, false, argv);
    PermuteSession(cfg, argv);
    SortsAsSame(cfg, argv[0], r, p);
    SortsAsEnds(argv[0], r, p);
    if NoneMissing(p.events) || p.Rest() == [] {
      RestStartsWithNonOption(cfg, argv[1..], "");
      SortedReadsTheSame(cfg, argv[1..], "", p.Rest());
    } else {
      SortedReadsOtherwise(cfg, argv[1..], "", p.Rest());
    }
  }
}
