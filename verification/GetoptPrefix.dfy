/** The `+` or `-` in front of optstring: only the first call takes it off. */
module GetoptPrefix {
  import opened Wrappers
  import opened Strings
  import opened GetoptModel
  import opened GetoptRuns
  import opened GetoptOrders

  predicate HasPrefix(optstring: string) {
    CharAt(optstring, 0) == '+' || CharAt(optstring, 0) == '-'
  }

  // ----- one letter -----

  /** What a letter of a kind makes a call report, with the rest of its cluster and the next
      element. */
  function ShortOutcome(kind: Option<ArgKind>, c: char, tail: string, next: Option<string>, onMissing: char): Outcome {
    var moved := if tail == "" then 1 else 0;
    match kind
    case None => Rejected(CharValue(c), moved, tail)
    case Some(NoArgument) => Outcome(CharValue(c), None, None, None, None, false, moved, tail)
    case Some(_) =>
      if tail != "" then Outcome(CharValue(c), Some(tail), None, None, None, false, 1, "")
      else if kind == Some(OptionalArgument) then Outcome(CharValue(c), None, None, None, None, false, 1, "")
      else if next.Some? then Outcome(CharValue(c), next, None, None, None, false, 2, "")
      else Outcome(onMissing as int, None, Some(CharValue(c)), None, None, true, 1, "")
  }

  function OnMissing(optstring: string): char {
    if CharAt(optstring, 0) == ':' then ':' else '?'
  }

  lemma DecodeShortByKind(optstring: string, rest: string, next: Option<string>)
    requires rest != ""
    ensures DecodeShort(optstring, rest, next)
            == ShortOutcome(ShortKind(optstring, rest[0]), rest[0], rest[1..], next, OnMissing(optstring))
  {
  }

  /** Two kinds of letters that cannot be told apart, with more of the cluster behind them or not. */
  predicate KindsReadAlike(k: Option<ArgKind>, l: Option<ArgKind>, more: bool) {
    k == l
    || (k.Some? && l.Some? && (if more then k.value != NoArgument && l.value != NoArgument
                               else k.value != RequiredArgument && l.value != RequiredArgument))
  }

  /** The prefix makes no difference to reading the letter at the start of `rest`. */
  predicate PrefixUnseen(optstring: string, rest: string, next: Option<string>)
    requires optstring != "" && rest != ""
  {
    var k, l := ShortKind(optstring, rest[0]), ShortKind(optstring[1..], rest[0]);
    && KindsReadAlike(k, l, |rest| > 1)
    && !(CharAt(optstring, 1) == ':' && l == Some(RequiredArgument) && |rest| == 1 && next.None?)
  }

  /** With and without its prefix, optstring reads a letter the same exactly if it gives it kinds
      that read alike and no argument is missing that the stripped string reports by a colon. For
      the letter that is the prefix itself the kinds may differ, for all others they are the same. */
  lemma PrefixSeenExactly(optstring: string, rest: string, next: Option<string>)
    requires HasPrefix(optstring) && rest != ""
    ensures DecodeShort(optstring, rest, next) == DecodeShort(optstring[1..], rest, next)
            <==> PrefixUnseen(optstring, rest, next)
    ensures rest[0] != optstring[0] ==> ShortKind(optstring, rest[0]) == ShortKind(optstring[1..], rest[0])
  {
    var c, tail := rest[0], rest[1..];
    DecodeShortByKind(optstring, rest, next);
    DecodeShortByKind(optstring[1..], rest, next);
    if c != optstring[0] {
      KindPastPrefix(optstring, c);
    } else {
      assert Find(optstring, c) == Some(0);
    }
  }

  lemma KindPastPrefix(s: string, c: char)
    requires s != "" && s[0] != c
    ensures ShortKind(s, c) == ShortKind(s[1..], c)
    ensures c in s <==> c in s[1..]
  {
    assert Find(s, c) == match Find(s[1..], c) case None => None case Some(i) => Some(i + 1);
  }

  /** What a letter reports tells what it does to the scan. */
  lemma OutcomesDiffer(optstring: string, other: string, rest: string, next: Option<string>)
    requires rest != "" && DecodeShort(optstring, rest, next) != DecodeShort(other, rest, next)
    ensures EventOf(DecodeShort(optstring, rest, next)) != EventOf(DecodeShort(other, rest, next))
  {
    DecodeShortByKind(optstring, rest, next);
    DecodeShortByKind(other, rest, next);
  }

  // ----- sessions -----

  /** What the session would be if every call read optstring without its prefix. */
  function StrippedSession(cfg: RawConfig, posixlyCorrect: bool, argv: seq<string>): (seq<Event>, Scan)
    requires |argv| >= 1
  {
    Run(Stripped(cfg), Start(cfg, posixlyCorrect, argv, 0))
  }

  ghost predicate PrefixMatters(cfg: RawConfig, posixlyCorrect: bool, argv: seq<string>) {
    |argv| >= 1 && Session(cfg, posixlyCorrect, argv) != StrippedSession(cfg, posixlyCorrect, argv)
  }

  /** Some option has to have an argument. */
  ghost predicate DemandsArgument(cfg: RawConfig) {
    || (exists c :: c in cfg.optstring && ShortKind(cfg.optstring, c) == Some(RequiredArgument))
    || (exists i: nat, k: nat :: Reaches(cfg, i, k) && k > 0 && cfg.longopts.value[i].hasArg == 1)
  }

  /** The letter of the prefix is an option of the same kind in the stripped string, and if that
      starts with a colon, no argument can be missing. */
  ghost predicate PrefixHarmless(cfg: RawConfig)
    requires HasPrefix(cfg.optstring)
  {
    && ShortKind(cfg.optstring, cfg.optstring[0]) == ShortKind(cfg.optstring[1..], cfg.optstring[0])
    && !(CharAt(cfg.optstring, 1) == ':' && DemandsArgument(Stripped(cfg)))
  }

  lemma HarmlessMembers(optstring: string)
    requires HasPrefix(optstring) && ShortKind(optstring, optstring[0]) == ShortKind(optstring[1..], optstring[0])
    ensures forall c :: c in optstring <==> c in optstring[1..]
    ensures forall c :: ShortKind(optstring, c) == ShortKind(optstring[1..], c)
  {
    assert Find(optstring, optstring[0]) == Some(0);
    forall c ensures (c in optstring <==> c in optstring[1..]) && ShortKind(optstring, c) == ShortKind(optstring[1..], c) {
      if c != optstring[0] {
        KindPastPrefix(optstring, c);
      }
    }
  }

  lemma HarmlessShort(cfg: RawConfig, rest: string, next: Option<string>)
    requires HasPrefix(cfg.optstring) && PrefixHarmless(cfg) && rest != ""
    ensures DecodeShort(cfg.optstring, rest, next) == DecodeShort(cfg.optstring[1..], rest, next)
  {
    HarmlessMembers(cfg.optstring);
    PrefixSeenExactly(cfg.optstring, rest, next);
    assert ShortKind(Stripped(cfg).optstring, rest[0]).Some? ==> rest[0] in Stripped(cfg).optstring;
  }

  lemma HarmlessLong(cfg: RawConfig, i: nat, rest: string, next: Option<string>)
    requires HasPrefix(cfg.optstring) && PrefixHarmless(cfg) && rest != ""
    requires cfg.longopts.Some? && i < |cfg.longopts.value|
    requires Resolve(cfg.longopts.value, rest[..NameEnd(rest)], cfg.longOnly) == Found(i)
    ensures DecodeLong(cfg, cfg.longopts.value[i], i, rest, next)
            == DecodeLong(Stripped(cfg), cfg.longopts.value[i], i, rest, next)
  {
    var o, k := cfg.longopts.value[i], NameEnd(rest);
    if CharAt(cfg.optstring, 1) == ':' && k == |rest| && o.hasArg == 1 {
      assert rest[..k] == o.name[..k];
      assert Reaches(Stripped(cfg), i, k);
    }
  }

  lemma HarmlessDecode(cfg: RawConfig, elem: string, rest: string, next: Option<string>)
    requires HasPrefix(cfg.optstring) && PrefixHarmless(cfg) && rest != ""
    ensures Decode(cfg, elem, rest, next) == Decode(Stripped(cfg), elem, rest, next)
  {
    HarmlessMembers(cfg.optstring);
    HarmlessShort(cfg, rest, next);
    if LooksLong(cfg, elem) {
      var r := Resolve(cfg.longopts.value, rest[..NameEnd(rest)], cfg.longOnly);
      if r.Found? {
        HarmlessLong(cfg, r.index, rest, next);
      }
    }
  }

  /** The two configurations decode everything the same. */
  ghost predicate DecodeAlike(cfg: RawConfig, other: RawConfig) {
    && cfg.longopts == other.longopts
    && forall elem, rest, next :: rest != "" ==> Decode(cfg, elem, rest, next) == Decode(other, elem, rest, next)
  }

  lemma StepAlike(cfg: RawConfig, other: RawConfig, s: Scan)
    requires DecodeAlike(cfg, other) && Ready(s)
    ensures Step(cfg, s) == Step(other, s)
  {
    if s.nextchar != "" {
      DecodeStepAlike(cfg, other, s);
    } else {
      var u := Settled(s);
      if u.optind < |u.argv| && !NonOption(u.argv[u.optind]) {
        DecodeStepAlike(cfg, other, u.(nextchar := Punctuated(cfg, u.argv[u.optind])));
      }
    }
  }

  lemma DecodeStepAlike(cfg: RawConfig, other: RawConfig, s: Scan)
    requires DecodeAlike(cfg, other) && Ready(s) && s.nextchar != ""
    ensures DecodeStep(cfg, s) == DecodeStep(other, s)
  {
  }

  lemma {:induction false} RunAlike(cfg: RawConfig, other: RawConfig, s: Scan)
    requires DecodeAlike(cfg, other) && Ready(s)
    ensures Run(cfg, s) == Run(other, s)
    decreases |s.argv| - s.optind, Unread(s)
  {
    var (t, e) := Step(cfg, s);
    StepAlike(cfg, other, s);
    StepKeepsArgc(cfg, s);
    if !IsMinusOne(e) {
      StepProgress(cfg, s);
      RunAlike(cfg, other, t);
    }
  }

  /** A harmless prefix makes no difference to any session, in any mode. */
  lemma HarmlessSession(cfg: RawConfig, posixlyCorrect: bool, argv: seq<string>)
    requires HasPrefix(cfg.optstring) && PrefixHarmless(cfg)
    ensures !PrefixMatters(cfg, posixlyCorrect, argv)
  {
    if |argv| >= 1 {
      var (t, e) := Step(Stripped(cfg), Start(cfg, posixlyCorrect, argv, 0));
      forall elem, rest, next | rest != "" ensures Decode(cfg, elem, rest, next) == Decode(Stripped(cfg), elem, rest, next) {
        HarmlessDecode(cfg, elem, rest, next);
      }
      RunAlike(cfg, Stripped(cfg), t);
    }
  }

  // ----- where it does make a difference -----

  /** A first call that reports a colon as an unknown option, and what it leaves of its element. */
  lemma AfterColon(cfg: RawConfig, posixlyCorrect: bool, tail: string, more: seq<string>)
    requires HasPrefix(cfg.optstring) && !cfg.longOnly
    ensures var argv := ["p", "-:" + tail] + more;
            var s := Start(cfg, posixlyCorrect, argv, 0);
            var (t, e) := Step(Stripped(cfg), s);
            t == s.(nextchar := tail, optind := if tail == "" then 2 else 1) && !IsMinusOne(e)
  {
    var elem := "-:" + tail;
    var argv := ["p", elem] + more;
    var s := Start(cfg, posixlyCorrect, argv, 0);
    assert argv[1] == elem && elem[0] == '-' && elem[1] == ':' && elem[1..] == ":" + tail;
    assert (":" + tail)[1..] == tail;
    assert Settled(s) == s;
  }

  /** Sessions differ if the two ways to read optstring differ at the second call. */
  lemma SecondCallTells(cfg: RawConfig, posixlyCorrect: bool, tail: string, more: seq<string>)
    requires HasPrefix(cfg.optstring) && !cfg.longOnly
    requires var argv := ["p", "-:" + tail] + more;
             var t := Start(cfg, posixlyCorrect, argv, 0).(nextchar := tail, optind := if tail == "" then 2 else 1);
             && Ready(t)
             && var (u, e) := Step(cfg, t); var (v, f) := Step(Stripped(cfg), t); e != f && !IsMinusOne(e) && !IsMinusOne(f)
    ensures PrefixMatters(cfg, posixlyCorrect, ["p", "-:" + tail] + more)
  {
    var argv := ["p", "-:" + tail] + more;
    var s := Start(cfg, posixlyCorrect, argv, 0);
    AfterColon(cfg, posixlyCorrect, tail, more);
    var t := Step(Stripped(cfg), s).0;
    RunUnfolds(Stripped(cfg), s);
    RunUnfolds(cfg, t);
    RunUnfolds(Stripped(cfg), t);
    assert Session(cfg, posixlyCorrect, argv).0[1] == Run(cfg, t).0[0];
    assert StrippedSession(cfg, posixlyCorrect, argv).0[1] == Run(Stripped(cfg), t).0[0];
  }

  lemma RunUnfolds(cfg: RawConfig, s: Scan)
    requires Ready(s) && !IsMinusOne(Step(cfg, s).1)
    ensures var (t, e) := Step(cfg, s); Run(cfg, s) == ([e] + Run(cfg, t).0, Run(cfg, t).1)
  {
  }

  lemma LetterTells(cfg: RawConfig, posixlyCorrect: bool, tail: string)
    requires HasPrefix(cfg.optstring) && !cfg.longOnly && tail != "" && !PrefixUnseen(cfg.optstring, tail, None)
    requires tail[0] == cfg.optstring[0] || (ShortKind(cfg.optstring[1..], tail[0]) == Some(RequiredArgument) && |tail| == 1)
    ensures PrefixMatters(cfg, posixlyCorrect, ["p", "-:" + tail])
  {
    var elem := "-:" + tail;
    assert ["p", elem] + [] == ["p", elem];
    PrefixSeenExactly(cfg.optstring, tail, None);
    OutcomesDiffer(cfg.optstring, cfg.optstring[1..], tail, None);
    DecodeShortByKind(cfg.optstring, tail, None);
    DecodeShortByKind(cfg.optstring[1..], tail, None);
    assert elem[1] == ':';
    SecondCallTells(cfg, posixlyCorrect, tail, []);
  }

  lemma NameTells(cfg: RawConfig, posixlyCorrect: bool, i: nat, k: nat)
    requires HasPrefix(cfg.optstring) && !cfg.longOnly && CharAt(cfg.optstring, 1) == ':'
    requires Reaches(cfg, i, k) && k > 0 && cfg.longopts.value[i].hasArg == 1
    ensures PrefixMatters(cfg, posixlyCorrect, ["p", "-:", "--" + cfg.longopts.value[i].name[..k]])
  {
    var o := cfg.longopts.value[i];
    var name := o.name[..k];
    var elem := "--" + name;
    assert elem[0] == '-' && elem[1] == '-' && elem[2..] == name;
    NameEndAt(name, "");
    assert "-:" + "" == "-:" && ["p", "-:"] + [elem] == ["p", "-:", elem];
    var t := Start(cfg, posixlyCorrect, ["p", "-:", elem], 0).(optind := 2);
    assert Settled(t) == t;
    assert Decode(cfg, elem, name, None) == MissingArgument(cfg.optstring, o.val);
    assert Decode(Stripped(cfg), elem, name, None) == MissingArgument(cfg.optstring[1..], o.val);
    SecondCallTells(cfg, posixlyCorrect, "", [elem]);
  }

  /** A harmful prefix shows in some session. */
  lemma HarmShows(cfg: RawConfig, posixlyCorrect: bool) returns (argv: seq<string>)
    requires HasPrefix(cfg.optstring) && !cfg.longOnly && !PrefixHarmless(cfg)
    ensures PrefixMatters(cfg, posixlyCorrect, argv)
  {
    var s, p := cfg.optstring, cfg.optstring[0];
    var k, l := ShortKind(s, p), ShortKind(s[1..], p);
    assert Find(s, p) == Some(0);
    if k != l {
      var tail := if KindsReadAlike(k, l, false) then [p, 'x'] else [p];
      argv := ["p", "-:" + tail];
      LetterTells(cfg, posixlyCorrect, tail);
    } else if c :| c in s[1..] && ShortKind(s[1..], c) == Some(RequiredArgument) {
      argv := ["p", "-:" + [c]];
      LetterTells(cfg, posixlyCorrect, [c]);
    } else {
      var i: nat, n: nat :| Reaches(Stripped(cfg), i, n) && n > 0 && cfg.longopts.value[i].hasArg == 1;
      argv := ["p", "-:", "--" + cfg.longopts.value[i].name[..n]];
      NameTells(cfg, posixlyCorrect, i, n);
    }
  }

  /** Later calls see the prefix, but no session is the worse for it if and only if it is
      harmless. */
  lemma PrefixMattersExactly(cfg: RawConfig, posixlyCorrect: bool)
    requires HasPrefix(cfg.optstring) && !cfg.longOnly
    ensures (forall argv: seq<string> :: !PrefixMatters(cfg, posixlyCorrect, argv)) <==> PrefixHarmless(cfg)
  {
    if PrefixHarmless(cfg) {
      forall argv: seq<string> ensures !PrefixMatters(cfg, posixlyCorrect, argv) {
        HarmlessSession(cfg, posixlyCorrect, argv);
      }
    } else {
      var argv := HarmShows(cfg, posixlyCorrect);
    }
  }

  const PlusConfig := RawConfig("+a", None, false)
  const PlusArgv := ["p", "-a", "-+"]

  function PlusScan(optind: nat): Scan {
    Scan(PlusArgv, optind, 1, 1, "", RequireOrder)
  }

  /** An element of one letter, read without reordering. */
  lemma StepOneLetter(cfg: RawConfig, s: Scan, c: char)
    requires Ready(s) && s.nextchar == "" && s.ordering == RequireOrder && s.last <= s.optind < |s.argv|
    requires s.argv[s.optind] == ['-', c] && c != '-' && cfg.longopts.None?
    requires DecodeShort(cfg.optstring, [c], ElementAt(s.argv, s.optind + 1)).advance == 1
    ensures Step(cfg, s)
            == (s.(optind := s.optind + 1), EventOf(DecodeShort(cfg.optstring, [c], ElementAt(s.argv, s.optind + 1))))
  {
    assert ['-', c][1..] == [c];
    assert Settled(s) == s;
  }

  lemma RunOneLetter(cfg: RawConfig, e: Event)
    requires Step(cfg, PlusScan(2)) == (PlusScan(3), e) && !IsMinusOne(e)
    ensures Run(cfg, PlusScan(2)) == ([e], PlusScan(3))
  {
    assert Settled(PlusScan(3)) == PlusScan(3);
    assert Run(cfg, PlusScan(3)) == ([], PlusScan(3));
    RunUnfolds(cfg, PlusScan(2));
    assert [e] + [] == [e];
  }

  /** A session in which the prefix passes for an option. */
  lemma PlusIsAnOptionLater()
    ensures var first := Returned('a' as int, None, None, None, None, false);
            && Session(PlusConfig, false, PlusArgv).0 == [first, Returned('+' as int, None, None, None, None, false)]
            && StrippedSession(PlusConfig, false, PlusArgv).0
               == [first, Returned('?' as int, None, Some('+' as int), None, None, false)]
  {
    var cfg := PlusConfig;
    var o, p := DecodeShort("+a", "+", None), DecodeShort("a", "+", None);
    assert "+a"[1..] == "a" && o.advance == p.advance == 1;
    assert DecodeShort("a", "a", Some("-+")) == Outcome('a' as int, None, None, None, None, false, 1, "");
    StepOneLetter(Stripped(cfg), PlusScan(1), 'a');
    StepOneLetter(cfg, PlusScan(2), '+');
    StepOneLetter(Stripped(cfg), PlusScan(2), '+');
    RunOneLetter(cfg, EventOf(o));
    RunOneLetter(Stripped(cfg), EventOf(p));
    assert Start(cfg, false, PlusArgv, 0) == PlusScan(1);
    RunUnfolds(Stripped(cfg), PlusScan(1));
  }
}
