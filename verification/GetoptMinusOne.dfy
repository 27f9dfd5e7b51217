/** The value -1: it ends a run of getopt, but an option may have it too. */
module GetoptMinusOne {
  import opened Wrappers
  import opened GetoptModel
  import opened GetoptRuns
  import opened GetoptOrders

  // ----- which option tables can return it -----

  /** The entry has the value -1 and can be taken under so many characters of its name; none at
      all can only be written with an argument behind a `=`. */
  predicate ReturnsMinusOne(cfg: RawConfig, i: nat, k: nat) {
    Reaches(cfg, i, k)
    && var o := cfg.longopts.value[i]; o.flag.None? && o.val == -1 && (k > 0 || o.hasArg != 0)
  }

  /** As a signed char this letter is -1. */
  const HighLetter := 0xff as char

  predicate CanReturnMinusOne(cfg: RawConfig) {
    || ShortKind(cfg.optstring, HighLetter).Some?
    || (cfg.longopts.Some?
        && exists i: nat, k: nat :: i < |cfg.longopts.value| && k <= |cfg.longopts.value[i].name| && ReturnsMinusOne(cfg, i, k))
  }

  lemma ShortMinusOne(optstring: string, rest: string, next: Option<string>)
    requires rest != "" && DecodeShort(optstring, rest, next).value == -1
    ensures ShortKind(optstring, HighLetter).Some?
  {
    assert rest[0] == HighLetter;
  }

  lemma LongMinusOne(cfg: RawConfig, i: nat, rest: string, next: Option<string>)
    requires rest != "" && cfg.longopts.Some? && i < |cfg.longopts.value|
    requires Resolve(cfg.longopts.value, rest[..NameEnd(rest)], cfg.longOnly) == Found(i)
    requires DecodeLong(cfg, cfg.longopts.value[i], i, rest, next).value == -1
    ensures ReturnsMinusOne(cfg, i, NameEnd(rest))
  {
    assert rest[..NameEnd(rest)] == cfg.longopts.value[i].name[..NameEnd(rest)];
  }

  lemma DecodeNeverMinusOne(cfg: RawConfig, elem: string, rest: string, next: Option<string>)
    requires rest != "" && !CanReturnMinusOne(cfg)
    ensures Decode(cfg, elem, rest, next).value != -1
  {
    if Decode(cfg, elem, rest, next).value == -1 {
      if DecodeShort(cfg.optstring, rest, next).value == -1 {
        ShortMinusOne(cfg.optstring, rest, next);
      } else {
        LongMinusOne(cfg, Resolve(cfg.longopts.value, rest[..NameEnd(rest)], cfg.longOnly).index, rest, next);
      }
    }
  }

  /** The option stands alone in `elem`, perhaps with its argument behind it, and returns -1. */
  ghost predicate WritesMinusOne(cfg: RawConfig, elem: string, more: seq<string>) {
    && !NonOption(elem) && elem != "--"
    && var o := Decode(cfg, elem, Punctuated(cfg, elem), ElementAt([elem] + more, 1));
       o.value == -1 && o.nextchar == "" && o.advance == 1 + |more|
  }

  lemma WriteLongMinusOne(cfg: RawConfig, i: nat, k: nat) returns (elem: string)
    requires ReturnsMinusOne(cfg, i, k)
    ensures WritesMinusOne(cfg, elem, [])
  {
    var o := cfg.longopts.value[i];
    var name := o.name[..k];
    var text := if o.hasArg != 0 then name + "=" else name;
    elem := "--" + text;
    assert elem[0] == '-' && elem[1] == '-' && elem[2..] == text;
    NameEndAt(name, "");
    assert name + "=" + "" == name + "=";
  }

  lemma WriteShortMinusOne(cfg: RawConfig) returns (elem: string, more: seq<string>)
    requires ShortKind(cfg.optstring, HighLetter).Some?
    ensures WritesMinusOne(cfg, elem, more)
  {
    elem := ['-', HighLetter];
    more := if ShortKind(cfg.optstring, HighLetter) == Some(RequiredArgument) then ["x"] else [];
    assert elem[1..] == [HighLetter] && [HighLetter][1..] == "";
    assert ElementAt([elem] + more, 1) == if more == [] then None else Some("x");
  }

  lemma WriteMinusOne(cfg: RawConfig) returns (elem: string, more: seq<string>)
    requires CanReturnMinusOne(cfg)
    ensures WritesMinusOne(cfg, elem, more)
  {
    if ShortKind(cfg.optstring, HighLetter).Some? {
      elem, more := WriteShortMinusOne(cfg);
    } else {
      var i: nat, k: nat :| ReturnsMinusOne(cfg, i, k);
      elem := WriteLongMinusOne(cfg, i, k);
      more := [];
    }
  }

  // ----- one call -----

  /** Called in this state, getopt returns -1 at the end of the options only. */
  ghost predicate MinusOneMeansDone(cfg: RawConfig, s: Scan) {
    Ready(s) ==> (IsMinusOne(Step(cfg, s).1) <==> Step(cfg, s).1.Done?)
  }

  lemma StepNeverMinusOne(cfg: RawConfig, s: Scan)
    requires !CanReturnMinusOne(cfg)
    ensures MinusOneMeansDone(cfg, s)
  {
    if Ready(s) {
      forall t: Scan | Ready(t) && t.nextchar != "" ensures DecodeStep(cfg, t).1.value != -1 {
        DecodeNeverMinusOne(cfg, t.argv[t.optind], t.nextchar, ElementAt(t.argv, t.optind + 1));
      }
    }
  }

  /** In the middle of an element that returns -1. */
  lemma StepMinusOne(cfg: RawConfig, elem: string, more: seq<string>)
    requires WritesMinusOne(cfg, elem, more)
    ensures !MinusOneMeansDone(cfg, Scan([elem] + more, 0, 0, 0, Punctuated(cfg, elem), Permute))
  {
  }

  /** In every state -1 means the end of the options, if and only if no entry that a name can
      reach, and no letter, has that value. */
  lemma MinusOneEndsOnly(cfg: RawConfig)
    ensures (forall s: Scan :: MinusOneMeansDone(cfg, s)) <==> !CanReturnMinusOne(cfg)
  {
    if CanReturnMinusOne(cfg) {
      var elem, more := WriteMinusOne(cfg);
      StepMinusOne(cfg, elem, more);
    } else {
      forall s: Scan ensures MinusOneMeansDone(cfg, s) {
        StepNeverMinusOne(cfg, s);
      }
    }
  }

  // ----- whole sessions -----

  lemma {:induction false} ReadNeverMinusOne(cfg: RawConfig, args: seq<string>, rest: string)
    requires !CanReturnMinusOne(cfg) && (rest != "" ==> args != [])
    ensures NeverMinusOne(Read(cfg, args, rest).events)
    decreases |args|, if rest != "" then |rest| else if args == [] then 0 else |args[0]| + 1
  {
    if rest != "" {
      var o := Decode(cfg, args[0], rest, ElementAt(args, 1));
      DecodeNeverMinusOne(cfg, args[0], rest, ElementAt(args, 1));
      ReadNeverMinusOne(cfg, args[o.advance..], o.nextchar);
    } else if args == [] || args[0] == "--" {
    } else if NonOption(args[0]) {
      ReadNeverMinusOne(cfg, args[1..], "");
    } else {
      ReadNeverMinusOne(cfg, args, Punctuated(cfg, args[0]));
    }
  }

  /** A program, an operand, and an option that returns -1. */
  function EarlyArgv(elem: string, more: seq<string>): (argv: seq<string>)
    ensures |argv| == 3 + |more|
  {
    ["p", "a"] + ([elem] + more)
  }

  lemma EarlyPermuteSession(cfg: RawConfig, elem: string, more: seq<string>)
    requires NoPrefix(cfg) && WritesMinusOne(cfg, elem, more)
    ensures var argv := EarlyArgv(elem, more);
            Session(cfg, false, argv) == ([], Scan(argv, |argv|, 1, 2, "", Permute))
  {
    var argv := EarlyArgv(elem, more);
    var s := Start(cfg, false, argv, 0);
    assert argv[1] == "a" && argv[2] == elem && ElementAt(argv, 3) == ElementAt([elem] + more, 1);
    assert SkipNonOptions(argv, 2) == 2 && SkipNonOptions(argv, 1) == 2;
    assert Settled(s) == s.(optind := 2, last := 2);
  }

  lemma EarlyRequireOrderSession(cfg: RawConfig, elem: string, more: seq<string>)
    requires NoPrefix(cfg)
    ensures var argv := EarlyArgv(elem, more); Session(cfg, true, argv) == ([], Scan(argv, 1, 1, 1, "", RequireOrder))
  {
    assert EarlyArgv(elem, more)[1] == "a";
  }

  lemma EarlyRead(cfg: RawConfig, elem: string, more: seq<string>)
    requires WritesMinusOne(cfg, elem, more)
    ensures var p := Read(cfg, EarlyArgv(elem, more)[1..], ""); p.skipped != [] && !NeverMinusOne(p.events)
  {
    var args, line := [elem] + more, EarlyArgv(elem, more)[1..];
    assert line[0] == "a" && line[1..] == args;
    var o := Decode(cfg, elem, Punctuated(cfg, elem), ElementAt(args, 1));
    ReadAtOption(cfg, args);
    assert Read(cfg, args, Punctuated(cfg, elem)).events[0] == EventOf(o);
  }

  /** If an option can return -1, there is a session on which neither of the two holds: it leaves
      argv unpartitioned, and a REQUIRE_ORDER session goes otherwise, with nothing missing. */
  lemma EarlyEnd(cfg: RawConfig, elem: string, more: seq<string>)
    requires NoPrefix(cfg) && WritesMinusOne(cfg, elem, more)
    ensures var argv := EarlyArgv(elem, more); !EndsPartitioned(cfg, argv) && !AgreesUnlessMissing(cfg, argv)
  {
    var argv := EarlyArgv(elem, more);
    EarlyPermuteSession(cfg, elem, more);
    EarlyRequireOrderSession(cfg, elem, more);
    EarlyRead(cfg, elem, more);
    var p, f := Read(cfg, argv[1..], ""), Session(cfg, false, argv).1;
    assert f.argv[f.optind..] == [] && (p.skipped + p.after)[0] == p.skipped[0];
  }

  /** The session ends with argv partitioned stably. */
  ghost predicate EndsPartitioned(cfg: RawConfig, argv: seq<string>)
    requires |argv| >= 1
  {
    exists n: nat :: StablyPartitioned(argv, Session(cfg, false, argv).1, Read(cfg, argv[1..], ""), n)
  }

  /** For a given table of options, every PERMUTE session partitions argv stably if and only if no
      option can return -1. */
  lemma SessionsPartitionExactly(cfg: RawConfig)
    requires NoPrefix(cfg)
    ensures (forall argv: seq<string> :: |argv| >= 1 ==> EndsPartitioned(cfg, argv)) <==> !CanReturnMinusOne(cfg)
  {
    if CanReturnMinusOne(cfg) {
      var elem, more := WriteMinusOne(cfg);
      EarlyEnd(cfg, elem, more);
    } else {
      forall argv: seq<string> | |argv| >= 1 ensures EndsPartitioned(cfg, argv) {
        ReadNeverMinusOne(cfg, argv[1..], "");
        var n := PermuteSessionIsStablePartition(cfg, argv);
      }
    }
  }

  /** And the two orders agree on every session, unless an argument is missing, under just the same
      condition. */
  lemma OrdersAgreeExactly(cfg: RawConfig)
    requires NoPrefix(cfg)
    ensures (forall argv: seq<string> :: |argv| >= 1 ==> AgreesUnlessMissing(cfg, argv)) <==> !CanReturnMinusOne(cfg)
  {
    if CanReturnMinusOne(cfg) {
      var elem, more := WriteMinusOne(cfg);
      EarlyEnd(cfg, elem, more);
    } else {
      forall argv: seq<string> | |argv| >= 1 ensures AgreesUnlessMissing(cfg, argv) {
        ReadNeverMinusOne(cfg, argv[1..], "");
        OrdersAgree(cfg, argv);
      }
    }
  }

  /** Such a table and such a session: the -1 of `--x` is reported with the operand in front of it
      still in its place. */
  lemma MinusOneTooEarly()
    ensures var cfg := RawConfig("", Some([LongOption("x", 0, None, -1)]), false);
            var argv := ["p", "a", "--x", "b"];
            && CanReturnMinusOne(cfg)
            && Session(cfg, false, argv) == ([], Scan(argv, 3, 1, 2, "", Permute))
            && Session(cfg, true, argv) == ([], Scan(argv, 1, 1, 1, "", RequireOrder))
  {
    var opts := [LongOption("x", 0, None, -1)];
    var cfg := RawConfig("", Some(opts), false);
    var argv := ["p", "a", "--x", "b"];
    assert "x"[..1] == "x" && "--x"[2..] == "x";
    assert FirstExact(opts, "x", 0) == Some(0);
    assert ReturnsMinusOne(cfg, 0, 1);
    NameEndAt("x", "");
    assert DecodeLong(cfg, opts[0], 0, "x", Some("b")) == FoundLong(opts[0], 0, None, 1);
    assert Decode(cfg, "--x", "x", Some("b")) == FoundLong(opts[0], 0, None, 1);
    var s := Start(cfg, false, argv, 0);
    assert SkipNonOptions(argv, 2) == 2 && SkipNonOptions(argv, 1) == 2;
    assert Settled(s) == s.(optind := 2, last := 2);
  }
}
