/** RETURN_IN_ORDER: operands are reported too, where they stand. */
module GetoptInOrder {
  import opened Wrappers
  import opened GetoptModel
  import opened GetoptRuns

  datatype Item = Operand(text: string) | Option(event: Event)

  /** What the unread part of a command line reports, operands and options in the order of argv, and
      how many elements are behind the scan at the end. */
  function ReadInOrder(cfg: RawConfig, args: seq<string>, rest: string): (seq<Item>, nat)
    requires rest != "" ==> args != []
    decreases |args|, if rest != "" then |rest| else if args == [] then 0 else |args[0]| + 1
  {
    if rest != "" then
      var o := Decode(cfg, args[0], rest, ElementAt(args, 1));
      var (items, n) := ReadInOrder(cfg, args[o.advance..], o.nextchar);
      ([Option(EventOf(o))] + items, o.advance + n)
    else if args == [] then ([], 0)
    else if args[0] == "--" then ([], 1)
    else if NonOption(args[0]) then
      var (items, n) := ReadInOrder(cfg, args[1..], "");
      ([Operand(args[0])] + items, 1 + n)
    else ReadInOrder(cfg, args, Punctuated(cfg, args[0]))
  }

  function OptionsOf(items: seq<Item>): seq<Event> {
    if items == [] then [] else (if items[0].Option? then [items[0].event] else []) + OptionsOf(items[1..])
  }

  function OperandsOf(items: seq<Item>): seq<string> {
    if items == [] then [] else (if items[0].Operand? then [items[0].text] else []) + OperandsOf(items[1..])
  }

  lemma ItemsInFront(item: Item, items: seq<Item>)
    ensures OptionsOf([item] + items) == (if item.Option? then [item.event] else []) + OptionsOf(items)
    ensures OperandsOf([item] + items) == (if item.Operand? then [item.text] else []) + OperandsOf(items)
  {
    assert ([item] + items)[1..] == items;
  }

  lemma NothingInFront<T>(s: seq<T>)
    ensures [] + s == s
  {
  }

  /** The options among the items are what the other modes report, the operands what they pass
      over. */
  lemma {:induction false} ItemsAreTheReading(cfg: RawConfig, args: seq<string>, rest: string)
    requires rest != "" ==> args != []
    ensures var items, p := ReadInOrder(cfg, args, rest).0, Read(cfg, args, rest);
            OptionsOf(items) == p.events && OperandsOf(items) == p.skipped
    decreases |args|, if rest != "" then |rest| else if args == [] then 0 else |args[0]| + 1
  {
    if rest != "" {
      var o := Decode(cfg, args[0], rest, ElementAt(args, 1));
      var items := ReadInOrder(cfg, args[o.advance..], o.nextchar).0;
      ItemsAreTheReading(cfg, args[o.advance..], o.nextchar);
      ItemsInFront(Option(EventOf(o)), items);
      NothingInFront(OperandsOf(items));
    } else if args == [] || args[0] == "--" {
    } else if NonOption(args[0]) {
      var items := ReadInOrder(cfg, args[1..], "").0;
      ItemsAreTheReading(cfg, args[1..], "");
      ItemsInFront(Operand(args[0]), items);
      NothingInFront(OptionsOf(items));
    } else {
      ItemsAreTheReading(cfg, args, Punctuated(cfg, args[0]));
    }
  }

  /** What a call reports for an item: an operand is the argument of an option with the value 1. */
  function EventsFor(items: seq<Item>): (events: seq<Event>)
    ensures |events| == |items|
    ensures forall i :: 0 <= i < |items| ==>
              events[i] == match items[i]
                           case Operand(text) => Returned(1, Some(text), None, None, None, false)
                           case Option(event) => event
  {
    if items == [] then []
    else
      [match items[0]
       case Operand(text) => Returned(1, Some(text), None, None, None, false)
       case Option(event) => event] + EventsFor(items[1..])
  }

  ghost predicate GoesInOrder(r: (seq<Event>, Scan), s: Scan, expected: (seq<Item>, nat)) {
    r.0 == EventsFor(expected.0) && r.1.argv == s.argv && r.1.optind == s.optind + expected.1
  }

  lemma InOrderAfter(r: (seq<Event>, Scan), t: Scan, s: Scan, item: Item, e: Event, expected: (seq<Item>, nat))
    requires GoesInOrder(r, t, expected) && t.argv == s.argv && s.optind <= t.optind
    requires EventsFor([item]) == [e]
    ensures GoesInOrder(([e] + r.0, r.1), s, ([item] + expected.0, t.optind - s.optind + expected.1))
  {
    assert ([item] + expected.0)[1..] == expected.0;
    assert EventsFor([item])[0] == e;
  }

  /** A RETURN_IN_ORDER run to the end of the options moves nothing, and reports every operand and
      every option in the order of argv. */
  lemma {:induction false} InOrderRun(cfg: RawConfig, s: Scan)
    requires Ordered(s) && s.ordering == ReturnInOrder && s.first == s.last
    ensures GoesInOrder(FullRun(cfg, s), s, ReadInOrder(cfg, s.argv[s.optind..], s.nextchar))
    decreases |s.argv| - s.optind, Unread(s)
  {
    var (t, e) := Step(cfg, s);
    if s.nextchar != "" {
      StepProgress(cfg, s);
      InOrderRun(cfg, t);
      InOrderInElement(cfg, s);
    } else if e.Done? {
      InOrderEnds(cfg, s);
    } else if NonOption(s.argv[s.optind]) {
      StepProgress(cfg, s);
      InOrderRun(cfg, t);
      InOrderOperand(cfg, s);
    } else {
      var v := s.(nextchar := Punctuated(cfg, s.argv[s.optind]));
      assert Step(cfg, s) == Step(cfg, v);
      InOrderRun(cfg, v);
    }
  }

  lemma InOrderEnds(cfg: RawConfig, s: Scan)
    requires Ordered(s) && s.ordering == ReturnInOrder && s.first == s.last && s.nextchar == "" && Step(cfg, s).1.Done?
    ensures GoesInOrder(FullRun(cfg, s), s, ReadInOrder(cfg, s.argv[s.optind..], ""))
  {
    if s.optind < |s.argv| {
      assert s.argv[s.optind..][0] == "--";
    }
  }

  lemma InOrderOperand(cfg: RawConfig, s: Scan)
    requires Ordered(s) && s.ordering == ReturnInOrder && s.nextchar == "" && Step(cfg, s).1.Returned?
    requires s.optind < |s.argv| && NonOption(s.argv[s.optind])
    requires var t := Step(cfg, s).0; GoesInOrder(FullRun(cfg, t), t, ReadInOrder(cfg, t.argv[t.optind..], ""))
    ensures GoesInOrder(FullRun(cfg, s), s, ReadInOrder(cfg, s.argv[s.optind..], ""))
  {
    var (t, e) := Step(cfg, s);
    var args := s.argv[s.optind..];
    assert args[1..] == t.argv[t.optind..] && e == Returned(1, Some(args[0]), None, None, None, false);
    InOrderAfter(FullRun(cfg, t), t, s, Operand(args[0]), e, ReadInOrder(cfg, args[1..], ""));
  }

  lemma InOrderInElement(cfg: RawConfig, s: Scan)
    requires Ordered(s) && s.nextchar != ""
    requires var t := Step(cfg, s).0; GoesInOrder(FullRun(cfg, t), t, ReadInOrder(cfg, t.argv[t.optind..], t.nextchar))
    ensures GoesInOrder(FullRun(cfg, s), s, ReadInOrder(cfg, s.argv[s.optind..], s.nextchar))
  {
    var (t, e) := Step(cfg, s);
    var args, n := s.argv[s.optind..], t.optind - s.optind;
    var front, held, more := PiecesAfterDecoding(s, t);
    InOrderAfter(FullRun(cfg, t), t, s, Option(e), e, ReadInOrder(cfg, args[n..], t.nextchar));
  }

  /** The prefix of optstring, or the environment, chooses the mode: a hyphen this one. */
  lemma HyphenReturnsInOrder(cfg: RawConfig, posixlyCorrect: bool, argv: seq<string>)
    requires |argv| >= 1 && cfg.optstring != "" && cfg.optstring[0] == '-'
    ensures var r, line := FullRun(Stripped(cfg), Start(cfg, posixlyCorrect, argv, 0)), ReadInOrder(Stripped(cfg), argv[1..], "");
            && Stripped(cfg) == cfg.(optstring := cfg.optstring[1..])
            && r.0 == EventsFor(line.0) && r.1.argv == argv && r.1.optind == 1 + line.1
  {
    InOrderRun(Stripped(cfg), Start(cfg, posixlyCorrect, argv, 0));
  }

  /** A plus sign chooses REQUIRE_ORDER, as the environment variable does without a prefix. */
  lemma PlusRequiresOrder(cfg: RawConfig, posixlyCorrect: bool, argv: seq<string>)
    requires cfg.optstring != "" && cfg.optstring[0] == '+' && !(cfg.optstring[1..] != "" && cfg.optstring[1] in "+-")
    ensures Start(cfg, posixlyCorrect, argv, 0) == Start(cfg.(optstring := cfg.optstring[1..]), true, argv, 0)
  {
  }
}
