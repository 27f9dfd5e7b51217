/** The getopt scanner as the C code has it: statics that survive from call to call, and an
    argv that is permuted in place. */
module Getopt {
  import opened Wrappers
  import opened Rotation
  import opened Strings
  import opened GetoptModel

  /** The matching loop over the table of long options. */
  method FindLong(opts: seq<LongOption>, name: string, longOnly: bool) returns (r: Resolution)
    ensures r == Resolve(opts, name, longOnly)
  {
    var pfound: Option<nat>, ambig := None, false;
    var i := 0;
    while i < |opts|
      invariant 0 <= i <= |opts|
      invariant forall j :: 0 <= j < i ==> opts[j].name != name
      invariant pfound.None? ==> forall j :: 0 <= j < i ==> !(name <= opts[j].name)
      invariant pfound.Some? ==> pfound.value < i && name <= opts[pfound.value].name
                                 && forall j :: 0 <= j < pfound.value ==> !(name <= opts[j].name)
      invariant ambig <==> pfound.Some?
                           && exists j :: pfound.value < j < i && name <= opts[j].name
                                          && (longOnly || !Agree(opts[pfound.value], opts[j]))
    {
      if name <= opts[i].name {
        if |name| == |opts[i].name| {
          return Found(i);
        } else if pfound.None? {
          pfound := Some(i);
        } else if longOnly || !Agree(opts[pfound.value], opts[i]) {
          ambig := true;
        }
      }
      i := i + 1;
    }
    if ambig {
      return Ambiguous;
    }
    r := if pfound.Some? then Found(pfound.value) else NotFound;
  }

  method FindNameEnd(s: string) returns (n: nat)
    ensures n == NameEnd(s)
  {
    n := 0;
    while n < |s| && s[n] != '='
      invariant n <= |s| && '=' !in s[..n]
    {
      n := n + 1;
    }
  }

  class Scanner {
    var optind: nat
    var first: nat
    var last: nat
    var nextchar: string
    var ordering: Ordering
    var initialized: bool
    var optarg: Option<string>
    var optopt: int

    /** `optind` starts at 1, `optopt` at '?', the rest zero. */
    constructor ()
      ensures optind == 1 && !initialized && optopt == '?' as int
    {
      optind, first, last, nextchar, ordering := 1, 0, 0, "", RequireOrder;
      initialized, optarg, optopt := false, None, '?' as int;
    }

    function State(argv: seq<string>): Scan
      reads this
    {
      Scan(argv, optind, first, last, nextchar, ordering)
    }

    method Exchange(argv: array<string>)
      requires first <= last <= optind <= argv.Length && nextchar == ""
      modifies argv, `first, `last
      ensures State(argv[..]) == Exchanged(old(State(argv[..])))
    {
      ghost var swaps := ExchangeBlocks(argv, first, last, optind);
      first := first + (optind - last);
      last := optind;
    }

    method Initialize(optstring: string, posixlyCorrect: bool) returns (os: string)
      modifies `first, `last, `nextchar, `ordering
      ensures first == last == optind && nextchar == "" && ordering == OrderingFor(optstring, posixlyCorrect)
      ensures os == if CharAt(optstring, 0) == '-' || CharAt(optstring, 0) == '+' then optstring[1..] else optstring
    {
      first, last := optind, optind;
      nextchar := "";
      os := optstring;
      if CharAt(optstring, 0) == '-' {
        ordering := ReturnInOrder;
        os := os[1..];
      } else if CharAt(optstring, 0) == '+' {
        ordering := RequireOrder;
        os := os[1..];
      } else if posixlyCorrect {
        ordering := RequireOrder;
      } else {
        ordering := Permute;
      }
    }

    method Gather(argv: array<string>)
      requires first <= last <= optind <= argv.Length && nextchar == ""
      modifies argv, `first, `last, `optind
      ensures State(argv[..]) == Gathered(old(State(argv[..])))
    {
      if first != last && last != optind {
        Exchange(argv);
      } else if last != optind {
        first := optind;
      }
      ghost var t := State(argv[..]);
      while optind < argv.Length && NonOption(argv[optind])
        invariant t.optind <= optind <= argv.Length && State(argv[..]) == t.(optind := optind)
        invariant SkipNonOptions(t.argv, t.optind) == SkipNonOptions(t.argv, optind)
      {
        optind := optind + 1;
      }
      last := optind;
    }

    method PassDashes(argv: array<string>)
      requires first <= last <= optind < argv.Length && nextchar == ""
      modifies argv, `first, `last, `optind
      ensures State(argv[..]) == PastDashes(old(State(argv[..])))
    {
      optind := optind + 1;
      if first != last && last != optind {
        Exchange(argv);
      } else if first == last {
        first := optind;
      }
      last := argv.Length;
      optind := argv.Length;
    }

    /** Brings argv and the indices to the next element to look at. */
    method Settle(argv: array<string>)
      requires Ready(State(argv[..])) && nextchar == ""
      modifies argv, `first, `last, `optind
      ensures State(argv[..]) == Settled(old(State(argv[..])))
    {
      if last > optind {
        last := optind;
      }
      if first > optind {
        first := optind;
      }
      if ordering == Permute {
        Gather(argv);
      }
      if optind != argv.Length && argv[optind] == "--" {
        PassDashes(argv);
      }
    }

    /** What a call reports, through its result, its out-parameters and the globals. */
    predicate Reports(e: Event, r: int, longind: Option<nat>, write: Option<(nat, int)>, optoptBefore: int)
      reads this
    {
      match e
      case Done => r == -1 && optarg == None && longind == None && write == None && optopt == optoptBefore
      case Returned(value, arg, opt, index, w, missing) =>
        && r == value && optarg == arg && longind == index && write == w
        && optopt == if opt.Some? then opt.value else optoptBefore
    }

    method DecodeFoundLong(argv: array<string>, optstring: string, o: LongOption, index: nat, nameend: nat)
      returns (r: int, longind: Option<nat>, write: Option<(nat, int)>)
      requires optind < argv.Length && nextchar != "" && nameend == NameEnd(nextchar) && optarg == None
      modifies `optind, `nextchar, `optarg, `optopt
      ensures forall cfg: RawConfig | cfg.optstring == optstring ::
                var d := DecodeLong(cfg, o, index, old(nextchar), ElementAt(argv[..], old(optind) + 1));
                && optind == old(optind) + d.advance && nextchar == d.nextchar
                && Reports(EventOf(d), r, longind, write, old(optopt))
    {
      longind, write := None, None;
      optind := optind + 1;
      if nameend < |nextchar| {
        if o.hasArg != 0 {
          optarg := Some(nextchar[nameend + 1..]);
        } else {
          nextchar := "";
          optopt := o.val;
          return '?' as int, None, None;
        }
      } else if o.hasArg == 1 {
        if optind < argv.Length {
          optarg := Some(argv[optind]);
          optind := optind + 1;
        } else {
          nextchar := "";
          optopt := o.val;
          return (if CharAt(optstring, 0) == ':' then ':' else '?') as int, None, None;
        }
      }
      nextchar := "";
      longind := Some(index);
      if o.flag.Some? {
        write := Some((o.flag.value, o.val));
        return 0, longind, write;
      }
      r := o.val;
    }

    method DecodeShortOption(argv: array<string>, optstring: string) returns (r: int)
      requires optind < argv.Length && nextchar != "" && optarg == None && !HasLongW(optstring)
      modifies `optind, `nextchar, `optarg, `optopt
      ensures var d := DecodeShort(optstring, old(nextchar), ElementAt(argv[..], old(optind) + 1));
              && optind == old(optind) + d.advance && nextchar == d.nextchar
              && Reports(EventOf(d), r, None, None, old(optopt))
    {
      var c := nextchar[0];
      nextchar := nextchar[1..];
      var temp := Find(optstring, c);
      if nextchar == "" {
        optind := optind + 1;
      }
      if temp.None? || c == ':' {
        optopt := CharValue(c);
        return '?' as int;
      }
      if CharAt(optstring, temp.value + 1) == ':' {
        if CharAt(optstring, temp.value + 2) == ':' {
          if nextchar != "" {
            optarg := Some(nextchar);
            optind := optind + 1;
          } else {
            optarg := None;
          }
          nextchar := "";
        } else {
          if nextchar != "" {
            optarg := Some(nextchar);
            optind := optind + 1;
          } else if optind == argv.Length {
            optopt := CharValue(c);
            c := if CharAt(optstring, 0) == ':' then ':' else '?';
          } else {
            optarg := Some(argv[optind]);
            optind := optind + 1;
          }
          nextchar := "";
        }
      }
      r := CharValue(c);
    }

    method DecodeOption(argv: array<string>, cfg: RawConfig) returns (r: int, longind: Option<nat>, write: Option<(nat, int)>)
      requires optind < argv.Length && nextchar != "" && optarg == None && !HasLongW(cfg.optstring)
      modifies `optind, `nextchar, `optarg, `optopt
      ensures var d := Decode(cfg, argv[old(optind)], old(nextchar), ElementAt(argv[..], old(optind) + 1));
              && optind == old(optind) + d.advance && nextchar == d.nextchar
              && Reports(EventOf(d), r, longind, write, old(optopt))
    {
      longind, write := None, None;
      var elem := argv[optind];
      if cfg.longopts.Some?
         && (CharAt(elem, 1) == '-' || (cfg.longOnly && (|elem| > 2 || Find(cfg.optstring, CharAt(elem, 1)).None?)))
      {
        var nameend := FindNameEnd(nextchar);
        var found := FindLong(cfg.longopts.value, nextchar[..nameend], cfg.longOnly);
        if found.Ambiguous? {
          nextchar := "";
          optind := optind + 1;
          optopt := 0;
          return '?' as int, None, None;
        }
        if found.Found? {
          r, longind, write := DecodeFoundLong(argv, cfg.optstring, cfg.longopts.value[found.index], found.index, nameend);
          return;
        }
        if !cfg.longOnly || CharAt(elem, 1) == '-' || Find(cfg.optstring, nextchar[0]).None? {
          nextchar := "";
          optind := optind + 1;
          optopt := 0;
          return '?' as int, None, None;
        }
      }
      r := DecodeShortOption(argv, cfg.optstring);
    }

    /** The element the scan has settled on. */
    method ScanSettled(argv: array<string>, cfg: RawConfig) returns (r: int, longind: Option<nat>, write: Option<(nat, int)>)
      requires Ready(State(argv[..])) && nextchar == "" && last <= argv.Length
      requires optind < argv.Length ==> Ordered(State(argv[..])) && argv[optind] != "--"
      requires optarg == None && !HasLongW(cfg.optstring)
      modifies `optind, `nextchar, `optarg, `optopt
      ensures var (t, e) := SettledStep(cfg, old(State(argv[..])));
              State(argv[..]) == t && Reports(e, r, longind, write, old(optopt))
    {
      if optind == argv.Length {
        if first != last {
          optind := first;
        }
        return -1, None, None;
      }
      if NonOption(argv[optind]) {
        if ordering == RequireOrder {
          return -1, None, None;
        }
        optarg := Some(argv[optind]);
        optind := optind + 1;
        return 1, None, None;
      }
      nextchar := if cfg.longopts.Some? && CharAt(argv[optind], 1) == '-' then argv[optind][2..] else argv[optind][1..];
      r, longind, write := DecodeOption(argv, cfg);
    }

    /** A call once the scanner is initialized. */
    method ScanElement(argv: array<string>, cfg: RawConfig) returns (r: int, longind: Option<nat>, write: Option<(nat, int)>)
      requires Ready(State(argv[..])) && optarg == None && !HasLongW(cfg.optstring)
      modifies argv, `first, `last, `optind, `nextchar, `optarg, `optopt
      ensures var (t, e) := Step(cfg, old(State(argv[..])));
              State(argv[..]) == t && Reports(e, r, longind, write, old(optopt))
    {
      if nextchar == "" {
        Settle(argv);
        r, longind, write := ScanSettled(argv, cfg);
      } else {
        r, longind, write := DecodeOption(argv, cfg);
      }
    }

    /** One call of getopt. */
    method GetoptInternal(argv: array<string>, cfg: Config, posixlyCorrect: bool)
      returns (r: int, longind: Option<nat>, write: Option<(nat, int)>)
      requires optind <= argv.Length
      requires initialized && optind != 0 ==> Ready(State(argv[..]))
      modifies this, argv
      ensures argv.Length < 1 ==> r == -1 && unchanged(this) && unchanged(argv)
      ensures argv.Length >= 1 ==>
                var begins := old(optind == 0 || !initialized);
                var s := if begins then Start(cfg, posixlyCorrect, old(argv[..]), old(optind)) else old(State(argv[..]));
                var (t, e) := Step(if begins then Stripped(cfg) else cfg, s);
                && initialized && State(argv[..]) == t
                && Reports(e, r, longind, write, old(optopt))
    {
      if argv.Length < 1 {
        return -1, None, None;
      }
      optarg := None;
      var c: RawConfig := cfg;
      if optind == 0 || !initialized {
        if optind == 0 {
          optind := 1;
        }
        var os := Initialize(cfg.optstring, posixlyCorrect);
        c := cfg.(optstring := os);
        initialized := true;
        if os != cfg.optstring {
          StrippingAddsNoLongW(cfg.optstring);
        }
      }
      r, longind, write := ScanElement(argv, c);
    }
  }
}
