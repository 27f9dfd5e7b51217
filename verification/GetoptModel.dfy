/** What one call of getopt does, as a function on values: the state it keeps between calls,
    the decoding of one option, and the step from call to call. */
module GetoptModel {
  import opened Wrappers
  import opened Rotation
  import opened Strings

  datatype Ordering = RequireOrder | Permute | ReturnInOrder

  /** `flag` is the address a long option writes to, or None for a null pointer. */
  datatype LongOption = LongOption(name: string, hasArg: int, flag: Option<nat>, val: int)

  datatype RawConfig = RawConfig(optstring: string, longopts: Option<seq<LongOption>>, longOnly: bool)

  /** The arguments of getopt that stay the same over a run. The `W;` extension is left out. */
  type Config = c: RawConfig | !HasLongW(c.optstring) witness RawConfig("", None, false)

  predicate HasLongW(optstring: string) {
    var at := Find(optstring, 'W');
    at.Some? && CharAt(optstring, at.value + 1) == ';'
  }

  /** The character a C string holds at `i`, its terminator included. A string here is the
      text before the terminator. */
  function CharAt(s: string, i: nat): char {
    if i < |s| then s[i] else '\0'
  }

  /** A character as the signed char it is returned as. */
  function CharValue(c: char): (v: int)
    ensures c as int < 0x100 ==> -0x80 <= v < 0x80 && (v == c as int || v + 0x100 == c as int)
  {
    if 0x80 <= c as int < 0x100 then c as int - 0x100 else c as int
  }

  // ----- long options -----

  datatype Resolution = NotFound | Ambiguous | Found(index: nat)

  predicate Agree(o: LongOption, p: LongOption) {
    o.hasArg == p.hasArg && o.flag == p.flag && o.val == p.val
  }

  /** The first option from `i` on whose name is `name`. */
  function FirstExact(opts: seq<LongOption>, name: string, i: nat): (r: Option<nat>)
    requires i <= |opts|
    ensures r.None? ==> forall j :: i <= j < |opts| ==> opts[j].name != name
    ensures r.Some? ==> i <= r.value < |opts| && opts[r.value].name == name
                        && forall j :: i <= j < r.value ==> opts[j].name != name
    decreases |opts| - i
  {
    if i == |opts| then None else if opts[i].name == name then Some(i) else FirstExact(opts, name, i + 1)
  }

  /** The first option from `i` on whose name starts with `name`. */
  function FirstPrefix(opts: seq<LongOption>, name: string, i: nat): (r: Option<nat>)
    requires i <= |opts|
    ensures r.None? ==> forall j :: i <= j < |opts| ==> !(name <= opts[j].name)
    ensures r.Some? ==> i <= r.value < |opts| && name <= opts[r.value].name
                        && forall j :: i <= j < r.value ==> !(name <= opts[j].name)
    decreases |opts| - i
  {
    if i == |opts| then None else if name <= opts[i].name then Some(i) else FirstPrefix(opts, name, i + 1)
  }

  /** A later abbreviated match that does not mean the same as option `i`; with
      `longOnly` every later match counts. */
  predicate Clashes(opts: seq<LongOption>, name: string, longOnly: bool, i: nat)
    requires i < |opts|
  {
    exists j :: i < j < |opts| && name <= opts[j].name && (longOnly || !Agree(opts[i], opts[j]))
  }

  /** Which option a given name stands for, wherever the entries sit in the table. */
  function Resolve(opts: seq<LongOption>, name: string, longOnly: bool): (r: Resolution)
    ensures r.Found? ==> r.index < |opts| && name <= opts[r.index].name
  {
    match FirstExact(opts, name, 0)
    case Some(i) => Found(i)
    case None =>
      match FirstPrefix(opts, name, 0)
      case None => NotFound
      case Some(i) => if Clashes(opts, name, longOnly, i) then Ambiguous else Found(i)
  }

  /** The first `k` characters of its name stand for entry `i`, on the command line. */
  predicate Reaches(cfg: RawConfig, i: nat, k: nat) {
    && cfg.longopts.Some? && i < |cfg.longopts.value| && k <= |cfg.longopts.value[i].name|
    && var name := cfg.longopts.value[i].name[..k];
       '=' !in name && Resolve(cfg.longopts.value, name, cfg.longOnly) == Found(i)
  }

  /** The length of the option name at the start of `s`: up to the first `=`. */
  function NameEnd(s: string): (n: nat)
    ensures n <= |s| && '=' !in s[..n] && (n == |s| || s[n] == '=')
  {
    match Find(s, '=')
    case None => |s|
    case Some(i) => i
  }

  lemma NameEndAt(name: string, arg: string)
    requires '=' !in name
    ensures NameEnd(name) == |name| && name[..|name|] == name
    ensures var text := name + "=" + arg;
            NameEnd(text) == |name| && text[..|name|] == name && text[|name| + 1..] == arg
  {
    FindInConcat(name, '=', arg);
  }

  // ----- one option -----

  /** What a call reports and how it moves: `advance` elements of argv are behind it, and
      `nextchar` is what it leaves of a cluster. `optopt`, `longind` and `write` are None where
      the code leaves the variable alone. `missing` tells a missing argument from the other
      causes of `?`. */
  datatype Outcome = Outcome(
    value: int, optarg: Option<string>, optopt: Option<int>, longind: Option<nat>,
    write: Option<(nat, int)>, missing: bool, advance: nat, nextchar: string)

  function Rejected(optopt: int, advance: nat, nextchar: string): Outcome {
    Outcome('?' as int, None, Some(optopt), None, None, false, advance, nextchar)
  }

  function MissingArgument(optstring: string, optopt: int): Outcome {
    var value := if CharAt(optstring, 0) == ':' then ':' else '?';
    Outcome(value as int, None, Some(optopt), None, None, true, 1, "")
  }

  predicate LooksLong(cfg: RawConfig, elem: string) {
    cfg.longopts.Some?
    && (CharAt(elem, 1) == '-'
        || (cfg.longOnly && (|elem| > 2 || CharAt(elem, 1) !in cfg.optstring)))
  }

  function FoundLong(o: LongOption, index: nat, optarg: Option<string>, advance: nat): Outcome {
    var write := if o.flag.Some? then Some((o.flag.value, o.val)) else None;
    Outcome(if o.flag.Some? then 0 else o.val, optarg, None, Some(index), write, false, advance, "")
  }

  /** What decoding keeps: it leaves the element exactly when it leaves nothing of it, it takes at
      most the element behind it, and only the end of argv makes an argument missing. */
  predicate Moves(o: Outcome, rest: string, next: Option<string>) {
    && (o.advance == 0 <==> o.nextchar != "")
    && |o.nextchar| < |rest|
    && o.advance <= (if next.Some? then 2 else 1)
    && (o.missing ==> next.None?)
  }

  function DecodeLong(cfg: RawConfig, o: LongOption, index: nat, rest: string, next: Option<string>): (r: Outcome)
    requires rest != ""
    ensures Moves(r, rest, next)
  {
    var end := NameEnd(rest);
    if end < |rest| then
      if o.hasArg != 0 then FoundLong(o, index, Some(rest[end + 1..]), 1) else Rejected(o.val, 1, "")
    else if o.hasArg == 1 then
      if next.Some? then FoundLong(o, index, next, 2) else MissingArgument(cfg.optstring, o.val)
    else
      FoundLong(o, index, None, 1)
  }

  datatype ArgKind = NoArgument | RequiredArgument | OptionalArgument

  /** What optstring says about a letter; None if it is no option. */
  function ShortKind(optstring: string, c: char): Option<ArgKind> {
    var at := Find(optstring, c);
    if at.None? || c == ':' then None
    else if CharAt(optstring, at.value + 1) != ':' then Some(NoArgument)
    else if CharAt(optstring, at.value + 2) != ':' then Some(RequiredArgument)
    else Some(OptionalArgument)
  }

  /** `rest` is the unread part of the element, its first character the option. */
  function DecodeShort(optstring: string, rest: string, next: Option<string>): (r: Outcome)
    requires rest != ""
    ensures Moves(r, rest, next)
  {
    var c, tail := rest[0], rest[1..];
    var moved := if tail == "" then 1 else 0;
    var at := Find(optstring, c);
    if at.None? || c == ':' then Rejected(CharValue(c), moved, tail)
    else if CharAt(optstring, at.value + 1) != ':' then
      Outcome(CharValue(c), None, None, None, None, false, moved, tail)
    else if tail != "" then
      Outcome(CharValue(c), Some(tail), None, None, None, false, 1, "")
    else if CharAt(optstring, at.value + 2) == ':' then
      Outcome(CharValue(c), None, None, None, None, false, 1, "")
    else if next.Some? then
      Outcome(CharValue(c), next, None, None, None, false, 2, "")
    else
      MissingArgument(optstring, CharValue(c))
  }

  /** Decodes the option at the start of `rest`, the unread part of the element `elem`, which
      `next` follows. */
  function Decode(cfg: RawConfig, elem: string, rest: string, next: Option<string>): (o: Outcome)
    requires rest != ""
    ensures Moves(o, rest, next)
  {
    if !LooksLong(cfg, elem) then DecodeShort(cfg.optstring, rest, next)
    else
      match Resolve(cfg.longopts.value, rest[..NameEnd(rest)], cfg.longOnly)
      case Ambiguous => Rejected(0, 1, "")
      case Found(i) => DecodeLong(cfg, cfg.longopts.value[i], i, rest, next)
      case NotFound =>
        if !cfg.longOnly || CharAt(elem, 1) == '-' || rest[0] !in cfg.optstring
        then Rejected(0, 1, "")
        else DecodeShort(cfg.optstring, rest, next)
  }

  // ----- one call -----

  /** `NONOPTION_P`: the element has no option syntax. */
  predicate NonOption(elem: string) {
    CharAt(elem, 0) != '-' || |elem| == 1
  }

  /** What stays behind when the introducing `-` or `--` of an element is skipped. */
  function Punctuated(cfg: RawConfig, elem: string): (rest: string)
    requires !NonOption(elem) && elem != "--"
    ensures rest != "" && |rest| < |elem|
  {
    if cfg.longopts.Some? && CharAt(elem, 1) == '-' then elem[2..] else elem[1..]
  }

  /** The state between calls: `argv` as it stands, and the statics of the scanner. */
  datatype Scan = Scan(argv: seq<string>, optind: nat, first: nat, last: nat, nextchar: string, ordering: Ordering)

  /** What a call asks of the state it finds. A caller may move `optind` back, also in front of
      the skipped block, and pass another argv then. */
  predicate Ready(s: Scan) {
    && s.first <= s.last && s.optind <= |s.argv|
    && (s.nextchar != "" ==> s.last <= s.optind < |s.argv|)
  }

  /** The order the code keeps between the calls of a run. */
  predicate Ordered(s: Scan) {
    Ready(s) && s.last <= s.optind
  }

  datatype Event = Done | Returned(
    value: int, optarg: Option<string>, optopt: Option<int>, longind: Option<nat>,
    write: Option<(nat, int)>, missing: bool)

  function EventOf(o: Outcome): Event {
    Returned(o.value, o.optarg, o.optopt, o.longind, o.write, o.missing)
  }

  function ElementAt(argv: seq<string>, i: nat): Option<string> {
    if i < |argv| then Some(argv[i]) else None
  }

  function SkipNonOptions(argv: seq<string>, i: nat): (j: nat)
    requires i <= |argv|
    ensures i <= j <= |argv|
    ensures forall k :: i <= k < j ==> NonOption(argv[k])
    ensures j < |argv| ==> !NonOption(argv[j])
    decreases |argv| - i
  {
    if i < |argv| && NonOption(argv[i]) then SkipNonOptions(argv, i + 1) else i
  }

  /** Indices the caller moved back are pulled along. */
  function Clamped(s: Scan): (r: Scan)
    requires Ready(s)
    ensures Ordered(r) && r == s.(first := r.first, last := r.last)
    ensures r.first <= s.first && r.last <= s.last && r.first in {s.first, s.optind} && r.last in {s.last, s.optind}
  {
    s.(last := if s.last > s.optind then s.optind else s.last,
       first := if s.first > s.optind then s.optind else s.first)
  }

  /** The options seen since the skipped block move in front of it. */
  function Exchanged(s: Scan): (r: Scan)
    requires Ordered(s) && s.nextchar == ""
    ensures Ordered(r)
  {
    s.(argv := Rotate(s.argv, s.first, s.last, s.optind), first := s.first + (s.optind - s.last), last := s.optind)
  }

  /** PERMUTE: settle the skipped block, then extend it over the next non-options. */
  function Gathered(s: Scan): (r: Scan)
    requires Ordered(s) && s.nextchar == ""
    ensures Ordered(r) && r.last == r.optind
  {
    var t := if s.first != s.last && s.last != s.optind then Exchanged(s)
             else if s.last != s.optind then s.(first := s.optind)
             else s;
    var i := SkipNonOptions(t.argv, t.optind);
    t.(optind := i, last := i)
  }

  /** `--` is passed like an option, and everything after it like a non-option. */
  function PastDashes(s: Scan): (r: Scan)
    requires Ordered(s) && s.nextchar == "" && s.optind < |s.argv|
    ensures Ready(r) && r.optind == r.last == |r.argv|
  {
    var t := s.(optind := s.optind + 1);
    var u := if t.first != t.last && t.last != t.optind then Exchanged(t)
             else if t.first == t.last then t.(first := t.optind, last := t.optind)
             else t;
    u.(last := |u.argv|, optind := |u.argv|)
  }

  function DecodeStep(cfg: RawConfig, s: Scan): (r: (Scan, Event))
    requires Ready(s) && s.nextchar != ""
    ensures Ordered(r.0) && r.1.Returned?
  {
    var o := Decode(cfg, s.argv[s.optind], s.nextchar, ElementAt(s.argv, s.optind + 1));
    (s.(optind := s.optind + o.advance, nextchar := o.nextchar), EventOf(o))
  }

  /** Argv and indices brought to the next element to look at. */
  function Settled(s: Scan): (r: Scan)
    requires Ready(s) && s.nextchar == ""
    ensures Ready(r) && r.nextchar == "" && r.last <= |r.argv| && (r.optind < |r.argv| ==> Ordered(r) && r.argv[r.optind] != "--")
  {
    var t := if s.ordering == Permute then Gathered(Clamped(s)) else Clamped(s);
    if t.optind < |t.argv| && t.argv[t.optind] == "--" then PastDashes(t) else t
  }

  /** What a call does at the element it has found. */
  function SettledStep(cfg: RawConfig, u: Scan): (r: (Scan, Event))
    requires Ready(u) && u.nextchar == "" && u.last <= |u.argv| && (u.optind < |u.argv| ==> Ordered(u) && u.argv[u.optind] != "--")
    ensures Ready(r.0) && (r.1.Returned? ==> Ordered(r.0))
  {
    if u.optind == |u.argv| then
      (u.(optind := if u.first != u.last then u.first else u.optind), Done)
    else if NonOption(u.argv[u.optind]) then
      if u.ordering == RequireOrder then (u, Done)
      else (u.(optind := u.optind + 1), Returned(1, Some(u.argv[u.optind]), None, None, None, false))
    else
      DecodeStep(cfg, u.(nextchar := Punctuated(cfg, u.argv[u.optind])))
  }

  /** One call of getopt after the first. */
  function Step(cfg: RawConfig, s: Scan): (r: (Scan, Event))
    requires Ready(s)
    ensures Ready(r.0) && (r.1.Returned? ==> Ordered(r.0))
  {
    if s.nextchar != "" then DecodeStep(cfg, s) else SettledStep(cfg, Settled(s))
  }

  // ----- the first call -----

  lemma StrippingAddsNoLongW(optstring: string)
    requires !HasLongW(optstring) && (CharAt(optstring, 0) == '-' || CharAt(optstring, 0) == '+')
    ensures !HasLongW(optstring[1..])
  {
    assert Find(optstring, 'W') == match Find(optstring[1..], 'W') case None => None case Some(i) => Some(i + 1);
  }

  /** How the first call reads the prefix of optstring and the environment. */
  function OrderingFor(optstring: string, posixlyCorrect: bool): Ordering {
    if CharAt(optstring, 0) == '-' then ReturnInOrder
    else if CharAt(optstring, 0) == '+' || posixlyCorrect then RequireOrder
    else Permute
  }

  /** The first call reads optstring without its prefix; later calls are given it whole. */
  function Stripped(cfg: RawConfig): RawConfig {
    if CharAt(cfg.optstring, 0) == '-' || CharAt(cfg.optstring, 0) == '+'
    then cfg.(optstring := cfg.optstring[1..]) else cfg
  }

  function Start(cfg: RawConfig, posixlyCorrect: bool, argv: seq<string>, optind: nat): Scan {
    var i := if optind == 0 then 1 else optind;
    Scan(argv, i, i, i, "", OrderingFor(cfg.optstring, posixlyCorrect))
  }
}
