/** What getopt promises its users: a command line written from a list of option uses is
    reported back as that list, wherever the operands stand. */
module GetoptCommands {
  import opened Wrappers
  import opened Strings
  import opened GetoptModel
  import opened GetoptRuns
  import opened GetoptOrders

  // ----- which option a long name means -----

  predicate Abbreviates(opts: seq<LongOption>, name: string, i: nat) {
    i < |opts| && name <= opts[i].name
  }

  predicate Exactly(opts: seq<LongOption>, name: string, i: nat) {
    i < |opts| && opts[i].name == name
  }

  /** A name is ambiguous exactly when no entry has it and two entries it abbreviates mean
      different things; it is unknown exactly when it abbreviates none. */
  lemma ResolutionFails(opts: seq<LongOption>, name: string)
    ensures Resolve(opts, name, false) == Ambiguous <==>
              (forall k: nat :: !Exactly(opts, name, k))
              && exists i: nat, j: nat :: Abbreviates(opts, name, i) && Abbreviates(opts, name, j) && !Agree(opts[i], opts[j])
    ensures Resolve(opts, name, false) == NotFound <==> forall i: nat :: !Abbreviates(opts, name, i)
  {
    var exact, first := FirstExact(opts, name, 0), FirstPrefix(opts, name, 0);
    if exact.Some? {
      assert Exactly(opts, name, exact.value) && Abbreviates(opts, name, exact.value);
    }
    if first.Some? {
      var i := first.value;
      assert Abbreviates(opts, name, i);
      if Clashes(opts, name, false, i) {
        var j :| i < j < |opts| && name <= opts[j].name && !Agree(opts[i], opts[j]);
        assert Abbreviates(opts, name, j);
      }
      forall a: nat, b: nat | Abbreviates(opts, name, a) && Abbreviates(opts, name, b) && !Agree(opts[a], opts[b])
        ensures Clashes(opts, name, false, i)
      {
        DisagreementClashes(opts, name, i, a, b);
      }
    }
  }

  lemma DisagreementClashes(opts: seq<LongOption>, name: string, i: nat, a: nat, b: nat)
    requires FirstPrefix(opts, name, 0) == Some(i)
    requires Abbreviates(opts, name, a) && Abbreviates(opts, name, b) && !Agree(opts[a], opts[b])
    ensures Clashes(opts, name, false, i)
  {
    var j := if Agree(opts[i], opts[a]) then b else a;
    assert i < j && !Agree(opts[i], opts[j]);
  }

  /** Otherwise it means the first entry that has it, or, if none has, the first entry it
      abbreviates, and then all entries it abbreviates mean the same. */
  lemma ResolutionFinds(opts: seq<LongOption>, name: string, i: nat)
    requires Resolve(opts, name, false) == Found(i)
    ensures if exists k: nat :: Exactly(opts, name, k)
            then Exactly(opts, name, i) && forall j: nat :: j < i ==> !Exactly(opts, name, j)
            else Abbreviates(opts, name, i) && (forall j: nat :: j < i ==> !Abbreviates(opts, name, j))
                 && forall j: nat :: Abbreviates(opts, name, j) ==> Agree(opts[i], opts[j])
  {
    var exact := FirstExact(opts, name, 0);
    if exact.Some? {
      assert Exactly(opts, name, exact.value);
    } else {
      assert FirstPrefix(opts, name, 0) == Some(i) && !Clashes(opts, name, false, i);
    }
  }

  // ----- what a letter of optstring says -----

  /** The first time a letter stands in optstring, no colon behind it means no argument, one colon
      a required and two an optional one. */
  lemma KindByColons(before: string, c: char, colons: string, after: string)
    requires c !in before && c != ':' && colons in {"", ":", "::"} && (colons == "::" || after == "" || after[0] != ':')
    ensures ShortKind(before + [c] + (colons + after), c)
            == Some(if colons == "" then NoArgument else if colons == ":" then RequiredArgument else OptionalArgument)
  {
    var s, n := before + [c] + (colons + after), |before|;
    FindInConcat(before, c, colons + after);
    assert CharAt(s, n + 1) == CharAt(colons + after, 0) && CharAt(s, n + 2) == CharAt(colons + after, 1);
  }

  // ----- uses of options -----

  /** One use of the command line: an operand, a cluster of letters of which the last may take
      an argument or leave it out, a long option under its name or an abbreviation, or a misuse: a
      name that stands for no entry or for several, with or without an argument, or an argument
      that an entry does not take. The letters of a cluster may be unknown. */
  datatype Use =
    | Operand(text: string)
    | Flags(flags: string)
    | Attached(flags: string, c: char, arg: string)
    | Separate(flags: string, c: char, arg: string)
    | Omitted(flags: string, c: char)
    | LongPlain(name: string)
    | LongEquals(name: string, arg: string)
    | LongSeparate(name: string, arg: string)
    | UnknownLong(name: string, maybe: Option<string>)
    | AmbiguousLong(name: string, maybe: Option<string>)
    | UnwantedArgument(name: string, arg: string)

  /** A letter that takes no argument, or none of the options. */
  predicate PlainLetter(cfg: RawConfig, c: char) {
    ShortKind(cfg.optstring, c) in {Some(NoArgument), None}
  }

  predicate PlainFlags(cfg: RawConfig, flags: string) {
    forall i :: 0 <= i < |flags| ==> PlainLetter(cfg, flags[i])
  }

  /** The name, in full or abbreviated, stands for an entry. */
  predicate Names(cfg: RawConfig, name: string) {
    cfg.longopts.Some? && '=' !in name && Resolve(cfg.longopts.value, name, cfg.longOnly).Found?
  }

  function Named(cfg: RawConfig, name: string): (i: nat)
    requires Names(cfg, name)
    ensures i < |cfg.longopts.value|
  {
    Resolve(cfg.longopts.value, name, cfg.longOnly).index
  }

  function EntryOf(cfg: RawConfig, name: string): LongOption
    requires Names(cfg, name)
  {
    cfg.longopts.value[Named(cfg, name)]
  }

  /** No entry starts with the name. */
  ghost predicate NamesNothing(cfg: RawConfig, name: string) {
    cfg.longopts.Some? && '=' !in name && forall k: nat :: !Abbreviates(cfg.longopts.value, name, k)
  }

  /** No entry has the name, and two that start with it mean different things. */
  ghost predicate NamesSeveral(cfg: RawConfig, name: string) {
    && cfg.longopts.Some? && '=' !in name
    && var opts := cfg.longopts.value;
       (forall k: nat :: !Exactly(opts, name, k))
       && exists i: nat, j: nat :: Abbreviates(opts, name, i) && Abbreviates(opts, name, j) && !Agree(opts[i], opts[j])
  }

  /** The use is what its constructor says by the option tables. A cluster does not start with a
      hyphen. */
  ghost predicate Provided(cfg: RawConfig, u: Use) {
    match u
    case Operand(text) => NonOption(text)
    case Flags(flags) => flags != "" && flags[0] != '-' && PlainFlags(cfg, flags)
    case Attached(flags, c, arg) =>
      && PlainFlags(cfg, flags) && (flags + [c])[0] != '-' && arg != ""
      && ShortKind(cfg.optstring, c) in {Some(RequiredArgument), Some(OptionalArgument)}
    case Separate(flags, c, arg) =>
      PlainFlags(cfg, flags) && (flags + [c])[0] != '-' && ShortKind(cfg.optstring, c) == Some(RequiredArgument)
    case Omitted(flags, c) =>
      PlainFlags(cfg, flags) && (flags + [c])[0] != '-' && ShortKind(cfg.optstring, c) == Some(OptionalArgument)
    case LongPlain(name) => name != "" && Names(cfg, name) && EntryOf(cfg, name).hasArg != 1
    case LongEquals(name, arg) => Names(cfg, name) && EntryOf(cfg, name).hasArg != 0
    case LongSeparate(name, arg) => name != "" && Names(cfg, name) && EntryOf(cfg, name).hasArg == 1
    case UnknownLong(name, maybe) => (name != "" || maybe.Some?) && NamesNothing(cfg, name)
    case AmbiguousLong(name, maybe) => (name != "" || maybe.Some?) && NamesSeveral(cfg, name)
    case UnwantedArgument(name, arg) => Names(cfg, name) && EntryOf(cfg, name).hasArg == 0
  }

  function NameText(name: string, maybe: Option<string>): string {
    match maybe
    case None => name
    case Some(arg) => name + "=" + arg
  }

  /** The elements of argv that write a use. */
  function Write(cfg: RawConfig, u: Use): seq<string>
    requires Provided(cfg, u)
  {
    match u
    case Operand(text) => [text]
    case Flags(flags) => ["-" + flags]
    case Attached(flags, c, arg) => ["-" + (flags + ([c] + arg))]
    case Separate(flags, c, arg) => ["-" + (flags + [c]), arg]
    case Omitted(flags, c) => ["-" + (flags + [c])]
    case LongPlain(name) => ["--" + name]
    case LongEquals(name, arg) => ["--" + (name + "=" + arg)]
    case LongSeparate(name, arg) => ["--" + name, arg]
    case UnknownLong(name, maybe) => ["--" + NameText(name, maybe)]
    case AmbiguousLong(name, maybe) => ["--" + NameText(name, maybe)]
    case UnwantedArgument(name, arg) => ["--" + (name + "=" + arg)]
  }

  function ShortEvent(c: char, arg: Option<string>): Event {
    Returned(CharValue(c), arg, None, None, None, false)
  }

  /** An unknown letter returns a question mark, with the letter in optopt. */
  function FlagEvent(cfg: RawConfig, c: char): Event {
    if ShortKind(cfg.optstring, c).Some? then ShortEvent(c, None)
    else Returned('?' as int, None, Some(CharValue(c)), None, None, false)
  }

  function FlagEvents(cfg: RawConfig, flags: string): seq<Event> {
    seq(|flags|, i requires 0 <= i < |flags| => FlagEvent(cfg, flags[i]))
  }

  /** A long option returns its value, or 0 if that goes to its flag. */
  function LongEvent(o: LongOption, index: nat, arg: Option<string>): Event {
    if o.flag.Some? then Returned(0, arg, None, Some(index), Some((o.flag.value, o.val)), false)
    else Returned(o.val, arg, None, Some(index), None, false)
  }

  /** What the calls are to report for a use. */
  function Expected(cfg: RawConfig, u: Use): seq<Event>
    requires Provided(cfg, u)
  {
    match u
    case Operand(_) => []
    case Flags(flags) => FlagEvents(cfg, flags)
    case Attached(flags, c, arg) => FlagEvents(cfg, flags) + [ShortEvent(c, Some(arg))]
    case Separate(flags, c, arg) => FlagEvents(cfg, flags) + [ShortEvent(c, Some(arg))]
    case Omitted(flags, c) => FlagEvents(cfg, flags) + [ShortEvent(c, None)]
    case LongPlain(name) => [LongEvent(EntryOf(cfg, name), Named(cfg, name), None)]
    case LongEquals(name, arg) => [LongEvent(EntryOf(cfg, name), Named(cfg, name), Some(arg))]
    case LongSeparate(name, arg) => [LongEvent(EntryOf(cfg, name), Named(cfg, name), Some(arg))]
    case UnknownLong(_, _) => [Returned('?' as int, None, Some(0), None, None, false)]
    case AmbiguousLong(_, _) => [Returned('?' as int, None, Some(0), None, None, false)]
    case UnwantedArgument(name, _) => [Returned('?' as int, None, Some(EntryOf(cfg, name).val), None, None, false)]
  }

  ghost predicate AllProvided(cfg: RawConfig, uses: seq<Use>) {
    forall i :: 0 <= i < |uses| ==> Provided(cfg, uses[i])
  }

  function WriteAll(cfg: RawConfig, uses: seq<Use>): seq<string>
    requires AllProvided(cfg, uses)
  {
    if uses == [] then [] else Write(cfg, uses[0]) + WriteAll(cfg, uses[1..])
  }

  function ExpectedAll(cfg: RawConfig, uses: seq<Use>): seq<Event>
    requires AllProvided(cfg, uses)
  {
    if uses == [] then [] else Expected(cfg, uses[0]) + ExpectedAll(cfg, uses[1..])
  }

  /** The elements of the uses that are options, and of those that are operands. */
  function Written(cfg: RawConfig, uses: seq<Use>, operands: bool): seq<string>
    requires AllProvided(cfg, uses)
  {
    if uses == [] then []
    else (if uses[0].Operand? == operands then Write(cfg, uses[0]) else []) + Written(cfg, uses[1..], operands)
  }

  // ----- reading a use -----

  /** A reading with something consumed and reported in front of it. */
  function After(events: seq<Event>, consumed: seq<string>, p: Parse): Parse {
    p.(events := events + p.events, consumed := consumed + p.consumed)
  }

  lemma AfterTwice(e: seq<Event>, c: seq<string>, f: seq<Event>, d: seq<string>, p: Parse)
    ensures After(e, c, After(f, d, p)) == After(e + f, c + d, p)
  {
    assert e + (f + p.events) == (e + f) + p.events;
    assert c + (d + p.consumed) == (c + d) + p.consumed;
  }

  /** One call inside an element. */
  lemma ReadInElement(cfg: RawConfig, elem: string, more: seq<string>, text: string, o: Outcome, consumed: seq<string>, rest: seq<string>)
    requires text != "" && o == Decode(cfg, elem, text, ElementAt([elem] + more, 1))
    requires [elem] + more == consumed + rest && |consumed| == o.advance
    ensures Read(cfg, [elem] + more, text) == After([EventOf(o)], consumed, Read(cfg, rest, o.nextchar))
  {
    var args := [elem] + more;
    assert args[..o.advance] == consumed && args[o.advance..] == rest;
  }

  /** A letter without an argument, with more of its cluster behind it. */
  lemma DecodeFlag(cfg: RawConfig, elem: string, c: char, rest: string, next: Option<string>)
    requires PlainLetter(cfg, c) && rest != "" && !LooksLong(cfg, elem)
    ensures var o := Decode(cfg, elem, [c] + rest, next);
            EventOf(o) == FlagEvent(cfg, c) && o.advance == 0 && o.nextchar == rest
  {
    assert ([c] + rest)[1..] == rest;
  }

  lemma ReadFlag(cfg: RawConfig, elem: string, more: seq<string>, c: char, rest: string)
    requires PlainLetter(cfg, c) && rest != "" && !LooksLong(cfg, elem)
    ensures Read(cfg, [elem] + more, [c] + rest) == After([FlagEvent(cfg, c)], [], Read(cfg, [elem] + more, rest))
  {
    var o := Decode(cfg, elem, [c] + rest, ElementAt([elem] + more, 1));
    DecodeFlag(cfg, elem, c, rest, ElementAt([elem] + more, 1));
    ReadInElement(cfg, elem, more, [c] + rest, o, [], [elem] + more);
  }

  lemma ReadOneMoreFlag(cfg: RawConfig, elem: string, more: seq<string>, c: char, rest: string, events: seq<Event>, p: Parse)
    requires PlainLetter(cfg, c) && rest != "" && !LooksLong(cfg, elem)
    requires Read(cfg, [elem] + more, rest) == After(events, [], p)
    ensures Read(cfg, [elem] + more, [c] + rest) == After([FlagEvent(cfg, c)] + events, [], p)
  {
    ReadFlag(cfg, elem, more, c, rest);
    AfterTwice([FlagEvent(cfg, c)], [], events, [], p);
  }

  lemma FlagsSplit(cfg: RawConfig, flags: string, tail: string)
    requires flags != "" && PlainFlags(cfg, flags)
    ensures PlainFlags(cfg, flags[1..]) && PlainLetter(cfg, flags[0])
    ensures flags + tail == [flags[0]] + (flags[1..] + tail)
    ensures FlagEvents(cfg, flags) == [FlagEvent(cfg, flags[0])] + FlagEvents(cfg, flags[1..])
  {
  }

  /** The letters of a cluster that are not its last, one call each. */
  lemma {:induction false} ReadFlags(cfg: RawConfig, elem: string, more: seq<string>, flags: string, tail: string)
    requires PlainFlags(cfg, flags) && tail != "" && !LooksLong(cfg, elem)
    ensures Read(cfg, [elem] + more, flags + tail) == After(FlagEvents(cfg, flags), [], Read(cfg, [elem] + more, tail))
    decreases |flags|
  {
    if flags == "" {
      assert flags + tail == tail;
    } else {
      FlagsSplit(cfg, flags, tail);
      ReadFlags(cfg, elem, more, flags[1..], tail);
      ReadOneMoreFlag(
        cfg, elem, more, flags[0], flags[1..] + tail, FlagEvents(cfg, flags[1..]), Read(cfg, [elem] + more, tail));
    }
  }

  lemma ShortIsNotLong(cfg: RawConfig, elem: string)
    requires !cfg.longOnly && |elem| >= 2 && elem[0] == '-' && elem[1] != '-'
    ensures !LooksLong(cfg, elem) && !NonOption(elem) && elem != "--" && Punctuated(cfg, elem) == elem[1..]
  {
  }

  /** The last letter of a cluster. */
  lemma ReadCluster(cfg: RawConfig, flags: string, tail: string, more: seq<string>, o: Outcome, consumed: seq<string>, rest: seq<string>)
    requires !cfg.longOnly && PlainFlags(cfg, flags) && tail != "" && (flags + tail)[0] != '-'
    requires o == DecodeShort(cfg.optstring, tail, ElementAt(["-" + (flags + tail)] + more, 1))
    requires o.nextchar == "" && ["-" + (flags + tail)] + more == consumed + rest && |consumed| == o.advance
    ensures Read(cfg, ["-" + (flags + tail)] + more, "") == After(FlagEvents(cfg, flags) + [EventOf(o)], consumed, Read(cfg, rest, ""))
  {
    var elem := "-" + (flags + tail);
    assert elem[1..] == flags + tail;
    ShortIsNotLong(cfg, elem);
    ReadFlags(cfg, elem, more, flags, tail);
    ReadInElement(cfg, elem, more, tail, o, consumed, rest);
    AfterTwice(FlagEvents(cfg, flags), [], [EventOf(o)], consumed, Read(cfg, rest, ""));
    assert [] + consumed == consumed;
  }

  /** A long option. */
  lemma ReadLong(cfg: RawConfig, text: string, more: seq<string>, name: string, o: Outcome, consumed: seq<string>, rest: seq<string>)
    requires Names(cfg, name) && text != "" && text[..NameEnd(text)] == name
    requires o == DecodeLong(cfg, EntryOf(cfg, name), Named(cfg, name), text, ElementAt(["--" + text] + more, 1))
    requires o.nextchar == "" && ["--" + text] + more == consumed + rest && |consumed| == o.advance
    ensures Read(cfg, ["--" + text] + more, "") == After([EventOf(o)], consumed, Read(cfg, rest, ""))
  {
    var elem := "--" + text;
    assert elem[0] == '-' && elem[1] == '-' && elem[2..] == text;
    ReadInElement(cfg, elem, more, text, o, consumed, rest);
  }

  lemma ReadLongPlain(cfg: RawConfig, name: string, more: seq<string>)
    requires Provided(cfg, LongPlain(name))
    ensures Read(cfg, ["--" + name] + more, "")
            == After([LongEvent(EntryOf(cfg, name), Named(cfg, name), None)], ["--" + name], Read(cfg, more, ""))
  {
    NameEndAt(name, "");
    ReadLong(cfg, name, more, name, FoundLong(EntryOf(cfg, name), Named(cfg, name), None, 1), ["--" + name], more);
  }

  lemma ReadLongEquals(cfg: RawConfig, name: string, arg: string, more: seq<string>)
    requires Provided(cfg, LongEquals(name, arg))
    ensures var elem := "--" + (name + "=" + arg);
            Read(cfg, [elem] + more, "")
            == After([LongEvent(EntryOf(cfg, name), Named(cfg, name), Some(arg))], [elem], Read(cfg, more, ""))
  {
    var text := name + "=" + arg;
    NameEndAt(name, arg);
    ReadLong(cfg, text, more, name, FoundLong(EntryOf(cfg, name), Named(cfg, name), Some(arg), 1), ["--" + text], more);
  }

  lemma ReadLongSeparate(cfg: RawConfig, name: string, arg: string, more: seq<string>)
    requires Provided(cfg, LongSeparate(name, arg))
    ensures Read(cfg, ["--" + name, arg] + more, "")
            == After([LongEvent(EntryOf(cfg, name), Named(cfg, name), Some(arg))], ["--" + name, arg], Read(cfg, more, ""))
  {
    NameEndAt(name, "");
    assert ["--" + name, arg] + more == ["--" + name] + ([arg] + more);
    ReadLong(
      cfg, name, [arg] + more, name, FoundLong(EntryOf(cfg, name), Named(cfg, name), Some(arg), 2), ["--" + name, arg], more);
  }

  lemma NameTextEnds(name: string, maybe: Option<string>)
    requires '=' !in name
    ensures var text := NameText(name, maybe); NameEnd(text) == |name| && text[..|name|] == name
  {
    NameEndAt(name, if maybe.Some? then maybe.value else "");
  }

  /** A name that cannot be resolved. */
  lemma ReadUnresolved(cfg: RawConfig, name: string, maybe: Option<string>, more: seq<string>)
    requires !cfg.longOnly && (name != "" || maybe.Some?) && (NamesNothing(cfg, name) || NamesSeveral(cfg, name))
    ensures var elem := "--" + NameText(name, maybe);
            Read(cfg, [elem] + more, "")
            == After([Returned('?' as int, None, Some(0), None, None, false)], [elem], Read(cfg, more, ""))
  {
    var text := NameText(name, maybe);
    var elem := "--" + text;
    assert elem[0] == '-' && elem[1] == '-' && elem[2..] == text;
    NameTextEnds(name, maybe);
    ResolutionFails(cfg.longopts.value, name);
    ReadInElement(cfg, elem, more, text, Outcome('?' as int, None, Some(0), None, None, false, 1, ""), [elem], more);
  }

  lemma ReadUnwanted(cfg: RawConfig, name: string, arg: string, more: seq<string>)
    requires Provided(cfg, UnwantedArgument(name, arg))
    ensures var elem := "--" + (name + "=" + arg);
            Read(cfg, [elem] + more, "")
            == After([Returned('?' as int, None, Some(EntryOf(cfg, name).val), None, None, false)], [elem], Read(cfg, more, ""))
  {
    var text := name + "=" + arg;
    NameEndAt(name, arg);
    ReadLong(
      cfg, text, more, name, Outcome('?' as int, None, Some(EntryOf(cfg, name).val), None, None, false, 1, ""), ["--" + text], more);
  }

  /** A use is read as it is meant, whatever follows. */
  lemma ReadUse(cfg: RawConfig, u: Use, more: seq<string>)
    requires !cfg.longOnly && Provided(cfg, u)
    ensures var p := Read(cfg, more, "");
            Read(cfg, Write(cfg, u) + more, "") ==
              if u.Operand? then p.(skipped := Write(cfg, u) + p.skipped) else After(Expected(cfg, u), Write(cfg, u), p)
  {
    match u {
      case Operand(text) =>
        assert ([text] + more)[1..] == more;
      case Flags(flags) => ReadUseFlags(cfg, flags, more);
      case Attached(flags, c, arg) => ReadAttached(cfg, flags, c, arg, more);
      case Separate(flags, c, arg) => ReadSeparate(cfg, flags, c, arg, more);
      case Omitted(flags, c) => ReadOmitted(cfg, flags, c, more);
      case LongPlain(name) => ReadLongPlain(cfg, name, more);
      case LongEquals(name, arg) => ReadLongEquals(cfg, name, arg, more);
      case LongSeparate(name, arg) => ReadLongSeparate(cfg, name, arg, more);
      case UnknownLong(name, maybe) => ReadUnresolved(cfg, name, maybe, more);
      case AmbiguousLong(name, maybe) => ReadUnresolved(cfg, name, maybe, more);
      case UnwantedArgument(name, arg) => ReadUnwanted(cfg, name, arg, more);
    }
  }

  lemma ReadAttached(cfg: RawConfig, flags: string, c: char, arg: string, more: seq<string>)
    requires !cfg.longOnly && Provided(cfg, Attached(flags, c, arg))
    ensures var elem := "-" + (flags + ([c] + arg));
            Read(cfg, [elem] + more, "") == After(FlagEvents(cfg, flags) + [ShortEvent(c, Some(arg))], [elem], Read(cfg, more, ""))
  {
    var tail := [c] + arg;
    assert tail[1..] == arg;
    var o := Outcome(CharValue(c), Some(arg), None, None, None, false, 1, "");
    ReadCluster(cfg, flags, tail, more, o, ["-" + (flags + tail)], more);
  }

  lemma ReadSeparate(cfg: RawConfig, flags: string, c: char, arg: string, more: seq<string>)
    requires !cfg.longOnly && Provided(cfg, Separate(flags, c, arg))
    ensures var elem := "-" + (flags + [c]);
            Read(cfg, [elem, arg] + more, "")
            == After(FlagEvents(cfg, flags) + [ShortEvent(c, Some(arg))], [elem, arg], Read(cfg, more, ""))
  {
    var tail := [c];
    var elem := "-" + (flags + tail);
    assert tail[1..] == "";
    var o := Outcome(CharValue(c), Some(arg), None, None, None, false, 2, "");
    assert [elem, arg] + more == [elem] + ([arg] + more);
    ReadCluster(cfg, flags, tail, [arg] + more, o, [elem, arg], more);
  }

  lemma ReadOmitted(cfg: RawConfig, flags: string, c: char, more: seq<string>)
    requires !cfg.longOnly && Provided(cfg, Omitted(flags, c))
    ensures var elem := "-" + (flags + [c]);
            Read(cfg, [elem] + more, "") == After(FlagEvents(cfg, flags) + [ShortEvent(c, None)], [elem], Read(cfg, more, ""))
  {
    var tail := [c];
    assert tail[1..] == "";
    var o := Outcome(CharValue(c), None, None, None, None, false, 1, "");
    ReadCluster(cfg, flags, tail, more, o, ["-" + (flags + tail)], more);
  }

  lemma ReadUseFlags(cfg: RawConfig, flags: string, more: seq<string>)
    requires !cfg.longOnly && Provided(cfg, Flags(flags))
    ensures Read(cfg, ["-" + flags] + more, "") == After(FlagEvents(cfg, flags), ["-" + flags], Read(cfg, more, ""))
  {
    var n := |flags| - 1;
    var front, tail := flags[..n], flags[n..];
    assert flags == front + tail && tail == [flags[n]] && tail[1..] == "";
    var o := DecodeShort(cfg.optstring, tail, ElementAt(["-" + flags] + more, 1));
    assert PlainLetter(cfg, flags[n]);
    assert EventOf(o) == FlagEvent(cfg, flags[n]) && o.advance == 1 && o.nextchar == "";
    ReadCluster(cfg, front, tail, more, o, ["-" + flags], more);
    assert FlagEvents(cfg, flags) == FlagEvents(cfg, front) + [EventOf(o)];
  }

  // ----- long-only mode -----

  /** With one hyphen, `-text` is read as `--text` would be, unless it is a single letter of
      optstring, or starts with one and no entry starts with the name: then as a cluster. */
  lemma OneHyphenInLongOnly(cfg: RawConfig, text: string, next: Option<string>)
    requires cfg.longOnly && cfg.longopts.Some? && text != "" && text[0] != '-'
    ensures var name := text[..NameEnd(text)];
            Decode(cfg, "-" + text, text, next) ==
              if text[0] in cfg.optstring
                 && (|text| == 1 || forall k: nat :: !Abbreviates(cfg.longopts.value, name, k))
              then DecodeShort(cfg.optstring, text, next)
              else Decode(cfg, "--" + text, text, next)
  {
    var name, opts := text[..NameEnd(text)], cfg.longopts.value;
    assert ("-" + text)[1] == text[0] && ("--" + text)[1] == '-';
    assert Resolve(opts, name, true) == NotFound <==> forall k: nat :: !Abbreviates(opts, name, k) by {
      if FirstExact(opts, name, 0).Some? {
        assert Abbreviates(opts, name, FirstExact(opts, name, 0).value);
      } else if FirstPrefix(opts, name, 0).Some? {
        assert Abbreviates(opts, name, FirstPrefix(opts, name, 0).value);
      }
    }
  }

  // ----- whole command lines -----

  /** What may stand behind the uses: nothing, `--` and elements that are no options any more, or a
      letter or a name that misses its argument. */
  datatype Ending =
    | Nothing
    | Dashes(elements: seq<string>)
    | LetterMisses(flags: string, c: char)
    | NameMisses(name: string)

  ghost predicate Ends(cfg: RawConfig, e: Ending) {
    match e
    case LetterMisses(flags, c) =>
      PlainFlags(cfg, flags) && (flags + [c])[0] != '-' && ShortKind(cfg.optstring, c) == Some(RequiredArgument)
    case NameMisses(name) => name != "" && Names(cfg, name) && EntryOf(cfg, name).hasArg == 1
    case _ => true
  }

  function Tail(e: Ending): seq<string> {
    match e
    case Nothing => []
    case Dashes(elements) => ["--"] + elements
    case LetterMisses(flags, c) => ["-" + (flags + [c])]
    case NameMisses(name) => ["--" + name]
  }

  /** A missing argument returns a question mark, or a colon if optstring starts with one; the letter
      or the value of the entry is in optopt. */
  function EndEvents(cfg: RawConfig, e: Ending): seq<Event>
    requires Ends(cfg, e)
  {
    var mark := if CharAt(cfg.optstring, 0) == ':' then ':' else '?';
    match e
    case LetterMisses(flags, c) => FlagEvents(cfg, flags) + [Returned(mark as int, None, Some(CharValue(c)), None, None, true)]
    case NameMisses(name) => [Returned(mark as int, None, Some(EntryOf(cfg, name).val), None, None, true)]
    case _ => []
  }

  function Elements(e: Ending): seq<string> {
    if e.Dashes? then e.elements else []
  }

  function ParseOfEnd(cfg: RawConfig, e: Ending): Parse
    requires Ends(cfg, e)
  {
    Parse(EndEvents(cfg, e), if e.Dashes? then [] else Tail(e), e.Dashes?, [], Elements(e))
  }

  lemma ReadEnd(cfg: RawConfig, e: Ending)
    requires !cfg.longOnly && Ends(cfg, e)
    ensures Read(cfg, Tail(e), "") == ParseOfEnd(cfg, e)
  {
    match e {
      case Nothing =>
      case Dashes(elements) => assert Tail(e)[1..] == elements;
      case LetterMisses(flags, c) => ReadLetterMisses(cfg, flags, c);
      case NameMisses(name) => ReadNameMisses(cfg, name);
    }
  }

  lemma AfterNothing(events: seq<Event>, consumed: seq<string>)
    ensures After(events, consumed, Parse([], [], false, [], [])) == Parse(events, consumed, false, [], [])
  {
    assert events + [] == events && consumed + [] == consumed;
  }

  lemma ReadLetterMisses(cfg: RawConfig, flags: string, c: char)
    requires !cfg.longOnly && Ends(cfg, LetterMisses(flags, c))
    ensures Read(cfg, Tail(LetterMisses(flags, c)), "") == ParseOfEnd(cfg, LetterMisses(flags, c))
  {
    var mark := if CharAt(cfg.optstring, 0) == ':' then ':' else '?';
    var tail, elem := [c], "-" + (flags + [c]);
    var o := Outcome(mark as int, None, Some(CharValue(c)), None, None, true, 1, "");
    assert tail[1..] == "" && [elem] + [] == [elem];
    ReadCluster(cfg, flags, tail, [], o, [elem], []);
    AfterNothing(FlagEvents(cfg, flags) + [EventOf(o)], [elem]);
  }

  lemma ReadNameMisses(cfg: RawConfig, name: string)
    requires !cfg.longOnly && Ends(cfg, NameMisses(name))
    ensures Read(cfg, Tail(NameMisses(name)), "") == ParseOfEnd(cfg, NameMisses(name))
  {
    var mark := if CharAt(cfg.optstring, 0) == ':' then ':' else '?';
    var elem := "--" + name;
    var o := Outcome(mark as int, None, Some(EntryOf(cfg, name).val), None, None, true, 1, "");
    NameEndAt(name, "");
    assert [elem] + [] == [elem];
    ReadLong(cfg, name, [], name, o, [elem], []);
    AfterNothing([EventOf(o)], [elem]);
  }

  /** The events of a whole command line. */
  function Reports(cfg: RawConfig, uses: seq<Use>, e: Ending): seq<Event>
    requires AllProvided(cfg, uses) && Ends(cfg, e)
  {
    ExpectedAll(cfg, uses) + EndEvents(cfg, e)
  }

  function ParseOf(cfg: RawConfig, uses: seq<Use>, e: Ending): Parse
    requires AllProvided(cfg, uses) && Ends(cfg, e)
  {
    var p := ParseOfEnd(cfg, e);
    Parse(Reports(cfg, uses, e), Written(cfg, uses, false) + p.consumed, p.dashes, Written(cfg, uses, true), p.after)
  }

  lemma NothingInFront<T>(s: seq<T>)
    ensures [] + s == s
  {
  }

  lemma Regrouped<T>(a: seq<T>, b: seq<T>, c: seq<T>)
    ensures (a + b) + c == a + (b + c)
  {
  }

  lemma ParseOneMore(cfg: RawConfig, uses: seq<Use>, e: Ending)
    requires uses != [] && AllProvided(cfg, uses) && Ends(cfg, e)
    ensures var u, p := uses[0], ParseOf(cfg, uses[1..], e);
            ParseOf(cfg, uses, e)
            == if u.Operand? then p.(skipped := Write(cfg, u) + p.skipped) else After(Expected(cfg, u), Write(cfg, u), p)
  {
    var u, rest := uses[0], uses[1..];
    NothingInFront(ExpectedAll(cfg, rest));
    NothingInFront(Written(cfg, rest, false));
    NothingInFront(Written(cfg, rest, true));
    Regrouped(Expected(cfg, u), ExpectedAll(cfg, rest), EndEvents(cfg, e));
    Regrouped(Write(cfg, u), Written(cfg, rest, false), ParseOfEnd(cfg, e).consumed);
  }

  lemma ReadNoUses(cfg: RawConfig, e: Ending)
    requires !cfg.longOnly && Ends(cfg, e)
    ensures Read(cfg, WriteAll(cfg, []) + Tail(e), "") == ParseOf(cfg, [], e)
  {
    ReadEnd(cfg, e);
    NothingInFront(Tail(e));
    NothingInFront(EndEvents(cfg, e));
    NothingInFront(ParseOfEnd(cfg, e).consumed);
  }

  lemma WriteOneMore(cfg: RawConfig, uses: seq<Use>, more: seq<string>)
    requires uses != [] && AllProvided(cfg, uses)
    ensures WriteAll(cfg, uses) + more == Write(cfg, uses[0]) + (WriteAll(cfg, uses[1..]) + more)
  {
  }

  /** Reading what was written gives the uses back: the options in order, the operands apart. */
  lemma {:induction false} ReadAll(cfg: RawConfig, uses: seq<Use>, e: Ending)
    requires !cfg.longOnly && AllProvided(cfg, uses) && Ends(cfg, e)
    ensures Read(cfg, WriteAll(cfg, uses) + Tail(e), "") == ParseOf(cfg, uses, e)
  {
    if uses == [] {
      ReadNoUses(cfg, e);
    } else {
      WriteOneMore(cfg, uses, Tail(e));
      ReadUse(cfg, uses[0], WriteAll(cfg, uses[1..]) + Tail(e));
      ReadAll(cfg, uses[1..], e);
      ParseOneMore(cfg, uses, e);
    }
  }

  /** A session on a written command line reports the uses and misuses in order, and a missing
      argument at the end; it leaves the operands, in order and then what followed the `--`, from
      `optind` on, so long as none of the options used has the value -1. */
  lemma SessionReportsUses(cfg: RawConfig, program: string, uses: seq<Use>, e: Ending)
    requires !cfg.longOnly && NoPrefix(cfg) && AllProvided(cfg, uses) && Ends(cfg, e)
    ensures var (events, f) := Session(cfg, false, [program] + (WriteAll(cfg, uses) + Tail(e)));
            && (events == Reports(cfg, uses, e) <==> NeverMinusOne(Reports(cfg, uses, e)))
            && (NeverMinusOne(Reports(cfg, uses, e)) ==>
                  f.optind <= |f.argv| && f.argv[f.optind..] == Written(cfg, uses, true) + Elements(e))
  {
    var argv := [program] + (WriteAll(cfg, uses) + Tail(e));
    assert argv[1..] == WriteAll(cfg, uses) + Tail(e);
    ReadAll(cfg, uses, e);
    PermuteSession(cfg, argv);
    var p, r := Read(cfg, argv[1..], ""), Session(cfg, false, argv);
    if NeverMinusOne(p.events) {
      SortedEndsWithRest(program, r, p);
    }
  }

  lemma SortedEndsWithRest(program: string, r: (seq<Event>, Scan), p: Parse)
    requires SortsAs(r, program, p)
    ensures r.1.optind <= |r.1.argv| && r.1.argv[r.1.optind..] == p.Rest()
  {
    assert r.1.argv == ([program] + p.Options()) + p.Rest();
  }

  lemma OneUse(cfg: RawConfig, u: Use)
    requires Provided(cfg, u)
    ensures WriteAll(cfg, [u]) == Write(cfg, u) && ExpectedAll(cfg, [u]) == Expected(cfg, u)
  {
    assert [u][1..] == [] && Write(cfg, u) + [] == Write(cfg, u) && Expected(cfg, u) + [] == Expected(cfg, u);
  }

  /** An option no table knows is reported as a question mark, whatever the table. */
  lemma UnknownNameIsReported(cfg: RawConfig, program: string, name: string)
    requires !cfg.longOnly && NoPrefix(cfg) && name != "" && NamesNothing(cfg, name)
    ensures Session(cfg, false, [program, "--" + name]).0 == [Returned('?' as int, None, Some(0), None, None, false)]
  {
    var u := UnknownLong(name, None);
    OneUse(cfg, u);
    assert [program] + (Write(cfg, u) + []) == [program, "--" + name];
    assert Expected(cfg, u) + [] == Expected(cfg, u);
    SessionReportsUses(cfg, program, [u], Nothing);
  }
}
