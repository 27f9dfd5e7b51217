/** TCP options as section 3.2 of RFC 9293 encodes them, and the features a fingerprint takes
    from them and from the headers. */
module TcpOptions {
  import opened Wrappers
  import opened Digits
  import opened Buffers
  import opened Fingerprints

  // ----- options and their encoding -----

  const EOL := 0
  const NOP := 1
  const MAXSEG := 2
  const WSCALE := 3
  const SACKOK := 4
  const TIMESTAMP := 8

  type Data = d: seq<Byte> | |d| <= 253

  datatype TcpOption =
    | NoOperation
    | MaxSegment(hi: Byte, lo: Byte)
    | WindowScale(shift: Byte)
    | SackPermitted
    | Timestamps(data: Data)
    | Unknown(kind: Byte, data: Data)

  predicate Proper(o: TcpOption) {
    o.Unknown? ==> o.kind !in {EOL, NOP, MAXSEG, WSCALE, SACKOK, TIMESTAMP}
  }

  /** How many octets an option takes. */
  function Size(o: TcpOption): (n: nat)
    ensures n >= 1
  {
    match o
    case NoOperation => 1
    case MaxSegment(_, _) => 4
    case WindowScale(_) => 3
    case SackPermitted => 2
    case Timestamps(data) => |data| + 2
    case Unknown(_, data) => |data| + 2
  }

  function Encode(o: TcpOption): (bytes: seq<Byte>)
    ensures |bytes| == Size(o)
  {
    match o
    case NoOperation => [NOP]
    case MaxSegment(hi, lo) => [MAXSEG, 4, hi, lo]
    case WindowScale(shift) => [WSCALE, 3, shift]
    case SackPermitted => [SACKOK, 2]
    case Timestamps(data) => [TIMESTAMP, |data| + 2] + data
    case Unknown(kind, data) => [kind, |data| + 2] + data
  }

  function EncodeAll(opts: seq<TcpOption>): seq<Byte> {
    if opts == [] then [] else Encode(opts[0]) + EncodeAll(opts[1..])
  }

  /** What may follow the options: nothing, or an end marker and any padding. */
  predicate Padding(bytes: seq<Byte>) {
    bytes == [] || bytes[0] == EOL
  }

  ghost predicate WellFormed(area: seq<Byte>, opts: seq<TcpOption>, padding: seq<Byte>) {
    && area == EncodeAll(opts) + padding && Padding(padding)
    && forall i :: 0 <= i < |opts| ==> Proper(opts[i])
  }

  /** The first byte tells an option from the end marker, and what it is. */
  lemma KindTells(o: TcpOption)
    requires Proper(o)
    ensures var kind := Encode(o)[0];
            && kind != EOL && (kind == NOP <==> o.NoOperation?) && (kind == MAXSEG <==> o.MaxSegment?)
            && (kind == WSCALE <==> o.WindowScale?) && (kind == SACKOK <==> o.SackPermitted?)
            && (kind == TIMESTAMP <==> o.Timestamps?)
  {
  }

  lemma FirstEncoded(opts: seq<TcpOption>, padding: seq<Byte>)
    requires opts != []
    ensures EncodeAll(opts) + padding == Encode(opts[0]) + (EncodeAll(opts[1..]) + padding)
  {
  }

  /** Where the options start, counted from `at`, and where the last one ends. */
  function Places(opts: seq<TcpOption>, at: nat): (p: seq<nat>)
    ensures |p| == |opts| + 1 && p[0] == at
  {
    if opts == [] then [at] else [at] + Places(opts[1..], at + Size(opts[0]))
  }

  lemma {:induction false} PlacesAre(opts: seq<TcpOption>, at: nat)
    ensures forall i :: 0 <= i < |opts| ==> Places(opts, at)[i + 1] == Places(opts, at)[i] + Size(opts[i])
  {
    if opts != [] {
      PlacesAre(opts[1..], at + Size(opts[0]));
    }
  }

  /** What of the area follows before each option, and behind the last. */
  function Rests(opts: seq<TcpOption>, padding: seq<Byte>): (r: seq<seq<Byte>>)
    ensures |r| == |opts| + 1
  {
    if opts == [] then [padding] else [EncodeAll(opts) + padding] + Rests(opts[1..], padding)
  }

  lemma {:induction false} RestsAre(opts: seq<TcpOption>, padding: seq<Byte>)
    ensures Rests(opts, padding)[0] == EncodeAll(opts) + padding && Rests(opts, padding)[|opts|] == padding
    ensures forall i :: 0 <= i < |opts| ==> Rests(opts, padding)[i] == Encode(opts[i]) + Rests(opts, padding)[i + 1]
  {
    if opts == [] {
      assert [] + padding == padding;
    } else {
      FirstEncoded(opts, padding);
      RestsAre(opts[1..], padding);
    }
  }

  // ----- features -----

  /** What a fingerprint says. */
  datatype Features = Features(
    window: nat, mss: Option<nat>, ttl: nat, ws: Option<nat>, sack: bool,
    nop: bool, df: bool, timestamp: bool, ack: bool, length: nat)
  {
    predicate InRange() {
      && window < 0x1_0000 && ttl < 0x100 && length < 0x100
      && (mss.Some? ==> mss.value < 0x1_0000) && (ws.Some? ==> ws.value < 0x100)
    }
  }

  function Bit(b: bool): string {
    if b then "1" else "0"
  }

  function SlotsOf(f: Features): Slots {
    Slots(
      PaddedHex(f.window, 4, true),
      if f.mss.Some? then PaddedHex(f.mss.value, 4, true) else "_MSS",
      PaddedHex(f.ttl, 2, true),
      if f.ws.Some? then PaddedHex(f.ws.value, 2, true) else "WS",
      Bit(f.sack), Bit(f.nop), Bit(f.df), Bit(f.timestamp),
      if f.ack then "A" else "S",
      PaddedHex(f.length, 2, false))
  }

  /** The fingerprint that says `f`. */
  function Render(f: Features): string {
    Text(SlotsOf(f))
  }

  function ReadNumber(s: string): nat {
    if IsHex(s) then ReadHex(s) else 0
  }

  function ReadOptional(s: string): Option<nat> {
    if IsHex(s) then Some(ReadHex(s)) else None
  }

  function ReadFeatures(t: string): Features
    requires |t| == FINGER_LEN
  {
    var s := Cut(t);
    Features(
      ReadNumber(s.window), ReadOptional(s.mss), ReadNumber(s.ttl), ReadOptional(s.ws), s.sack == "1",
      s.nop == "1", s.df == "1", s.timestamp == "1", s.flag == "A", ReadNumber(s.length))
  }

  lemma PaddedWidth(n: nat, width: nat, upper: bool)
    requires width > 0 && n < Pow16(width)
    ensures |PaddedHex(n, width, upper)| == width
  {
    HexLength(n, width, upper);
  }

  lemma SlotsFit(f: Features)
    requires f.InRange()
    ensures SlotsOf(f).Fit()
  {
    Pow16Values();
    PaddedWidth(f.window, 4, true);
    PaddedWidth(f.ttl, 2, true);
    PaddedWidth(f.length, 2, false);
    if f.mss.Some? {
      PaddedWidth(f.mss.value, 4, true);
    }
    if f.ws.Some? {
      PaddedWidth(f.ws.value, 2, true);
    }
  }

  /** The ten fields read back. */
  lemma FeaturesReadBack(f: Features)
    requires f.InRange()
    ensures |Render(f)| == FINGER_LEN && ReadFeatures(Render(f)) == f
  {
    SlotsFit(f);
    CutText(SlotsOf(f));
    PaddedHexReadsBack(f.window, 4, true);
    PaddedHexReadsBack(f.ttl, 2, true);
    PaddedHexReadsBack(f.length, 2, false);
    if f.mss.Some? {
      PaddedHexReadsBack(f.mss.value, 4, true);
    }
    if f.ws.Some? {
      PaddedHexReadsBack(f.ws.value, 2, true);
    }
    assert DigitValue('_') == None && "_MSS"[0] == '_';
    assert DigitValue('W') == None && "WS"[0] == 'W';
  }

  /** Two fingerprints are equal exactly when the ten features are. */
  lemma FingerprintsTellFeatures(f: Features, g: Features)
    requires f.InRange() && g.InRange()
    ensures Render(f) == Render(g) <==> f == g
  {
    FeaturesReadBack(f);
    FeaturesReadBack(g);
  }

  // ----- what the options add -----

  function Note(f: Features, o: TcpOption): Features {
    match o
    case NoOperation => f.(nop := true)
    case MaxSegment(hi, lo) => f.(mss := Some(BigEndian(hi, lo)))
    case WindowScale(shift) => f.(ws := Some(shift))
    case SackPermitted => f.(sack := true)
    case Timestamps(_) => f.(timestamp := true)
    case Unknown(_, _) => f
  }

  function NoteAll(f: Features, opts: seq<TcpOption>): Features
    decreases |opts|
  {
    if opts == [] then f else NoteAll(Note(f, opts[0]), opts[1..])
  }

  lemma NoteInRange(f: Features, o: TcpOption)
    requires f.InRange()
    ensures Note(f, o).InRange()
  {
  }

  lemma {:induction false} NoteAllInRange(f: Features, opts: seq<TcpOption>)
    requires f.InRange()
    ensures NoteAll(f, opts).InRange()
    decreases |opts|
  {
    if opts != [] {
      NoteInRange(f, opts[0]);
      NoteAllInRange(Note(f, opts[0]), opts[1..]);
    }
  }

  ghost predicate Any(opts: seq<TcpOption>, p: TcpOption -> bool) {
    exists i :: 0 <= i < |opts| && p(opts[i])
  }

  lemma AnyStep(opts: seq<TcpOption>, p: TcpOption -> bool)
    requires opts != []
    ensures Any(opts, p) <==> p(opts[0]) || Any(opts[1..], p)
  {
    if i :| 0 <= i < |opts| && p(opts[i]) {
      assert i > 0 ==> opts[1..][i - 1] == opts[i];
    }
    if i :| 0 <= i < |opts| - 1 && p(opts[1..][i]) {
      assert opts[i + 1] == opts[1..][i];
    }
  }

  predicate IsNop(o: TcpOption) {
    o.NoOperation?
  }

  predicate IsSack(o: TcpOption) {
    o.SackPermitted?
  }

  predicate IsTimestamp(o: TcpOption) {
    o.Timestamps?
  }

  lemma {:induction false} NopNoted(f: Features, opts: seq<TcpOption>)
    ensures NoteAll(f, opts).nop <==> f.nop || Any(opts, IsNop)
    decreases |opts|
  {
    if opts != [] {
      NopNoted(Note(f, opts[0]), opts[1..]);
      AnyStep(opts, IsNop);
    }
  }

  lemma {:induction false} SackNoted(f: Features, opts: seq<TcpOption>)
    ensures NoteAll(f, opts).sack <==> f.sack || Any(opts, IsSack)
    decreases |opts|
  {
    if opts != [] {
      SackNoted(Note(f, opts[0]), opts[1..]);
      AnyStep(opts, IsSack);
    }
  }

  lemma {:induction false} TimestampNoted(f: Features, opts: seq<TcpOption>)
    ensures NoteAll(f, opts).timestamp <==> f.timestamp || Any(opts, IsTimestamp)
    decreases |opts|
  {
    if opts != [] {
      TimestampNoted(Note(f, opts[0]), opts[1..]);
      AnyStep(opts, IsTimestamp);
    }
  }

  ghost predicate SameHeader(f: Features, g: Features) {
    g.window == f.window && g.ttl == f.ttl && g.df == f.df && g.ack == f.ack && g.length == f.length
  }

  lemma {:induction false} HeaderKept(f: Features, opts: seq<TcpOption>)
    ensures SameHeader(f, NoteAll(f, opts))
    decreases |opts|
  {
    if opts != [] {
      assert SameHeader(f, Note(f, opts[0]));
      HeaderKept(Note(f, opts[0]), opts[1..]);
    }
  }

  /** The flags are set by any occurrence, what the headers say stays. */
  lemma NoteAllIs(f: Features, opts: seq<TcpOption>)
    ensures var g := NoteAll(f, opts);
            && (g.nop <==> f.nop || Any(opts, IsNop))
            && (g.sack <==> f.sack || Any(opts, IsSack))
            && (g.timestamp <==> f.timestamp || Any(opts, IsTimestamp))
            && SameHeader(f, g)
  {
    NopNoted(f, opts);
    SackNoted(f, opts);
    TimestampNoted(f, opts);
    HeaderKept(f, opts);
  }

  lemma {:induction false} LastSizeWins(f: Features, opts: seq<TcpOption>, i: nat)
    requires i < |opts| && opts[i].MaxSegment? && forall j :: i < j < |opts| ==> !opts[j].MaxSegment?
    ensures NoteAll(f, opts).mss == Some(BigEndian(opts[i].hi, opts[i].lo))
    decreases |opts|
  {
    if i > 0 {
      LastSizeWins(Note(f, opts[0]), opts[1..], i - 1);
    } else {
      NoSizeLeft(Note(f, opts[0]), opts[1..]);
    }
  }

  lemma {:induction false} NoSizeLeft(f: Features, opts: seq<TcpOption>)
    requires forall j :: 0 <= j < |opts| ==> !opts[j].MaxSegment?
    ensures NoteAll(f, opts).mss == f.mss
    decreases |opts|
  {
    if opts != [] {
      NoSizeLeft(Note(f, opts[0]), opts[1..]);
    }
  }

  lemma {:induction false} LastScaleWins(f: Features, opts: seq<TcpOption>, i: nat)
    requires i < |opts| && opts[i].WindowScale? && forall j :: i < j < |opts| ==> !opts[j].WindowScale?
    ensures NoteAll(f, opts).ws == Some(opts[i].shift)
    decreases |opts|
  {
    if i > 0 {
      LastScaleWins(Note(f, opts[0]), opts[1..], i - 1);
    } else {
      NoScaleLeft(Note(f, opts[0]), opts[1..]);
    }
  }

  lemma {:induction false} NoScaleLeft(f: Features, opts: seq<TcpOption>)
    requires forall j :: 0 <= j < |opts| ==> !opts[j].WindowScale?
    ensures NoteAll(f, opts).ws == f.ws
    decreases |opts|
  {
    if opts != [] {
      NoScaleLeft(Note(f, opts[0]), opts[1..]);
    }
  }

  // ----- updates against features -----

  lemma PaddedCut(n: nat, width: nat, upper: bool)
    requires width > 0 && n < Pow16(width)
    ensures PaddedHex(n, width, upper)[..width] == PaddedHex(n, width, upper)
  {
    PaddedWidth(n, width, upper);
  }

  /** The update an option causes, if any. */
  function OptionUpdate(s: Slots, o: TcpOption): Slots {
    match o
    case NoOperation => Update(s, Param.Nop, 1)
    case MaxSegment(hi, lo) => Update(s, Param.Mss, BigEndian(hi, lo))
    case WindowScale(shift) => Update(s, Param.Ws, shift)
    case SackPermitted => Update(s, Param.Sack, 1)
    case Timestamps(_) => Update(s, Param.Timestamp, 1)
    case Unknown(_, _) => s
  }

  function UpdateAll(s: Slots, opts: seq<TcpOption>): Slots
    decreases |opts|
  {
    if opts == [] then s else UpdateAll(OptionUpdate(s, opts[0]), opts[1..])
  }

  lemma FlagDigits()
    ensures Decimal(1)[..1] == "1" && Decimal(0)[..1] == "0"
  {
  }

  lemma NotesSize(f: Features, value: nat)
    requires value < 0x1_0000
    ensures Update(SlotsOf(f), Param.Mss, value) == SlotsOf(f.(mss := Some(value)))
  {
    Pow16Values();
    PaddedCut(value, 4, true);
    assert FieldText(Param.Mss, value, SlotsOf(f).length) == PaddedHex(value, 4, true);
  }

  lemma NotesScale(f: Features, value: nat)
    requires value < 0x100
    ensures Update(SlotsOf(f), Param.Ws, value) == SlotsOf(f.(ws := Some(value)))
  {
    Pow16Values();
    PaddedCut(value, 2, true);
    assert FieldText(Param.Ws, value, SlotsOf(f).length) == PaddedHex(value, 2, true);
  }

  lemma NotesFlags(f: Features)
    ensures Update(SlotsOf(f), Param.Nop, 1) == SlotsOf(f.(nop := true))
    ensures Update(SlotsOf(f), Param.Sack, 1) == SlotsOf(f.(sack := true))
    ensures Update(SlotsOf(f), Param.Timestamp, 1) == SlotsOf(f.(timestamp := true))
  {
    FlagDigits();
  }

  lemma UpdateNotes(f: Features, o: TcpOption)
    ensures OptionUpdate(SlotsOf(f), o) == SlotsOf(Note(f, o))
  {
    NotesFlags(f);
    match o {
      case MaxSegment(hi, lo) => NotesSize(f, BigEndian(hi, lo));
      case WindowScale(shift) => NotesScale(f, shift);
      case _ =>
    }
  }

  /** Updating a fingerprint option by option notes their features. */
  lemma {:induction false} UpdateAllNotes(f: Features, opts: seq<TcpOption>)
    ensures UpdateAll(SlotsOf(f), opts) == SlotsOf(NoteAll(f, opts))
    decreases |opts|
  {
    if opts != [] {
      UpdateNotes(f, opts[0]);
      UpdateAllNotes(Note(f, opts[0]), opts[1..]);
    }
  }

  // ----- the headers -----

  const InitialSlots := Slots("0000", "_MSS", "TT", "WS", "0", "0", "0", "0", "F", "LT")

  /** What the IP decoder has filled in. */
  function IpSlots(ttl: Byte, df: bool, ihl: nat): Slots {
    var s := Update(InitialSlots, Param.Ttl, ttl);
    var t := Update(s, Param.Df, if df then 0x4000 else 0);
    Update(t, Param.Length, ihl * 4)
  }

  /** What the TCP decoder fills in before it looks at options. */
  function TcpSlots(s: Slots, window: nat, ack: bool, off: nat): Slots {
    var t := Update(s, Param.Window, window);
    var u := Update(t, Param.TcpFlag, if ack then 1 else 0);
    Update(u, Param.Length, off * 4)
  }

  function HeaderFeatures(ttl: Byte, df: bool, ihl: nat, window: nat, ack: bool, off: nat): Features {
    Features(window, None, TtlPredictor(ttl), None, false, false, df, false, ack, ihl * 4 + off * 4)
  }

  lemma {:induction false} LeadingHexOfHex(s: string)
    requires IsHex(s)
    ensures LeadingHex(s) == |s|
  {
    if s != "" {
      LeadingHexOfHex(s[1..]);
    }
  }

  lemma ReadLeadingPadded(n: nat, width: nat, upper: bool)
    ensures ReadLeading(PaddedHex(n, width, upper)) == n
  {
    var s := PaddedHex(n, width, upper);
    PaddedHexReadsBack(n, width, upper);
    LeadingHexOfHex(s);
    assert s[..|s|] == s;
  }

  lemma DontFragmentDigit()
    ensures Decimal(0x4000)[..1] == "1"
  {
    assert Decimal(1) == "1" && Decimal(16)[..1] == "1" && Decimal(163)[..1] == "1";
    assert Decimal(1638)[..1] == "1" && Decimal(16384)[..1] == "1";
  }

  lemma IpSlotsAre(ttl: Byte, df: bool, ihl: nat)
    requires ihl < 16
    ensures IpSlots(ttl, df, ihl)
            == InitialSlots.(ttl := PaddedHex(TtlPredictor(ttl), 2, true), df := Bit(df), length := PaddedHex(ihl * 4, 2, false))
    ensures IpSlots(ttl, df, ihl).Fit()
  {
    Pow16Values();
    assert ttl % 0x100 == ttl;
    PaddedCut(TtlPredictor(ttl), 2, true);
    var s := Update(InitialSlots, Param.Ttl, ttl);
    assert s == InitialSlots.(ttl := PaddedHex(TtlPredictor(ttl), 2, true));
    DontFragmentDigit();
    var t := Update(s, Param.Df, if df then 0x4000 else 0);
    assert t == s.(df := Bit(df));
    NoLengthYet();
    PaddedCut(ihl * 4, 2, false);
  }

  lemma NoLengthYet()
    ensures ReadLeading("LT") == 0
  {
    assert DigitValue('L') == None && "LT"[0] == 'L';
  }

  lemma TcpSlotsAre(s: Slots, n: nat, window: nat, ack: bool, off: nat)
    requires s.length == PaddedHex(n, 2, false) && n + off * 4 < 0x100 && window < 0x1_0000
    ensures TcpSlots(s, window, ack, off)
            == s.(window := PaddedHex(window, 4, true), flag := if ack then "A" else "S",
                  length := PaddedHex(n + off * 4, 2, false))
  {
    Pow16Values();
    PaddedCut(window, 4, true);
    PaddedCut(n + off * 4, 2, false);
    ReadLeadingPadded(n, 2, false);
    assert FieldText(Param.Window, window, s.length) == PaddedHex(window, 4, true);
    assert FieldText(Param.Length, off * 4, s.length) == PaddedHex(n + off * 4, 2, false);
  }

  /** After both headers, and before the options, the fingerprint says what they say. */
  lemma HeaderSlots(ttl: Byte, df: bool, ihl: nat, window: nat, ack: bool, off: nat)
    requires ihl < 16 && off < 16 && window < 0x1_0000
    ensures TcpSlots(IpSlots(ttl, df, ihl), window, ack, off) == SlotsOf(HeaderFeatures(ttl, df, ihl, window, ack, off))
    ensures HeaderFeatures(ttl, df, ihl, window, ack, off).InRange()
  {
    IpSlotsAre(ttl, df, ihl);
    TcpSlotsAre(IpSlots(ttl, df, ihl), ihl * 4, window, ack, off);
  }
}
