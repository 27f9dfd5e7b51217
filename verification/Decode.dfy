/** The decoder table and the loop that hands a packet from one decoder to the next. */
module Decoding {
  import opened Wrappers
  import opened Queues

  /** A decoder function, by its address. */
  type Decoder = nat

  datatype Entry = Entry(level: int, kind: int, decoder: Decoder)

  const LINK_LAYER := 2
  const APP_LAYER := 5

  // ----- looking a decoder up -----

  /** The first entry that satisfies `p`. */
  function FirstMatch(s: seq<Entry>, p: Entry -> bool): (r: Option<nat>)
    ensures r.None? ==> forall i :: 0 <= i < |s| ==> !p(s[i])
    ensures r.Some? ==> r.value < |s| && p(s[r.value]) && forall i :: 0 <= i < r.value ==> !p(s[i])
  {
    if s == [] then None
    else if p(s[0]) then Some(0)
    else match FirstMatch(s[1..], p)
      case None => None
      case Some(i) => Some(i + 1)
  }

  function OfLayer(level: int, kind: int): Entry -> bool {
    (e: Entry) => e.level == level && e.kind == kind
  }

  /** A link layer decoder for the data link type, or the raw one if that is wanted. */
  function OfLink(dlt: int, raw: bool): Entry -> bool {
    (e: Entry) => e.level == LINK_LAYER && (e.kind == dlt || (raw && e.kind == 0))
  }

  function Lookup(s: seq<Entry>, level: int, kind: int): (r: Option<Decoder>)
    ensures r.Some? ==> exists i :: 0 <= i < |s| && s[i] == Entry(level, kind, r.value)
  {
    match FirstMatch(s, OfLayer(level, kind))
    case Some(i) => Some(s[i].decoder)
    case None => None
  }

  lemma FirstMatchIs(s: seq<Entry>, p: Entry -> bool, i: nat)
    requires i < |s| && p(s[i]) && forall j :: 0 <= j < i ==> !p(s[j])
    ensures FirstMatch(s, p) == Some(i)
  {
  }

  /** Entries are put in front, so the table lists them newest first. */
  function Table(added: seq<Entry>): seq<Entry> {
    if added == [] then [] else [added[|added| - 1]] + Table(added[..|added| - 1])
  }

  predicate Fits(e: Entry, level: int, kind: int) {
    e.level == level && e.kind == kind
  }

  /** `r` is the decoder of the latest entry added for the level and type, nothing exactly if there
      is none. */
  ghost predicate IsNewest(added: seq<Entry>, level: int, kind: int, r: Option<Decoder>) {
    match r
    case None => forall i :: 0 <= i < |added| ==> !Fits(added[i], level, kind)
    case Some(d) =>
      exists i :: 0 <= i < |added| && added[i] == Entry(level, kind, d)
                  && forall j :: i < j < |added| ==> !Fits(added[j], level, kind)
  }

  lemma NewestAfter(before: seq<Entry>, e: Entry, level: int, kind: int, r: Option<Decoder>)
    requires IsNewest(before, level, kind, r)
    ensures IsNewest(before + [e], level, kind, if Fits(e, level, kind) then Some(e.decoder) else r)
  {
    var added := before + [e];
    if Fits(e, level, kind) {
      assert added[|before|] == Entry(level, kind, e.decoder);
    } else if r.Some? {
      var i :| 0 <= i < |before| && before[i] == Entry(level, kind, r.value)
               && forall j :: i < j < |before| ==> !Fits(before[j], level, kind);
      assert added[i] == Entry(level, kind, r.value);
    }
  }

  lemma {:induction false} LookupFindsNewest(added: seq<Entry>, level: int, kind: int)
    ensures IsNewest(added, level, kind, Lookup(Table(added), level, kind))
  {
    if added != [] {
      var last, before := added[|added| - 1], added[..|added| - 1];
      assert added == before + [last];
      LookupFindsNewest(before, level, kind);
      LookupInFront(last, Table(before), level, kind);
      NewestAfter(before, last, level, kind, Lookup(Table(before), level, kind));
    }
  }

  lemma LookupInFront(e: Entry, s: seq<Entry>, level: int, kind: int)
    ensures Lookup([e] + s, level, kind)
            == if Fits(e, level, kind) then Some(e.decoder) else Lookup(s, level, kind)
  {
    assert ([e] + s)[1..] == s;
  }

  // ----- handing the packet on -----

  /** What a decoder makes of the data it is given: how much it decoded, and the decoder it
      returns, if any. It may depend on everything done before. */
  datatype Report = Report(len: int, next: Option<Decoder>)

  /** What a decoder does when it is called as the `n`th on the data at `offset`; the remaining
      length reaches it as an unsigned 16-bit number. */
  type Behaviour = (nat, Decoder, int, nat) -> Report

  datatype Call = Call(decoder: Decoder, offset: int, remaining: int)

  function ReportOf(b: Behaviour, n: nat, c: Call): Report {
    b(n, c.decoder, c.offset, c.remaining % 0x1_0000)
  }

  /** A ranking of the decoders by layers: whatever decoder one returns stands higher. */
  ghost predicate Ranked(rank: map<Decoder, int>, b: Behaviour) {
    && (forall d :: d in rank ==> LINK_LAYER <= rank[d] <= APP_LAYER)
    && forall n, d, offset, remaining :: d in rank ==> ReturnsHigher(rank, b(n, d, offset, remaining).next, rank[d])
  }

  predicate ReturnsHigher(rank: map<Decoder, int>, next: Option<Decoder>, level: int) {
    next.Some? ==> next.value in rank && rank[next.value] > level
  }

  /** Call `d` is what follows the `n`th call `c`: the same packet, moved by what was decoded,
      in the hands of the decoder that was returned, with something left to decode. */
  ghost predicate HandsOver(b: Behaviour, n: nat, c: Call, d: Call) {
    var len := ReportOf(b, n, c).len;
    && ReportOf(b, n, c).next == Some(d.decoder)
    && d.remaining == c.remaining - len > 0 && d.offset == c.offset + len
  }

  /** The calls made on one packet, first to last. */
  ghost predicate Handed(b: Behaviour, first: Decoder, caplen: nat, calls: seq<Call>) {
    && calls != [] && calls[0] == Call(first, 0, caplen)
    && forall k: nat :: k < |calls| - 1 ==> HandsOverAt(b, calls, k)
  }

  ghost predicate HandsOverAt(b: Behaviour, calls: seq<Call>, k: nat) {
    k < |calls| - 1 && HandsOver(b, k, calls[k], calls[k + 1])
  }

  /** Nothing is left to do after the last call: no data, or nobody to hand it to. */
  ghost predicate Over(b: Behaviour, calls: seq<Call>)
    requires calls != []
  {
    var report, last := ReportOf(b, |calls| - 1, calls[|calls| - 1]), calls[|calls| - 1];
    last.remaining - report.len <= 0 || report.next.None?
  }

  /** The two behaviours do the same with what call `k` is given: the data at its offset, and the
      remaining length as a 16-bit number. */
  ghost predicate SameAt(b: Behaviour, c: Behaviour, calls: seq<Call>, k: nat)
    requires k < |calls|
  {
    b(k, calls[k].decoder, calls[k].offset, calls[k].remaining % 0x1_0000)
    == c(k, calls[k].decoder, calls[k].offset, calls[k].remaining % 0x1_0000)
  }

  lemma HandedAlike(b: Behaviour, c: Behaviour, first: Decoder, caplen: nat, calls: seq<Call>)
    requires forall k: nat :: k < |calls| ==> SameAt(b, c, calls, k)
    requires Handed(b, first, caplen, calls)
    ensures Handed(c, first, caplen, calls)
  {
    forall k: nat | k < |calls| - 1 ensures HandsOverAt(c, calls, k) {
      assert HandsOverAt(b, calls, k) && SameAt(b, c, calls, k);
    }
  }

  /** The calls on a packet depend on what the decoders do with the data at the recorded offsets, and
      on nothing else they might do. */
  lemma DecodersSeeTheirData(b: Behaviour, c: Behaviour, first: Decoder, caplen: nat, calls: seq<Call>)
    requires calls != [] && forall k: nat :: k < |calls| ==> SameAt(b, c, calls, k)
    ensures Handed(b, first, caplen, calls) <==> Handed(c, first, caplen, calls)
    ensures Over(b, calls) <==> Over(c, calls)
  {
    assert SameAt(b, c, calls, |calls| - 1);
    assert forall k: nat :: k < |calls| ==> SameAt(c, b, calls, k) by {
      forall k: nat | k < |calls| ensures SameAt(c, b, calls, k) {
        assert SameAt(b, c, calls, k);
      }
    }
    if Handed(b, first, caplen, calls) {
      HandedAlike(b, c, first, caplen, calls);
    }
    if Handed(c, first, caplen, calls) {
      HandedAlike(c, b, first, caplen, calls);
    }
  }

  /** What follows a call, by the decoder's own report on the data it was given. */
  lemma NextCallIs(b: Behaviour, first: Decoder, caplen: nat, calls: seq<Call>, k: nat)
    requires Handed(b, first, caplen, calls) && k + 1 < |calls|
    ensures var report := b(k, calls[k].decoder, calls[k].offset, calls[k].remaining % 0x1_0000);
            && calls[k + 1].offset == calls[k].offset + report.len
            && calls[k + 1].remaining == calls[k].remaining - report.len > 0
            && report.next == Some(calls[k + 1].decoder)
  {
    assert HandsOverAt(b, calls, k);
  }

  lemma HandsOverHigher(rank: map<Decoder, int>, b: Behaviour, n: nat, c: Call, d: Call)
    requires Ranked(rank, b) && c.decoder in rank && HandsOver(b, n, c, d)
    ensures d.decoder in rank && rank[d.decoder] > rank[c.decoder]
  {
    assert ReturnsHigher(rank, b(n, c.decoder, c.offset, c.remaining % 0x1_0000).next, rank[c.decoder]);
  }

  /** The decoder of call `k` stands `k` layers above the first or more, so there are few calls. */
  lemma {:induction false} LevelsClimb(rank: map<Decoder, int>, b: Behaviour, first: Decoder, caplen: nat, calls: seq<Call>, k: nat)
    requires Ranked(rank, b) && first in rank && Handed(b, first, caplen, calls) && k < |calls|
    ensures calls[k].decoder in rank && rank[first] + k <= rank[calls[k].decoder] <= APP_LAYER
  {
    if k > 0 {
      LevelsClimb(rank, b, first, caplen, calls, k - 1);
      assert HandsOverAt(b, calls, k - 1);
      HandsOverHigher(rank, b, k - 1, calls[k - 1], calls[k]);
    }
  }

  /** From the link layer there are at most four calls, whatever lengths the decoders report. */
  lemma AtMostFourCalls(rank: map<Decoder, int>, b: Behaviour, first: Decoder, caplen: nat, calls: seq<Call>)
    requires Ranked(rank, b) && first in rank && Handed(b, first, caplen, calls)
    ensures |calls| <= 4
  {
    if |calls| > 4 {
      LevelsClimb(rank, b, first, caplen, calls, 4);
    }
  }

  /** The data pointer and the remaining length always add up to the captured packet, and after
      the first call something always remains. */
  lemma {:induction false} OffsetsAddUp(b: Behaviour, first: Decoder, caplen: nat, calls: seq<Call>, k: nat)
    requires Handed(b, first, caplen, calls) && k < |calls|
    ensures calls[k].offset + calls[k].remaining == caplen
    ensures k > 0 ==> calls[k].remaining > 0
  {
    if k > 0 {
      OffsetsAddUp(b, first, caplen, calls, k - 1);
      assert HandsOverAt(b, calls, k - 1);
    }
  }

  /** If the decoders report no negative lengths, every call after the first starts inside the
      captured packet. */
  lemma {:induction false} OffsetsStayInside(b: Behaviour, first: Decoder, caplen: nat, calls: seq<Call>, k: nat)
    requires Handed(b, first, caplen, calls) && k < |calls|
    requires forall j :: 0 <= j < |calls| ==> ReportOf(b, j, calls[j]).len >= 0
    ensures 0 <= calls[k].offset && (k > 0 ==> calls[k].offset < caplen)
  {
    OffsetsAddUp(b, first, caplen, calls, k);
    if k > 0 {
      OffsetsStayInside(b, first, caplen, calls, k - 1);
      assert HandsOverAt(b, calls, k - 1);
    }
  }

  lemma HandedAppends(b: Behaviour, first: Decoder, caplen: nat, calls: seq<Call>, c: Call, d: Call)
    requires Handed(b, first, caplen, calls + [c]) && HandsOver(b, |calls|, c, d)
    ensures Handed(b, first, caplen, calls + [c] + [d])
  {
    var longer := calls + [c] + [d];
    forall k: nat | k < |longer| - 1 ensures HandsOverAt(b, longer, k) {
      if k < |calls| {
        assert HandsOverAt(b, calls + [c], k);
      }
    }
  }

  // ----- the decoders of lmap -----

  datatype Known = Eth | Wifi | Arp | Ip | Ip6 | Icmp | Icmp6 | Tcp | Udp | Dhcpd | Dhcpc

  /** A different number for each stands for its address. */
  function Address(d: Known): Decoder {
    match d
    case Eth => 1
    case Wifi => 2
    case Arp => 3
    case Ip => 4
    case Ip6 => 5
    case Icmp => 6
    case Icmp6 => 7
    case Tcp => 8
    case Udp => 9
    case Dhcpd => 10
    case Dhcpc => 11
  }

  /** The level each is registered at. */
  function LayerOf(d: Known): int {
    match d
    case Eth => LINK_LAYER
    case Wifi => LINK_LAYER
    case Arp => 3
    case Ip => 3
    case Ip6 => 3
    case Icmp => 4
    case Icmp6 => 4
    case Tcp => 4
    case Udp => 4
    case Dhcpd => APP_LAYER
    case Dhcpc => APP_LAYER
  }

  /** The level each looks up what it returns at; the others return nothing. */
  function AsksAt(d: Known): Option<int> {
    match d
    case Eth => Some(3)
    case Wifi => Some(3)
    case Ip => Some(4)
    case Ip6 => Some(4)
    case Tcp => Some(5)
    case Udp => Some(5)
    case _ => None
  }

  const Layers: map<Decoder, int> :=
    map[1 := 2, 2 := 2, 3 := 3, 4 := 3, 5 := 3, 6 := 4, 7 := 4, 8 := 4, 9 := 4, 10 := 5, 11 := 5]

  lemma LayersAre(d: Known)
    ensures Address(d) in Layers && Layers[Address(d)] == LayerOf(d)
  {
  }

  lemma LayersAreKnown(a: Decoder) returns (d: Known)
    requires a in Layers
    ensures a == Address(d)
  {
    d := if a == 1 then Eth else if a == 2 then Wifi else if a == 3 then Arp else if a == 4 then Ip
         else if a == 5 then Ip6 else if a == 6 then Icmp else if a == 7 then Icmp6 else if a == 8 then Tcp
         else if a == 9 then Udp else if a == 10 then Dhcpd else Dhcpc;
  }

  /** The table holds decoders of lmap only, at their levels, under any types. */
  ghost predicate KnownTable(table: seq<Entry>) {
    forall i :: 0 <= i < |table| ==> exists d: Known :: table[i].decoder == Address(d) && table[i].level == LayerOf(d)
  }

  /** Each returns nothing, or what a lookup at the level it asks at gives for some type. */
  ghost predicate Returns(table: seq<Entry>, d: Known, next: Option<Decoder>) {
    next.Some? ==> AsksAt(d).Some? && exists kind: int :: next == Lookup(table, AsksAt(d).value, kind)
  }

  ghost predicate DecodesAsKnown(table: seq<Entry>, b: Behaviour) {
    forall d: Known, n: nat, offset: int, remaining: nat :: Returns(table, d, b(n, Address(d), offset, remaining).next)
  }

  /** What a decoder of lmap returns is registered exactly one level above it. */
  lemma KnownClimb(table: seq<Entry>, d: Known, next: Option<Decoder>)
    requires KnownTable(table) && Returns(table, d, next) && next.Some?
    ensures next.value in Layers && Layers[next.value] == LayerOf(d) + 1
  {
    var level := AsksAt(d).value;
    var kind: int :| next == Lookup(table, level, kind);
    var i :| 0 <= i < |table| && table[i] == Entry(level, kind, next.value);
    var e: Known :| table[i].decoder == Address(e) && table[i].level == LayerOf(e);
    LayersAre(e);
  }

  /** So the decoders of lmap are ranked, whatever the packet and whichever of them are in the
      table. */
  lemma KnownAreRanked(table: seq<Entry>, b: Behaviour)
    requires KnownTable(table) && DecodesAsKnown(table, b)
    ensures Ranked(Layers, b)
  {
    forall n, a, offset, remaining | a in Layers ensures ReturnsHigher(Layers, b(n, a, offset, remaining).next, Layers[a]) {
      var d := LayersAreKnown(a);
      LayersAre(d);
      assert Returns(table, d, b(n, Address(d), offset, remaining).next);
      if b(n, a, offset, remaining).next.Some? {
        KnownClimb(table, d, b(n, a, offset, remaining).next);
      }
    }
  }

  // ----- in memory -----

  class DecoderTable {
    const table: SingleList<Entry>
    var l2Decoder: Option<Decoder>

    constructor ()
      ensures table.Valid() && table.cells == [] && l2Decoder == None && fresh(table)
    {
      table := new SingleList<Entry>();
      l2Decoder := None;
    }

    method AddDecoder(level: int, kind: int, decoder: Decoder)
      requires table.Valid()
      modifies table
      ensures table.Valid() && table.Contents() == [Entry(level, kind, decoder)] + old(table.Contents())
    {
      var e := new Cell(Entry(level, kind, decoder));
      table.InsertHead(e);
    }

    method GetDecoder(level: int, kind: int) returns (r: Option<Decoder>)
      requires table.Valid()
      ensures r == Lookup(table.Contents(), level, kind)
    {
      var e := table.first;
      ghost var i := 0;
      while e != null
        invariant 0 <= i <= |table.cells| && e == if i < |table.cells| then table.cells[i] else null
        invariant forall j :: 0 <= j < i ==> table.Contents()[j].level != level || table.Contents()[j].kind != kind
        decreases |table.cells| - i
      {
        if e.data.level == level && e.data.kind == kind {
          FirstMatchIs(table.Contents(), OfLayer(level, kind), i);
          return Some(e.data.decoder);
        }
        e := e.next;
        i := i + 1;
      }
      r := None;
    }

    /** Chooses the decoder of the link layer. With `raw`, an entry of type 0 will do as well,
        whichever of the two comes first in the table. */
    method SetL2Decoder(dlt: int, raw: bool) returns (found: bool)
      requires table.Valid()
      modifies `l2Decoder
      ensures var at := FirstMatch(table.Contents(), OfLink(dlt, raw));
              && (found <==> at.Some?)
              && l2Decoder == if found then Some(table.Contents()[at.value].decoder) else old(l2Decoder)
      ensures found ==>
                exists i :: 0 <= i < |table.Contents()| && l2Decoder == Some(table.Contents()[i].decoder)
                            && table.Contents()[i].level == 2
                            && (table.Contents()[i].kind == dlt || (raw && table.Contents()[i].kind == 0))
      ensures !found ==> forall i :: 0 <= i < |table.Contents()| ==>
                                       table.Contents()[i].level != 2 || table.Contents()[i].kind != dlt
    {
      ghost var p := OfLink(dlt, raw);
      var e := table.first;
      ghost var i := 0;
      while e != null
        invariant table.Valid() && l2Decoder == old(l2Decoder)
        invariant 0 <= i <= |table.cells| && e == if i < |table.cells| then table.cells[i] else null
        invariant forall j :: 0 <= j < i ==> !p(table.Contents()[j])
        decreases |table.cells| - i
      {
        if e.data.level == 2 && e.data.kind == dlt {
          FirstMatchIs(table.Contents(), p, i);
          l2Decoder := Some(e.data.decoder);
          return true;
        }
        if raw && e.data.level == 2 && e.data.kind == 0 {
          FirstMatchIs(table.Contents(), p, i);
          l2Decoder := Some(e.data.decoder);
          return true;
        }
        e := e.next;
        i := i + 1;
      }
      found := false;
    }

    /** The loop over one packet; `calls` lists the decoder calls it makes. */
    method LmapDecode(caplen: nat, b: Behaviour, ghost rank: map<Decoder, int>) returns (calls: seq<Call>)
      requires l2Decoder.Some? && l2Decoder.value in rank && Ranked(rank, b)
      ensures Handed(b, l2Decoder.value, caplen, calls) && Over(b, calls)
      ensures |calls| <= 4
    {
      ghost var first := l2Decoder.value;
      var decoder, data, datalen := l2Decoder.value, 0, caplen as int;
      calls := [];
      while true
        invariant decoder in rank && rank[decoder] <= APP_LAYER
        invariant Handed(b, first, caplen, calls + [Call(decoder, data, datalen)])
        decreases APP_LAYER - rank[decoder]
      {
        ghost var before, c := calls, Call(decoder, data, datalen);
        var report := ReportOf(b, |calls|, Call(decoder, data, datalen));
        calls := calls + [Call(decoder, data, datalen)];
        datalen := datalen - report.len;
        if datalen > 0 {
          data := data + report.len;
        } else {
          break;
        }
        if report.next == None {
          break;
        }
        decoder := report.next.value;
        HandsOverHigher(rank, b, |before|, c, Call(decoder, data, datalen));
        HandedAppends(b, first, caplen, before, c, Call(decoder, data, datalen));
      }
      AtMostFourCalls(rank, b, first, caplen, calls);
    }
  }
}
