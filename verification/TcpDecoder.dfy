/** The IP and TCP decoders as far as passive fingerprinting goes: the fingerprint string is
    changed in place while the headers and the options are read. */
module TcpDecoder {
  import opened Buffers
  import opened Remainders
  import opened Fingerprints
  import opened TcpOptions
  import opened TcpOctets

  const LL_TYPE_IP := 0x0800
  const LN_TYPE_TCP := 0x06
  const TH_SYN := 0x02
  const TH_ACK := 0x10

  /** The part of the bucket the two decoders fill in. The addresses are those of AF_INET. */
  class Bucket {
    var ipSrc: seq<Byte>
    var ipDst: seq<Byte>
    var netProto: nat
    var ttl: nat
    var portSrc: nat
    var portDst: nat
    var proto: nat
    var fingerprint: array?<char>

    constructor ()
      ensures fingerprint == null
    {
      ipSrc, ipDst := [], [];
      netProto, ttl, portSrc, portDst, proto, fingerprint := 0, 0, 0, 0, 0, null;
    }
  }

  /** The array holds a fingerprint with the fields `s`. */
  ghost predicate Holds(finger: array<char>, s: Slots)
    reads finger
  {
    s.Fit() && finger.Length == FINGER_LEN + 1 && finger[..FINGER_LEN] == Text(s) && finger[FINGER_LEN] == NUL
  }

  // ----- fingerprint_push -----

  /** `strncpy` of a text at least as long as the field. */
  method Overwrite(finger: array<char>, at: nat, s: string)
    requires at + |s| <= finger.Length
    modifies finger
    ensures forall i :: at <= i < at + |s| ==> finger[i] == s[i - at]
    ensures forall i :: 0 <= i < finger.Length && !(at <= i < at + |s|) ==> finger[i] == old(finger[i])
  {
    for k := 0 to |s|
      invariant forall i :: at <= i < at + k ==> finger[i] == s[i - at]
      invariant forall i :: 0 <= i < finger.Length && !(at <= i < at + k) ==> finger[i] == old(finger[i])
    {
      finger[at + k] := s[k];
    }
  }

  lemma DoubleTruncates(p: nat)
    ensures ((p % 0x100) * 2) % 0x100 == (2 * p) % 0x100
  {
    var q, r := p / 0x100, p % 0x100;
    if r < 0x80 {
      RemainderIs(2 * p, 2 * q, 2 * r, 0x100);
    } else {
      RemainderIs(2 * p, 2 * q + 1, 2 * r - 0x100, 0x100);
    }
  }

  /** `TTL_PREDICTOR`, on unsigned bytes. */
  method PredictTtl(x: Byte) returns (r: Byte)
    ensures r == TtlPredictor(x)
  {
    var i: Byte, j: Byte, c: nat := x, 1, 0;
    ghost var p: nat := 1;
    while true
      invariant j == p % 0x100
      invariant c + Ones(i) == Ones(x)
      invariant Doubled(p, i) == Doubled(1, x)
      decreases i
    {
      c := c + i % 2;
      DoubleTruncates(p);
      j := (j * 2) % 0x100;
      p := 2 * p;
      if i < 2 {
        break;
      }
      i := i / 2;
    }
    DoubledIs(1, x);
    if c == 1 {
      r := x;
    } else {
      r := if j != 0 then j else 0xff;
    }
  }

  method ReadLength(finger: array<char>, ghost s: Slots) returns (n: nat)
    requires Holds(finger, s)
    ensures n == ReadLeading(s.length)
  {
    CutText(s);
    var field := finger[26..28];
    assert field == finger[..FINGER_LEN][26..28];
    n := ReadLeading(field);
  }

  /** The characters to write. The length is added to what the field says already. */
  method FieldChars(finger: array<char>, p: Param, value: nat, ghost s: Slots) returns (text: string)
    requires Holds(finger, s)
    ensures text == FieldText(p, value, s.length)
  {
    var shown := value;
    if p.Ttl? {
      shown := PredictTtl(value % 0x100);
    } else if p.Length? {
      var ltOld := ReadLength(finger, s);
      shown := value + ltOld;
    }
    text := PlainText(p, shown);
  }

  /** Updates one field of a fingerprint. */
  method FingerprintPush(finger: array<char>, p: Param, value: nat, ghost s: Slots)
    requires Holds(finger, s)
    modifies finger
    ensures Holds(finger, Update(s, p, value))
  {
    var text := FieldChars(finger, p, value, s);
    ghost var before := finger[..FINGER_LEN];
    Overwrite(finger, Place(p), text);
    ghost var t := finger[..FINGER_LEN];
    assert forall i :: 0 <= i < FINGER_LEN && !(Place(p) <= i < Place(p) + |text|) ==> t[i] == before[i];
    OverwriteField(s, p, value, t);
    UpdateFits(s, p, value);
  }

  method FingerprintAlloc() returns (q: array<char>)
    ensures fresh(q) && Holds(q, InitialSlots)
  {
    q := new char[FINGER_LEN + 1](_ => NUL);
    InitialText();
    PutText(q, 0, "0000:_MSS:TT:WS:0:0:0:0:F:LT");
  }

  lemma InitialText()
    ensures InitialSlots.Fit() && Text(InitialSlots) == "0000:_MSS:TT:WS:0:0:0:0:F:LT"
  {
  }

  // ----- decode_ip -----

  /** `ntohs(frag_off) & IP_DF` is not zero. */
  function DontFragment(ip: seq<Byte>): bool
    requires |ip| >= 20
  {
    (ip[6] / 0x40) % 2 == 1
  }

  /** Fills in the network part and, for TCP, starts a fingerprint. Returns how much it decoded
      and the type it asks the next layer for. */
  method DecodeIp(ip: seq<Byte>, b: Bucket) returns (len: nat, asks: nat)
    requires |ip| >= 20
    modifies b
    ensures len == ip[0] % 16 * 4 && asks == ip[9]
    ensures b.ipSrc == ip[12..16] && b.ipDst == ip[16..20]
    ensures b.ttl == ip[8] && b.netProto == 0x0008
    ensures b.portSrc == old(b.portSrc) && b.portDst == old(b.portDst) && b.proto == old(b.proto)
    ensures ip[9] == LN_TYPE_TCP ==> b.fingerprint != null && fresh(b.fingerprint)
                                     && Holds(b.fingerprint, IpSlots(ip[8], DontFragment(ip), ip[0] % 16))
    ensures ip[9] != LN_TYPE_TCP ==> b.fingerprint == old(b.fingerprint)
  {
    var ihl: nat := ip[0] % 16;
    len := ihl * 4;
    b.ipSrc, b.ipDst := ip[12..16], ip[16..20];
    b.netProto := (LL_TYPE_IP % 0x100) * 0x100 + LL_TYPE_IP / 0x100;
    b.ttl := ip[8];
    if ip[9] == LN_TYPE_TCP {
      var q := FingerprintAlloc();
      b.fingerprint := q;
      var df := if DontFragment(ip) then 0x4000 else 0;
      FingerprintPush(q, Param.Ttl, ip[8], InitialSlots);
      ghost var s := Update(InitialSlots, Param.Ttl, ip[8]);
      FingerprintPush(q, Param.Df, df, s);
      FingerprintPush(q, Param.Length, ihl * 4, Update(s, Param.Df, df));
    }
    asks := ip[9];
  }

  // ----- decode_tcp -----

  lemma EncodedHead(o: TcpOption, rest: seq<Byte>, data: seq<Byte>, at: nat, end: nat)
    requires at <= end <= |data| && data[at..end] == Encode(o) + rest
    ensures at + Size(o) <= end && data[at + Size(o)..end] == rest
    ensures forall k :: 0 <= k < Size(o) ==> data[at + k] == Encode(o)[k]
  {
    forall k | 0 <= k < Size(o) ensures data[at + k] == Encode(o)[k] {
      assert data[at + k] == data[at..end][k];
    }
    assert data[at + Size(o)..end] == data[at..end][Size(o)..];
  }

  /** One round of the option loop, on the option that starts at `at`: it passes exactly that
      option and makes the update it calls for. */
  method PassOption(data: seq<Byte>, at: nat, end: nat, finger: array<char>, ghost o: TcpOption, ghost rest: seq<Byte>, ghost s: Slots)
    returns (next: nat)
    requires at < end <= |data| && data[at..end] == Encode(o) + rest && Proper(o)
    requires Holds(finger, s)
    modifies finger
    ensures next == at + Size(o) <= end && data[next..end] == rest
    ensures Holds(finger, OptionUpdate(s, o))
  {
    EncodedHead(o, rest, data, at, end);
    KindTells(o);
    assert data[at + 0] == Encode(o)[0];
    next := at;
    if data[next] == NOP {
      FingerprintPush(finger, Param.Nop, 1, s);
      next := next + 1;
    } else if data[next] == SACKOK {
      FingerprintPush(finger, Param.Sack, 1, s);
      next := next + 2;
    } else if data[next] == MAXSEG {
      assert data[at + 2] == Encode(o)[2] && data[at + 3] == Encode(o)[3];
      next := next + 2;
      FingerprintPush(finger, Param.Mss, BigEndian(data[next], data[next + 1]), s);
      next := next + 2;
    } else if data[next] == WSCALE {
      assert data[at + 2] == Encode(o)[2];
      next := next + 2;
      FingerprintPush(finger, Param.Ws, data[next], s);
      next := next + 1;
    } else {
      assert data[at + 1] == Encode(o)[1];
      if data[next] == TIMESTAMP {
        FingerprintPush(finger, Param.Timestamp, 1, s);
      }
      next := next + 1;
      next := next + (data[next] - 1);
    }
  }

  /** The fields after each option, from those before the first. */
  function Trail(s: Slots, opts: seq<TcpOption>): (t: seq<Slots>)
    ensures |t| == |opts| + 1 && t[0] == s
    decreases |opts|
  {
    if opts == [] then [s] else [s] + Trail(OptionUpdate(s, opts[0]), opts[1..])
  }

  lemma {:induction false} TrailIs(s: Slots, opts: seq<TcpOption>)
    ensures Trail(s, opts)[|opts|] == UpdateAll(s, opts)
    ensures forall i :: 0 <= i < |opts| ==> Trail(s, opts)[i + 1] == OptionUpdate(Trail(s, opts)[i], opts[i])
    decreases |opts|
  {
    if opts != [] {
      TrailIs(OptionUpdate(s, opts[0]), opts[1..]);
    }
  }

  /** One option of the area: what follows before it and behind it, and the fields likewise. */
  ghost predicate Passes(o: TcpOption, rest: seq<Byte>, more: seq<Byte>, now: Slots, updated: Slots) {
    Proper(o) && rest == Encode(o) + more && updated == OptionUpdate(now, o)
  }

  lemma NoEndMarker(o: TcpOption, rest: seq<Byte>, more: seq<Byte>, now: Slots, updated: Slots)
    requires Passes(o, rest, more, now, updated)
    ensures rest != [] && rest[0] != EOL
  {
    KindTells(o);
  }

  /** The option loop. It visits exactly the places where the options start, and the end marker if
      there is one; it ends there or at the end of the area, and makes the updates of all options
      in turn. */
  method WalkOptions(data: seq<Byte>, start: nat, end: nat, finger: array<char>, ghost s: Slots, ghost opts: seq<TcpOption>, ghost padding: seq<Byte>)
    returns (ghost visited: seq<nat>)
    requires start <= end <= |data| && WellFormed(data[start..end], opts, padding)
    requires Holds(finger, s)
    modifies finger
    ensures Holds(finger, UpdateAll(s, opts))
    ensures visited == VisitedOf(opts, padding, start) && Walks(data, start, end, visited)
  {
    ghost var rests, trail := Rests(opts, padding), Trail(s, opts);
    PlacesAre(opts, start);
    RestsAre(opts, padding);
    TrailIs(s, opts);
    PlacesWalk(data, start, end, opts, padding);
    visited := WalkTrail(data, start, end, finger, opts, Places(opts, start), rests, trail);
  }

  /** The loop on an area laid out in advance. */
  method WalkTrail(data: seq<Byte>, start: nat, end: nat, finger: array<char>, ghost opts: seq<TcpOption>, ghost places: seq<nat>, ghost rests: seq<seq<Byte>>, ghost trail: seq<Slots>)
    returns (ghost visited: seq<nat>)
    requires |places| == |rests| == |trail| == |opts| + 1 && places[0] == start <= end <= |data|
    requires data[start..end] == rests[0] && Padding(rests[|opts|]) && Holds(finger, trail[0])
    requires forall i :: 0 <= i < |opts| ==> places[i + 1] == places[i] + Size(opts[i])
    requires forall i :: 0 <= i < |opts| ==> Passes(opts[i], rests[i], rests[i + 1], trail[i], trail[i + 1])
    modifies finger
    ensures Holds(finger, trail[|opts|])
    ensures visited == if rests[|opts|] == [] then places[..|opts|] else places
  {
    var at := start;
    ghost var k: nat := 0;
    visited := [];
    while at < end
      invariant k <= |opts| && at == places[k] <= end && data[at..end] == rests[k]
      invariant Holds(finger, trail[k]) && visited == places[..k]
      decreases end - at
    {
      assert data[at] == rests[k][0];
      visited := visited + [at];
      if k < |opts| {
        NoEndMarker(opts[k], rests[k], rests[k + 1], trail[k], trail[k + 1]);
      }
      if data[at] == EOL {
        at := end;
        return;
      }
      at := PassOption(data, at, end, finger, opts[k], rests[k + 1], trail[k]);
      k := k + 1;
    }
    if k < |opts| {
      NoEndMarker(opts[k], rests[k], rests[k + 1], trail[k], trail[k + 1]);
    }
  }

  lemma AreaDone(opts: seq<TcpOption>, padding: seq<Byte>)
    requires WellFormed([], opts, padding)
    ensures opts == [] && padding == []
  {
  }

  /** `tcp->off * 4` */
  function HeaderLength(tcp: seq<Byte>): nat
    requires |tcp| >= 20
  {
    tcp[12] / 0x10 * 4
  }

  predicate HasFlag(tcp: seq<Byte>, flag: Byte)
    requires |tcp| >= 20 && flag > 0
  {
    (tcp[13] / flag) % 2 == 1
  }

  /** The option area of a segment, which is empty if the offset is too small. */
  function OptionArea(tcp: seq<Byte>): seq<Byte>
    requires |tcp| >= 20 && HeaderLength(tcp) <= |tcp|
  {
    if HeaderLength(tcp) < 20 then [] else tcp[20..HeaderLength(tcp)]
  }

  /** Completes the fingerprint of a segment that opens a connection, and drops that of any other.
      The ports stay in the order of the packet. */
  method DecodeTcp(tcp: seq<Byte>, b: Bucket, ghost s: Slots, ghost opts: seq<TcpOption>, ghost padding: seq<Byte>)
    returns (len: nat, asks: nat, ghost visited: seq<nat>)
    requires |tcp| >= 20 && HeaderLength(tcp) <= |tcp|
    requires HasFlag(tcp, TH_SYN) ==> b.fingerprint != null && Holds(b.fingerprint, s)
                                      && WellFormed(OptionArea(tcp), opts, padding)
    modifies b, b.fingerprint
    ensures len == HeaderLength(tcp) && asks == BigEndian(tcp[2], tcp[3])
    ensures b.portSrc == BigEndian(tcp[1], tcp[0]) && b.portDst == BigEndian(tcp[3], tcp[2]) && b.proto == LN_TYPE_TCP
    ensures b.ipSrc == old(b.ipSrc) && b.ipDst == old(b.ipDst)
    ensures b.netProto == old(b.netProto) && b.ttl == old(b.ttl)
    ensures if HasFlag(tcp, TH_SYN) then
              b.fingerprint != null && b.fingerprint == old(b.fingerprint)
              && Holds(b.fingerprint,
                       UpdateAll(TcpSlots(s, BigEndian(tcp[14], tcp[15]), HasFlag(tcp, TH_ACK), tcp[12] / 0x10), opts))
            else b.fingerprint == null
    ensures HasFlag(tcp, TH_SYN) ==> Walks(tcp, 20, HeaderLength(tcp), visited)
    ensures HasFlag(tcp, TH_SYN) ==> visited == if HeaderLength(tcp) >= 20 then VisitedOf(opts, padding, 20) else []
  {
    len := HeaderLength(tcp);
    visited := [];
    b.portSrc, b.portDst, b.proto := BigEndian(tcp[1], tcp[0]), BigEndian(tcp[3], tcp[2]), LN_TYPE_TCP;
    if HasFlag(tcp, TH_SYN) {
      var q := b.fingerprint;
      var win, ack, off: nat := BigEndian(tcp[14], tcp[15]), HasFlag(tcp, TH_ACK), tcp[12] / 0x10;
      ghost var t := Update(s, Param.Window, win);
      ghost var u := Update(t, Param.TcpFlag, if ack then 1 else 0);
      FingerprintPush(q, Param.Window, win, s);
      FingerprintPush(q, Param.TcpFlag, if ack then 1 else 0, t);
      FingerprintPush(q, Param.Length, off * 4, u);
      ghost var v := TcpSlots(s, win, ack, off);
      if len >= 20 {
        visited := WalkOptions(tcp, 20, len, q, v, opts, padding);
      } else {
        AreaDone(opts, padding);
      }
    } else {
      b.fingerprint := null;
    }
    asks := BigEndian(tcp[2], tcp[3]);
  }

  // ----- both -----

  /** What a segment over IPv4 that opens a connection says. */
  function SynFeatures(ip: seq<Byte>, tcp: seq<Byte>, opts: seq<TcpOption>): Features
    requires |ip| >= 20 && |tcp| >= 20
  {
    NoteAll(HeaderFeatures(ip[8], DontFragment(ip), ip[0] % 16, BigEndian(tcp[14], tcp[15]), HasFlag(tcp, TH_ACK), tcp[12] / 0x10), opts)
  }

  lemma HeaderFeaturesAre(ip: seq<Byte>, tcp: seq<Byte>, opts: seq<TcpOption>)
    requires |ip| >= 20 && |tcp| >= 20
    ensures FromHeaders(SynFeatures(ip, tcp, opts), ip, tcp)
  {
    var h := SynFeatures(ip, tcp, []);
    NoteAllIs(h, opts);
    TtlRoundsUp(ip[8]);
  }

  lemma SynOctets(ip: seq<Byte>, tcp: seq<Byte>, opts: seq<TcpOption>, padding: seq<Byte>, visited: seq<nat>)
    requires |ip| >= 20 && |tcp| >= 20 && HeaderLength(tcp) <= |tcp| && WellFormed(OptionArea(tcp), opts, padding)
    requires visited == if HeaderLength(tcp) >= 20 then VisitedOf(opts, padding, 20) else []
    ensures OctetsSay(tcp, visited, SynFeatures(ip, tcp, opts))
  {
    var h := SynFeatures(ip, tcp, []);
    if HeaderLength(tcp) >= 20 {
      NotedIsSeen(h, tcp, 20, HeaderLength(tcp), opts, padding);
    } else {
      AreaDone(opts, padding);
    }
  }

  /** The fingerprint of the features is the one that the octets ask for. */
  lemma SynSays(ip: seq<Byte>, tcp: seq<Byte>, opts: seq<TcpOption>, padding: seq<Byte>, visited: seq<nat>)
    requires |ip| >= 20 && |tcp| >= 20 && HeaderLength(tcp) <= |tcp| && WellFormed(OptionArea(tcp), opts, padding)
    requires visited == if HeaderLength(tcp) >= 20 then VisitedOf(opts, padding, 20) else []
    requires SynFeatures(ip, tcp, opts).InRange()
    ensures var t := Render(SynFeatures(ip, tcp, opts)); HasColons(t) && HeadersSay(t, ip, tcp) && OptionsSay(t, tcp, visited)
  {
    var f := SynFeatures(ip, tcp, opts);
    SynOctets(ip, tcp, opts, padding, visited);
    HeaderFeaturesAre(ip, tcp, opts);
    RenderedColons(f);
    RenderSaysOptions(f, tcp, visited);
    RenderSaysHeaders(f, ip, tcp);
  }

  /** The same features by way of the fields. */
  lemma SynSlots(ip: seq<Byte>, tcp: seq<Byte>, opts: seq<TcpOption>)
    requires |ip| >= 20 && |tcp| >= 20
    ensures UpdateAll(
              TcpSlots(IpSlots(ip[8], DontFragment(ip), ip[0] % 16), BigEndian(tcp[14], tcp[15]), HasFlag(tcp, TH_ACK), tcp[12] / 0x10),
              opts)
            == SlotsOf(SynFeatures(ip, tcp, opts))
    ensures SynFeatures(ip, tcp, opts).InRange()
  {
    var h := SynFeatures(ip, tcp, []);
    HeaderSlots(ip[8], DontFragment(ip), ip[0] % 16, BigEndian(tcp[14], tcp[15]), HasFlag(tcp, TH_ACK), tcp[12] / 0x10);
    UpdateAllNotes(h, opts);
    NoteAllInRange(h, opts);
  }

  /** The two decoders together leave the fingerprint that says what the packet says, with its
      layout and its terminator: what every character means is said by the octets of the packet, for
      every segment with kind 6 in the IP header and the SYN flag whose options are well formed. */
  method FingerprintSyn(ip: seq<Byte>, tcp: seq<Byte>) returns (finger: array<char>, ghost visited: seq<nat>, ghost opts: seq<TcpOption>)
    requires |ip| >= 20 && ip[9] == 6 && |tcp| >= 20 && tcp[13] % 4 >= 2
    requires HeaderLength(tcp) <= |tcp| && WellFormedOctets(OptionArea(tcp))
    ensures finger.Length == 29 && finger[28] == '\0' && HasColons(finger[..28])
    ensures HeadersSay(finger[..28], ip, tcp)
    ensures Walks(tcp, 20, tcp[12] / 0x10 * 4, visited) && OptionsSay(finger[..28], tcp, visited)
    ensures exists padding :: WellFormed(OptionArea(tcp), opts, padding)
    ensures SynFeatures(ip, tcp, opts).InRange() && finger[..28] == Render(SynFeatures(ip, tcp, opts))
  {
    ghost var padding;
    opts, padding := Decoded(OptionArea(tcp));
    var b := new Bucket();
    var ipLen, proto := DecodeIp(ip, b);
    ghost var s := IpSlots(ip[8], DontFragment(ip), ip[0] % 16);
    var tcpLen, port;
    tcpLen, port, visited := DecodeTcp(tcp, b, s, opts, padding);
    finger := b.fingerprint;
    SynSlots(ip, tcp, opts);
    SynSays(ip, tcp, opts, padding, visited);
  }
}
