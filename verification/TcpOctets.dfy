/** The option area octet by octet, as section 3.2 of RFC 9293 numbers the kinds: which areas are
    well formed, where a walk looks, and what it finds there. */
module TcpOctets {
  import opened Wrappers
  import opened Digits
  import opened Buffers
  import opened Fingerprints
  import opened TcpOptions

  // ----- which areas are well formed -----

  /** An option of the right length: kind 1 has no length, kinds 2, 3 and 4 have 4, 3 and 2, and any
      other at least 2. */
  predicate StartsWithOption(area: seq<Byte>) {
    && area != [] && area[0] != 0
    && (area[0] != 1 ==>
          && |area| >= 2 && 2 <= area[1] <= |area|
          && (area[0] == 2 ==> area[1] == 4) && (area[0] == 3 ==> area[1] == 3) && (area[0] == 4 ==> area[1] == 2))
  }

  /** How many octets it takes. */
  function Length(area: seq<Byte>): (n: nat)
    requires StartsWithOption(area)
    ensures 1 <= n <= |area|
  {
    if area[0] == 1 then 1 else area[1]
  }

  /** The area is empty, or ends with kind 0, or starts with an option and goes on so behind it. */
  predicate WellFormedOctets(area: seq<Byte>) {
    area == [] || area[0] == 0 || (StartsWithOption(area) && WellFormedOctets(area[Length(area)..]))
  }

  /** The option at the start of an area. */
  function FirstOption(area: seq<Byte>): TcpOption
    requires StartsWithOption(area)
  {
    if area[0] == 1 then NoOperation
    else if area[0] == 2 then MaxSegment(area[2], area[3])
    else if area[0] == 3 then WindowScale(area[2])
    else if area[0] == 4 then SackPermitted
    else if area[0] == 8 then Timestamps(area[2..area[1]])
    else Unknown(area[0], area[2..area[1]])
  }

  lemma Cut(area: seq<Byte>, n: nat)
    requires n <= |area|
    ensures area == area[..n] + area[n..]
  {
  }

  lemma HeadOf(area: seq<Byte>, n: nat)
    requires 2 <= n <= |area|
    ensures area[..n] == [area[0], area[1]] + area[2..n]
    ensures n == 2 ==> area[..n] == [area[0], area[1]]
    ensures n == 3 ==> area[..n] == [area[0], area[1], area[2]]
    ensures n == 4 ==> area[..n] == [area[0], area[1], area[2], area[3]]
  {
  }

  lemma FirstOptionIs(area: seq<Byte>)
    requires StartsWithOption(area)
    ensures Proper(FirstOption(area)) && Encode(FirstOption(area)) == area[..Length(area)]
  {
    if area[0] == 1 {
      assert area[..1] == [area[0]];
    } else {
      HeadOf(area, area[1]);
    }
  }

  lemma FirstOptionEncoded(area: seq<Byte>)
    requires StartsWithOption(area)
    ensures Proper(FirstOption(area)) && area == Encode(FirstOption(area)) + area[Length(area)..]
  {
    FirstOptionIs(area);
    Cut(area, Length(area));
  }

  lemma WellFormedInFront(o: TcpOption, area: seq<Byte>, opts: seq<TcpOption>, padding: seq<Byte>)
    requires WellFormed(area, opts, padding) && Proper(o)
    ensures WellFormed(Encode(o) + area, [o] + opts, padding)
  {
    assert ([o] + opts)[1..] == opts;
    assert (Encode(o) + EncodeAll(opts)) + padding == Encode(o) + (EncodeAll(opts) + padding);
  }

  /** Such an area encodes a list of options. */
  lemma {:induction false} Decoded(area: seq<Byte>) returns (opts: seq<TcpOption>, padding: seq<Byte>)
    requires WellFormedOctets(area)
    ensures WellFormed(area, opts, padding)
    decreases |area|
  {
    if area == [] || area[0] == 0 {
      opts, padding := [], area;
      assert [] + area == area;
    } else {
      FirstOptionEncoded(area);
      opts, padding := Decoded(area[Length(area)..]);
      WellFormedInFront(FirstOption(area), area[Length(area)..], opts, padding);
      opts := [FirstOption(area)] + opts;
    }
  }

  /** What the octets of an encoded option are. */
  lemma EncodedOctets(o: TcpOption)
    requires Proper(o)
    ensures var e := Encode(o);
            && e[0] != 0 && (if e[0] == 1 then |e| == 1 else |e| >= 2 && e[1] == |e|)
            && (e[0] == 1 <==> o.NoOperation?) && (e[0] == 2 <==> o.MaxSegment?) && (e[0] == 3 <==> o.WindowScale?)
            && (e[0] == 4 <==> o.SackPermitted?) && (e[0] == 8 <==> o.Timestamps?)
    ensures o.MaxSegment? ==> |Encode(o)| == 4 && Encode(o)[2] == o.hi && Encode(o)[3] == o.lo
    ensures o.WindowScale? ==> |Encode(o)| == 3 && Encode(o)[2] == o.shift
    ensures o.SackPermitted? ==> |Encode(o)| == 2
  {
  }

  /** And an encoded list of options is such an area. */
  lemma {:induction false} EncodedIsWellFormed(opts: seq<TcpOption>, padding: seq<Byte>, area: seq<Byte>)
    requires WellFormed(area, opts, padding)
    ensures WellFormedOctets(area)
    decreases |opts|
  {
    if opts == [] {
      assert area == padding;
    } else {
      var rest := EncodeAll(opts[1..]) + padding;
      FirstEncoded(opts, padding);
      EncodedOctets(opts[0]);
      EncodedIsWellFormed(opts[1..], padding, rest);
      assert area[|Encode(opts[0])|..] == rest;
    }
  }

  // ----- where a walk looks -----

  /** After `at` the walk looks at `next`, or is over: a kind 0 ends it, a kind 1 is passed alone, any
      other with as many octets as its second one says. */
  ghost predicate Onward(data: seq<Byte>, at: nat, next: Option<nat>, end: nat) {
    && at < end <= |data|
    && if data[at] == 0 then next == None
       else
         && (data[at] != 1 ==> at + 1 < end)
         && var then_ := at + if data[at] == 1 then 1 else data[at + 1];
            then_ <= end && next == if then_ < end then Some(then_) else None
  }

  function NextOf(visited: seq<nat>, i: nat): Option<nat> {
    if i + 1 < |visited| then Some(visited[i + 1]) else None
  }

  /** A walk over `data[start..end]`. */
  ghost predicate Walks(data: seq<Byte>, start: nat, end: nat, visited: seq<nat>) {
    && (if visited == [] then start >= end else visited[0] == start)
    && forall i: nat :: i < |visited| ==> OnwardAt(data, end, visited, i)
  }

  ghost predicate OnwardAt(data: seq<Byte>, end: nat, visited: seq<nat>, i: nat) {
    i < |visited| && Onward(data, visited[i], NextOf(visited, i), end)
  }

  lemma OnwardIsUnique(data: seq<Byte>, at: nat, n: Option<nat>, m: Option<nat>, end: nat)
    requires Onward(data, at, n, end) && Onward(data, at, m, end)
    ensures n == m
  {
  }

  /** Octets say which walk it is. */
  lemma {:induction false} WalkIsUnique(data: seq<Byte>, start: nat, end: nat, v: seq<nat>, w: seq<nat>, i: nat)
    requires Walks(data, start, end, v) && Walks(data, start, end, w) && i < |v|
    ensures i < |w| && v[i] == w[i] && NextOf(v, i) == NextOf(w, i)
  {
    assert OnwardAt(data, end, v, i);
    if i == 0 {
      assert w != [] by {
        assert Onward(data, v[0], NextOf(v, 0), end);
      }
    } else {
      WalkIsUnique(data, start, end, v, w, i - 1);
    }
    assert OnwardAt(data, end, w, i);
    OnwardIsUnique(data, v[i], NextOf(v, i), NextOf(w, i), end);
  }

  // ----- what it finds there -----

  ghost predicate Seen(data: seq<Byte>, visited: seq<nat>, kind: Byte) {
    exists i :: 0 <= i < |visited| && visited[i] < |data| && data[visited[i]] == kind
  }

  /** The last place of a kind. */
  ghost predicate LastSeen(data: seq<Byte>, visited: seq<nat>, kind: Byte, p: nat) {
    exists i :: 0 <= i < |visited| && visited[i] == p < |data| && data[p] == kind
                && forall j :: i < j < |visited| ==> visited[j] < |data| && data[visited[j]] != kind
  }

  /** The high octet and the low one. */
  predicate IsNumber(n: Option<nat>, hi: Byte, lo: Byte) {
    n.Some? && n.value / 0x100 == hi && n.value % 0x100 == lo
  }

  /** The segment size is in the two octets behind the length of the last option of kind 2, the
      scale in the octet behind the length of the last of kind 3; kinds 1, 4 and 8 are flags. */
  ghost predicate OctetsSay(data: seq<Byte>, visited: seq<nat>, g: Features) {
    && (g.nop <==> Seen(data, visited, 1)) && (g.sack <==> Seen(data, visited, 4)) && (g.timestamp <==> Seen(data, visited, 8))
    && (g.mss.Some? <==> Seen(data, visited, 2)) && (g.ws.Some? <==> Seen(data, visited, 3))
    && (forall p: nat :: LastSeen(data, visited, 2, p) ==> p + 3 < |data| && IsNumber(g.mss, data[p + 2], data[p + 3]))
    && forall p: nat :: LastSeen(data, visited, 3, p) ==> p + 2 < |data| && g.ws == Some(data[p + 2])
  }

  /** Places and what is left at them fit together, from the start of the area. */
  ghost predicate FitsTogether(data: seq<Byte>, end: nat, opts: seq<TcpOption>, places: seq<nat>, rests: seq<seq<Byte>>) {
    && |places| == |rests| == |opts| + 1 && places[0] <= end <= |data| && data[places[0]..end] == rests[0]
    && forall i {:trigger places[i + 1]} {:trigger rests[i + 1]} {:trigger opts[i]} :: 0 <= i < |opts| ==>
         Proper(opts[i]) && places[i + 1] == places[i] + |Encode(opts[i])| && rests[i] == Encode(opts[i]) + rests[i + 1]
  }

  lemma AfterOption(data: seq<Byte>, p: nat, end: nat, e: seq<Byte>, more: seq<Byte>)
    requires p <= end <= |data| && data[p..end] == e + more
    ensures p + |e| <= end && data[p + |e|..end] == more
  {
    assert |data[p..end]| == |e| + |more|;
    assert data[p..end][|e|..] == data[p + |e|..end];
  }

  lemma {:induction false} RestAt(data: seq<Byte>, end: nat, opts: seq<TcpOption>, places: seq<nat>, rests: seq<seq<Byte>>, i: nat)
    requires FitsTogether(data, end, opts, places, rests) && i <= |opts|
    ensures places[i] <= end && data[places[i]..end] == rests[i]
  {
    if i > 0 {
      RestAt(data, end, opts, places, rests, i - 1);
      var o := opts[i - 1];
      AfterOption(data, places[i - 1], end, Encode(o), rests[i - 1 + 1]);
    }
  }

  lemma OctetsAt(data: seq<Byte>, p: nat, end: nat, e: seq<Byte>, more: seq<Byte>)
    requires p <= end <= |data| && data[p..end] == e + more
    ensures p + |e| <= end && forall k :: 0 <= k < |e| ==> data[p + k] == e[k]
  {
    assert |data[p..end]| == |e| + |more|;
    forall k | 0 <= k < |e| ensures data[p + k] == e[k] {
      assert data[p..end][k] == data[p + k];
    }
  }

  /** Option `o` stands at `p`, and `next` is behind it. */
  ghost predicate Stands(data: seq<Byte>, end: nat, o: TcpOption, p: nat, next: nat) {
    && Proper(o) && next == p + |Encode(o)| <= end <= |data|
    && forall k :: 0 <= k < |Encode(o)| ==> data[p + k] == Encode(o)[k]
  }

  /** The options stand at the places, and behind them stands the end marker or nothing. */
  ghost predicate LaidOut(data: seq<Byte>, end: nat, opts: seq<TcpOption>, places: seq<nat>, marked: bool) {
    && |places| == |opts| + 1 && places[|opts|] <= end <= |data|
    && (forall i :: 0 <= i < |opts| ==> Stands(data, end, opts[i], places[i], places[i + 1]))
    && if marked then places[|opts|] < end && data[places[|opts|]] == 0 else places[|opts|] == end
  }

  lemma FitsIsLaidOut(data: seq<Byte>, end: nat, opts: seq<TcpOption>, places: seq<nat>, rests: seq<seq<Byte>>)
    requires FitsTogether(data, end, opts, places, rests) && (rests[|opts|] == [] || rests[|opts|][0] == 0)
    ensures LaidOut(data, end, opts, places, rests[|opts|] != [])
  {
    forall i | 0 <= i < |opts| ensures Stands(data, end, opts[i], places[i], places[i + 1]) {
      RestAt(data, end, opts, places, rests, i);
      OctetsAt(data, places[i], end, Encode(opts[i]), rests[i + 1]);
    }
    RestAt(data, end, opts, places, rests, |opts|);
    var p := places[|opts|];
    if rests[|opts|] != [] {
      assert data[p..end][0] == data[p];
    }
  }

  lemma WellFormedIsLaidOut(data: seq<Byte>, start: nat, end: nat, opts: seq<TcpOption>, padding: seq<Byte>)
    requires start <= end <= |data| && WellFormed(data[start..end], opts, padding)
    ensures LaidOut(data, end, opts, Places(opts, start), padding != [])
  {
    PlacesAre(opts, start);
    RestsAre(opts, padding);
    FitsIsLaidOut(data, end, opts, Places(opts, start), Rests(opts, padding));
  }

  /** Where the walk looks: at the options, and at the end marker. */
  function LookedAt(places: seq<nat>, marked: bool): seq<nat>
    requires places != []
  {
    if marked then places else places[..|places| - 1]
  }

  function VisitedOf(opts: seq<TcpOption>, padding: seq<Byte>, start: nat): seq<nat> {
    LookedAt(Places(opts, start), padding != [])
  }

  lemma GoesOn(data: seq<Byte>, end: nat, o: TcpOption, p: nat, after: nat, next: Option<nat>)
    requires Stands(data, end, o, p, after) && next == if after < end then Some(after) else None
    ensures Onward(data, p, next, end)
  {
    EncodedOctets(o);
    assert data[p + 0] == Encode(o)[0] && (|Encode(o)| > 1 ==> data[p + 1] == Encode(o)[1]);
  }

  /** The places of the options, and the end marker, are a walk. */
  lemma LaidOutWalks(data: seq<Byte>, end: nat, opts: seq<TcpOption>, places: seq<nat>, marked: bool)
    requires LaidOut(data, end, opts, places, marked)
    ensures Walks(data, places[0], end, LookedAt(places, marked))
  {
    var visited := LookedAt(places, marked);
    forall i: nat | i < |visited| ensures OnwardAt(data, end, visited, i) {
      if i < |opts| {
        assert Stands(data, end, opts[i], places[i], places[i + 1]);
        if i + 1 < |opts| {
          assert Stands(data, end, opts[i + 1], places[i + 1], places[i + 2]);
        }
        GoesOn(data, end, opts[i], places[i], places[i + 1], NextOf(visited, i));
      }
    }
  }

  lemma PlacesWalk(data: seq<Byte>, start: nat, end: nat, opts: seq<TcpOption>, padding: seq<Byte>)
    requires start <= end <= |data| && WellFormed(data[start..end], opts, padding)
    ensures Walks(data, start, end, VisitedOf(opts, padding, start))
  {
    WellFormedIsLaidOut(data, start, end, opts, padding);
    LaidOutWalks(data, end, opts, Places(opts, start), padding != []);
  }

  /** The kind seen at each place. */
  ghost predicate KindsAre(data: seq<Byte>, visited: seq<nat>, opts: seq<TcpOption>) {
    && |opts| <= |visited| <= |opts| + 1
    && (forall i :: 0 <= i < |visited| ==> visited[i] < |data|)
    && (forall i :: 0 <= i < |opts| ==> KindIs(data, visited[i], opts[i]))
    && (|visited| > |opts| ==> data[visited[|opts|]] == 0)
  }

  ghost predicate KindIs(data: seq<Byte>, p: nat, o: TcpOption) {
    && p < |data| && data[p] != 0
    && (data[p] == 1 <==> o.NoOperation?) && (data[p] == 4 <==> o.SackPermitted?) && (data[p] == 8 <==> o.Timestamps?)
    && (data[p] == 2 <==> o.MaxSegment?) && (data[p] == 3 <==> o.WindowScale?)
    && (o.MaxSegment? ==> p + 3 < |data| && data[p + 2] == o.hi && data[p + 3] == o.lo)
    && (o.WindowScale? ==> p + 2 < |data| && data[p + 2] == o.shift)
  }

  lemma KindAt(data: seq<Byte>, end: nat, o: TcpOption, p: nat, next: nat)
    requires Stands(data, end, o, p, next)
    ensures KindIs(data, p, o)
  {
    var e := Encode(o);
    EncodedOctets(o);
    assert data[p + 0] == e[0] && (|e| > 2 ==> data[p + 2] == e[2]) && (|e| > 3 ==> data[p + 3] == e[3]);
  }

  lemma KindsSeen(data: seq<Byte>, end: nat, opts: seq<TcpOption>, places: seq<nat>, marked: bool)
    requires LaidOut(data, end, opts, places, marked)
    ensures KindsAre(data, LookedAt(places, marked), opts)
  {
    forall i | 0 <= i < |opts| ensures KindIs(data, places[i], opts[i]) {
      KindAt(data, end, opts[i], places[i], places[i + 1]);
    }
    var visited := LookedAt(places, marked);
    forall i | 0 <= i < |visited| ensures visited[i] < |data| {
      if i < |opts| {
        assert KindIs(data, places[i], opts[i]);
      }
    }
  }

  lemma FlagSeen(data: seq<Byte>, visited: seq<nat>, opts: seq<TcpOption>, kind: Byte, p: TcpOption -> bool)
    requires KindsAre(data, visited, opts) && kind != 0
    requires forall i :: 0 <= i < |opts| ==> (data[visited[i]] == kind <==> p(opts[i]))
    ensures Seen(data, visited, kind) <==> Any(opts, p)
  {
    if Seen(data, visited, kind) {
      var i :| 0 <= i < |visited| && visited[i] < |data| && data[visited[i]] == kind;
      assert p(opts[i]);
    }
    if Any(opts, p) {
      var i :| 0 <= i < |opts| && p(opts[i]);
      assert data[visited[i]] == kind;
    }
  }

  predicate IsSize(o: TcpOption) {
    o.MaxSegment?
  }

  predicate IsScale(o: TcpOption) {
    o.WindowScale?
  }

  /** The last option of a kind stands at the last place where it is seen. */
  lemma LastOption(data: seq<Byte>, visited: seq<nat>, opts: seq<TcpOption>, kind: Byte, p: nat) returns (i: nat)
    requires KindsAre(data, visited, opts) && kind != 0 && LastSeen(data, visited, kind, p)
    ensures i < |opts| && visited[i] == p && data[p] == kind
    ensures forall j :: i < j < |opts| ==> data[visited[j]] != kind
  {
    i :| 0 <= i < |visited| && visited[i] == p < |data| && data[p] == kind
         && forall j :: i < j < |visited| ==> visited[j] < |data| && data[visited[j]] != kind;
  }

  lemma SizeSeen(f: Features, data: seq<Byte>, visited: seq<nat>, opts: seq<TcpOption>)
    requires KindsAre(data, visited, opts) && f.mss == None
    ensures NoteAll(f, opts).mss.Some? <==> Seen(data, visited, 2)
    ensures forall p: nat :: LastSeen(data, visited, 2, p) ==>
                               p + 3 < |data| && IsNumber(NoteAll(f, opts).mss, data[p + 2], data[p + 3])
  {
    FlagSeen(data, visited, opts, 2, IsSize);
    SizeNoted(f, opts);
    forall p: nat | LastSeen(data, visited, 2, p)
      ensures p + 3 < |data| && IsNumber(NoteAll(f, opts).mss, data[p + 2], data[p + 3])
    {
      var i := LastOption(data, visited, opts, 2, p);
      assert KindIs(data, visited[i], opts[i]);
      forall j | i < j < |opts| ensures !opts[j].MaxSegment? {
        assert KindIs(data, visited[j], opts[j]);
      }
      LastSizeWins(f, opts, i);
    }
  }

  lemma ScaleSeen(f: Features, data: seq<Byte>, visited: seq<nat>, opts: seq<TcpOption>)
    requires KindsAre(data, visited, opts) && f.ws == None
    ensures NoteAll(f, opts).ws.Some? <==> Seen(data, visited, 3)
    ensures forall p: nat :: LastSeen(data, visited, 3, p) ==> p + 2 < |data| && NoteAll(f, opts).ws == Some(data[p + 2])
  {
    FlagSeen(data, visited, opts, 3, IsScale);
    ScaleNoted(f, opts);
    forall p: nat | LastSeen(data, visited, 3, p) ensures p + 2 < |data| && NoteAll(f, opts).ws == Some(data[p + 2]) {
      var i := LastOption(data, visited, opts, 3, p);
      assert KindIs(data, visited[i], opts[i]);
      forall j | i < j < |opts| ensures !opts[j].WindowScale? {
        assert KindIs(data, visited[j], opts[j]);
      }
      LastScaleWins(f, opts, i);
    }
  }

  lemma {:induction false} SizeNoted(f: Features, opts: seq<TcpOption>)
    ensures NoteAll(f, opts).mss.Some? <==> f.mss.Some? || Any(opts, IsSize)
    decreases |opts|
  {
    if opts != [] {
      SizeNoted(Note(f, opts[0]), opts[1..]);
      AnyStep(opts, IsSize);
    }
  }

  lemma {:induction false} ScaleNoted(f: Features, opts: seq<TcpOption>)
    ensures NoteAll(f, opts).ws.Some? <==> f.ws.Some? || Any(opts, IsScale)
    decreases |opts|
  {
    if opts != [] {
      ScaleNoted(Note(f, opts[0]), opts[1..]);
      AnyStep(opts, IsScale);
    }
  }

  ghost predicate NothingNoted(f: Features) {
    !f.nop && !f.sack && !f.timestamp && f.mss == None && f.ws == None
  }

  /** Noting the options of an area, when nothing is noted yet, says what its octets say. */
  lemma NotedIsSeen(f: Features, data: seq<Byte>, start: nat, end: nat, opts: seq<TcpOption>, padding: seq<Byte>)
    requires start <= end <= |data| && WellFormed(data[start..end], opts, padding) && NothingNoted(f)
    ensures OctetsSay(data, VisitedOf(opts, padding, start), NoteAll(f, opts))
  {
    var visited := VisitedOf(opts, padding, start);
    WellFormedIsLaidOut(data, start, end, opts, padding);
    KindsSeen(data, end, opts, Places(opts, start), padding != []);
    NoteAllIs(f, opts);
    FlagSeen(data, visited, opts, 1, IsNop);
    FlagSeen(data, visited, opts, 4, IsSack);
    FlagSeen(data, visited, opts, 8, IsTimestamp);
    SizeSeen(f, data, visited, opts);
    ScaleSeen(f, data, visited, opts);
  }

  // ----- what a fingerprint says -----

  /** Hexadecimal digits of a number of two octets, and of one. */
  predicate Shows(s: string, hi: Byte, lo: Byte) {
    IsHex(s) && ReadHex(s) / 0x100 == hi && ReadHex(s) % 0x100 == lo
  }

  predicate ShowsNumber(s: string, n: nat) {
    IsHex(s) && ReadHex(s) == n
  }

  predicate HasColons(t: string) {
    && |t| == 28
    && t[4] == t[9] == t[12] == t[15] == t[17] == t[19] == t[21] == t[23] == t[25] == ':'
    && InCase(t[..15], true) && InCase(t[26..], false)
  }

  /** The rounding of a time to live. */
  ghost predicate TtlRounded(r: nat, ttl: Byte) {
    if ttl == 0 then r == 2 else if ttl <= 0x80 then RoundsUp(r, ttl) else r == 0xff
  }

  /** What the headers of a segment over IPv4 leave in a fingerprint. */
  ghost predicate HeadersSay(t: string, ip: seq<Byte>, tcp: seq<Byte>)
    requires |t| == 28 && |ip| >= 20 && |tcp| >= 20
  {
    && Shows(t[0..4], tcp[14], tcp[15])
    && IsHex(t[10..12]) && TtlRounded(ReadHex(t[10..12]), ip[8])
    && t[20] == (if ip[6] % 0x80 >= 0x40 then '1' else '0')
    && t[24] == (if tcp[13] % 0x20 >= 0x10 then 'A' else 'S')
    && ShowsNumber(t[26..28], ip[0] % 0x10 * 4 + tcp[12] / 0x10 * 4)
  }

  /** What the options leave, by the octets a walk looks at. */
  ghost predicate OptionsSay(t: string, data: seq<Byte>, visited: seq<nat>)
    requires |t| == 28
  {
    && t[18] == (if Seen(data, visited, 1) then '1' else '0')
    && t[16] == (if Seen(data, visited, 4) then '1' else '0')
    && t[22] == (if Seen(data, visited, 8) then '1' else '0')
    && (!Seen(data, visited, 2) ==> t[5..9] == "_MSS") && (!Seen(data, visited, 3) ==> t[13..15] == "WS")
    && (forall p: nat :: LastSeen(data, visited, 2, p) ==> p + 3 < |data| && Shows(t[5..9], data[p + 2], data[p + 3]))
    && forall p: nat :: LastSeen(data, visited, 3, p) ==> p + 2 < |data| && ShowsNumber(t[13..15], data[p + 2])
  }

  /** What is seen at all is seen a last time. */
  lemma {:induction false} SeenHasLast(data: seq<Byte>, visited: seq<nat>, kind: Byte) returns (p: nat)
    requires Seen(data, visited, kind) && forall i :: 0 <= i < |visited| ==> visited[i] < |data|
    ensures LastSeen(data, visited, kind, p)
    decreases |visited|
  {
    var n := |visited| - 1;
    if data[visited[n]] == kind {
      p := visited[n];
    } else {
      var i :| 0 <= i < |visited| && visited[i] < |data| && data[visited[i]] == kind;
      assert visited[..n][i] == visited[i];
      p := SeenHasLast(data, visited[..n], kind);
      var k :| 0 <= k < n && visited[..n][k] == p < |data| && data[p] == kind
               && forall j :: k < j < n ==> visited[..n][j] < |data| && data[visited[..n][j]] != kind;
      forall j | k < j < |visited| ensures data[visited[j]] != kind {
        assert j < n ==> visited[..n][j] == visited[j];
      }
    }
  }

  lemma RenderedSlots(f: Features)
    requires f.InRange()
    ensures var t, s := Render(f), SlotsOf(f);
            && |t| == 28 && t[0..4] == s.window && t[5..9] == s.mss && t[10..12] == s.ttl && t[13..15] == s.ws
            && t[16..17] == s.sack && t[18..19] == s.nop && t[20..21] == s.df && t[22..23] == s.timestamp
            && t[24..25] == s.flag && t[26..28] == s.length
  {
    SlotsFit(f);
    CutText(SlotsOf(f));
  }

  lemma NumbersShown(f: Features)
    requires f.InRange()
    ensures var s := SlotsOf(f);
            && ShowsNumber(s.window, f.window) && ShowsNumber(s.ttl, f.ttl) && ShowsNumber(s.length, f.length)
            && (f.mss.Some? ==> ShowsNumber(s.mss, f.mss.value)) && (f.ws.Some? ==> ShowsNumber(s.ws, f.ws.value))
  {
    PaddedHexReadsBack(f.window, 4, true);
    PaddedHexReadsBack(f.ttl, 2, true);
    PaddedHexReadsBack(f.length, 2, false);
    if f.mss.Some? {
      PaddedHexReadsBack(f.mss.value, 4, true);
    }
    if f.ws.Some? {
      PaddedHexReadsBack(f.ws.value, 2, true);
    }
  }

  lemma SlotsInCase(f: Features)
    ensures var s := SlotsOf(f);
            InCase(s.window, true) && InCase(s.mss, true) && InCase(s.ttl, true) && InCase(s.ws, true) && InCase(s.length, false)
  {
    PaddedHexInCase(f.window, 4, true);
    PaddedHexInCase(f.ttl, 2, true);
    PaddedHexInCase(f.length, 2, false);
    if f.mss.Some? {
      PaddedHexInCase(f.mss.value, 4, true);
    }
    if f.ws.Some? {
      PaddedHexInCase(f.ws.value, 2, true);
    }
  }

  lemma ColonsAndCase(t: string, s: Slots)
    requires s.Fit() && t == Text(s)
    requires InCase(s.window, true) && InCase(s.mss, true) && InCase(s.ttl, true) && InCase(s.ws, true) && InCase(s.length, false)
    ensures HasColons(t)
  {
    forall i | 0 <= i < 28 ensures t[i] == LayoutAt(s, i) {
      TextAt(s, i);
    }
  }

  lemma RenderedColons(f: Features)
    requires f.InRange()
    ensures HasColons(Render(f))
  {
    SlotsFit(f);
    SlotsInCase(f);
    ColonsAndCase(Render(f), SlotsOf(f));
  }

  /** A slice of one character. */
  lemma One(t: string, i: nat, s: string)
    requires i < |t| && t[i..i + 1] == s
    ensures |s| == 1 && t[i] == s[0]
  {
  }

  lemma RenderedFlags(f: Features)
    requires f.InRange()
    ensures var t := Render(f);
            && |t| == 28
            && t[16] == (if f.sack then '1' else '0') && t[18] == (if f.nop then '1' else '0')
            && t[20] == (if f.df then '1' else '0') && t[22] == (if f.timestamp then '1' else '0')
            && t[24] == (if f.ack then 'A' else 'S')
  {
    var t := Render(f);
    RenderedSlots(f);
    One(t, 16, Bit(f.sack));
    One(t, 18, Bit(f.nop));
    One(t, 20, Bit(f.df));
    One(t, 22, Bit(f.timestamp));
    One(t, 24, if f.ack then "A" else "S");
  }

  lemma RenderSaysOptions(f: Features, data: seq<Byte>, visited: seq<nat>)
    requires f.InRange() && OctetsSay(data, visited, f)
    ensures |Render(f)| == 28 && OptionsSay(Render(f), data, visited)
  {
    RenderedSlots(f);
    RenderedFlags(f);
    NumbersShown(f);
  }

  ghost predicate FromHeaders(f: Features, ip: seq<Byte>, tcp: seq<Byte>)
    requires |ip| >= 20 && |tcp| >= 20
  {
    && f.window / 0x100 == tcp[14] && f.window % 0x100 == tcp[15]
    && TtlRounded(f.ttl, ip[8])
    && (f.df <==> ip[6] % 0x80 >= 0x40) && (f.ack <==> tcp[13] % 0x20 >= 0x10)
    && f.length == ip[0] % 0x10 * 4 + tcp[12] / 0x10 * 4
  }

  lemma RenderSaysHeaders(f: Features, ip: seq<Byte>, tcp: seq<Byte>)
    requires |ip| >= 20 && |tcp| >= 20 && f.InRange() && FromHeaders(f, ip, tcp)
    ensures |Render(f)| == 28 && HeadersSay(Render(f), ip, tcp)
  {
    RenderedSlots(f);
    RenderedFlags(f);
    NumbersShown(f);
  }
}
