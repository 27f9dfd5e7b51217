/** The statistics registry: a list of counters by type, and an iteration over it that keeps its
    place between calls. */
module Statistics {
  import opened Wrappers
  import opened Queues

  const WORD := 0x1_0000_0000

  /** A counter; `num` is an unsigned 32-bit number. */
  datatype Stat = Stat(kind: string, num: nat)

  // ----- the registry as a value -----

  predicate Distinct(s: seq<Stat>) {
    forall i, j :: 0 <= i < j < |s| ==> s[i].kind != s[j].kind
  }

  function IndexOf(s: seq<Stat>, kind: string): (r: Option<nat>)
    ensures r.None? ==> forall i :: 0 <= i < |s| ==> s[i].kind != kind
    ensures r.Some? ==> r.value < |s| && s[r.value].kind == kind && forall i :: 0 <= i < r.value ==> s[i].kind != kind
  {
    if s == [] then None
    else if s[0].kind == kind then Some(0)
    else match IndexOf(s[1..], kind)
      case None => None
      case Some(i) => Some(i + 1)
  }

  function Registered(s: seq<Stat>, kind: string): seq<Stat> {
    match IndexOf(s, kind)
    case Some(i) => s[i := Stat(kind, 0)]
    case None => [Stat(kind, 0)] + s
  }

  /** The type is there, behind another one. */
  predicate StandsBehind(s: seq<Stat>, kind: string) {
    match IndexOf(s, kind)
    case Some(i) => i > 0
    case None => false
  }

  function Bumped(e: Stat, kind: string, count: nat): Stat {
    if e.kind == kind then e.(num := (e.num + count) % WORD) else e
  }

  function Updated(s: seq<Stat>, kind: string, count: nat): (r: seq<Stat>)
    ensures |r| == |s| && forall i :: 0 <= i < |s| ==> r[i] == Bumped(s[i], kind, count)
  {
    seq(|s|, i requires 0 <= i < |s| => Bumped(s[i], kind, count))
  }

  /** The walk of an update: the first `i` entries are done. */
  ghost predicate UpdatedUpTo(before: seq<Stat>, kind: string, count: nat, i: nat, s: seq<Stat>) {
    && i <= |s| == |before|
    && (forall j :: 0 <= j < i ==> s[j] == Bumped(before[j], kind, count))
    && forall j :: i <= j < |s| ==> s[j] == before[j]
  }

  lemma UpdateNext(before: seq<Stat>, kind: string, count: nat, i: nat, s: seq<Stat>)
    requires UpdatedUpTo(before, kind, count, i, s) && i < |s|
    ensures UpdatedUpTo(before, kind, count, i + 1, s[i := Bumped(s[i], kind, count)])
    ensures s[i].kind != kind ==> s[i := Bumped(s[i], kind, count)] == s
  {
  }

  lemma UpdateEnds(before: seq<Stat>, kind: string, count: nat, s: seq<Stat>)
    requires UpdatedUpTo(before, kind, count, |s|, s)
    ensures s == Updated(before, kind, count)
  {
  }

  function Lookup(s: seq<Stat>, kind: string): nat {
    match IndexOf(s, kind)
    case Some(i) => s[i].num
    case None => 0
  }

  // ----- what a history of calls amounts to -----

  datatype Op = Register(kind: string) | Update(kind: string, count: nat)

  function Applied(s: seq<Stat>, op: Op): seq<Stat> {
    match op
    case Register(kind) => Registered(s, kind)
    case Update(kind, count) => Updated(s, kind, count)
  }

  function Replay(ops: seq<Op>): seq<Stat> {
    if ops == [] then [] else Applied(Replay(ops[..|ops| - 1]), ops[|ops| - 1])
  }

  function Summed(sum: Option<nat>, op: Op, kind: string): Option<nat> {
    match op
    case Register(k) => if k == kind then Some(0) else sum
    case Update(k, count) => if k == kind && sum.Some? then Some(sum.value + count) else sum
  }

  /** The sum of the updates of a type since it was last registered; None if it never was. */
  function SumSince(ops: seq<Op>, kind: string): Option<nat> {
    if ops == [] then None else Summed(SumSince(ops[..|ops| - 1], kind), ops[|ops| - 1], kind)
  }

  lemma IndexIsUnique(s: seq<Stat>, kind: string, i: nat)
    requires Distinct(s) && i < |s| && s[i].kind == kind
    ensures IndexOf(s, kind) == Some(i)
  {
  }

  /** Registering a type that is there, and one that is not. */
  lemma RegisteredAgain(s: seq<Stat>, kind: string, i: nat, r: seq<Stat>)
    requires Distinct(s) && IndexOf(s, kind) == Some(i) && r == s[i := Stat(kind, 0)]
    ensures r == Registered(s, kind) && Distinct(r) && |r| == |s|
  {
  }

  lemma RegisteredFirst(s: seq<Stat>, kind: string, r: seq<Stat>)
    requires Distinct(s) && IndexOf(s, kind) == None && r == [Stat(kind, 0)] + s
    ensures r == Registered(s, kind) && Distinct(r) && |r| == |s| + 1
  {
  }

  lemma LookupRegistered(s: seq<Stat>, kind: string, other: string)
    requires Distinct(s)
    ensures var r := Registered(s, kind);
            && Distinct(r)
            && Lookup(r, other) == (if other == kind then 0 else Lookup(s, other))
            && (IndexOf(r, other).Some? <==> other == kind || IndexOf(s, other).Some?)
  {
    var r := Registered(s, kind);
    var at, found := IndexOf(s, kind), IndexOf(s, other);
    if at.Some? {
      RegisteredAgain(s, kind, at.value, r);
    } else {
      RegisteredFirst(s, kind, r);
    }
    if other == kind {
      IndexIsUnique(r, other, if at.Some? then at.value else 0);
    } else if found.Some? {
      IndexIsUnique(r, other, if at.Some? then found.value else found.value + 1);
    }
  }

  lemma UpdatedIndex(s: seq<Stat>, kind: string, count: nat, other: string)
    requires Distinct(s)
    ensures Distinct(Updated(s, kind, count)) && IndexOf(Updated(s, kind, count), other) == IndexOf(s, other)
  {
    var r, found := Updated(s, kind, count), IndexOf(s, other);
    assert Distinct(r);
    if found.Some? {
      IndexIsUnique(r, other, found.value);
    }
  }

  lemma LookupUpdated(s: seq<Stat>, kind: string, count: nat, other: string)
    requires Distinct(s)
    ensures var r, found := Updated(s, kind, count), IndexOf(s, other);
            && Distinct(r)
            && IndexOf(r, other) == found
            && Lookup(r, other) == if other == kind && found.Some? then (Lookup(s, other) + count) % WORD else Lookup(s, other)
  {
    UpdatedIndex(s, kind, count, other);
    LookupBumped(s, Updated(s, kind, count), kind, count, other);
  }

  lemma LookupBumped(s: seq<Stat>, r: seq<Stat>, kind: string, count: nat, other: string)
    requires |r| == |s| && IndexOf(r, other) == IndexOf(s, other)
    requires IndexOf(s, other).Some? ==> var i := IndexOf(s, other).value; r[i] == Bumped(s[i], kind, count)
    ensures Lookup(r, other)
            == if other == kind && IndexOf(s, other).Some? then (Lookup(s, other) + count) % WORD else Lookup(s, other)
  {
  }

  lemma ModAdds(a: nat, b: nat)
    ensures (a % WORD + b) % WORD == (a + b) % WORD
  {
  }

  ghost predicate Counts(s: seq<Stat>, sum: Option<nat>, kind: string) {
    && Distinct(s)
    && (IndexOf(s, kind).Some? <==> sum.Some?)
    && Lookup(s, kind) == if sum.Some? then sum.value % WORD else 0
  }

  lemma RegisterCounts(s: seq<Stat>, sum: Option<nat>, k: string, kind: string)
    requires Counts(s, sum, kind)
    ensures Counts(Applied(s, Register(k)), Summed(sum, Register(k), kind), kind)
  {
    LookupRegistered(s, k, kind);
  }

  lemma UpdateCounts(s: seq<Stat>, sum: Option<nat>, k: string, count: nat, kind: string)
    requires Counts(s, sum, kind)
    ensures Counts(Applied(s, Update(k, count)), Summed(sum, Update(k, count), kind), kind)
  {
    LookupUpdated(s, k, count, kind);
    CountsAfterUpdate(s, Updated(s, k, count), sum, k, count, kind);
  }

  lemma CountsAfterUpdate(s: seq<Stat>, r: seq<Stat>, sum: Option<nat>, k: string, count: nat, kind: string)
    requires Counts(s, sum, kind) && Distinct(r) && IndexOf(r, kind) == IndexOf(s, kind)
    requires Lookup(r, kind) == if kind == k && IndexOf(s, kind).Some? then (Lookup(s, kind) + count) % WORD else Lookup(s, kind)
    ensures Counts(r, Summed(sum, Update(k, count), kind), kind)
  {
    if sum.Some? {
      ModAdds(sum.value, count);
    }
  }

  lemma AppliedCounts(s: seq<Stat>, sum: Option<nat>, op: Op, kind: string)
    requires Counts(s, sum, kind)
    ensures Counts(Applied(s, op), Summed(sum, op, kind), kind)
  {
    match op {
      case Register(k) => RegisterCounts(s, sum, k, kind);
      case Update(k, count) => UpdateCounts(s, sum, k, count, kind);
    }
  }

  /** After every history the types are distinct, a type has an entry exactly if it was ever
      registered, and its count is the sum modulo 2^32 of its updates since it last was. */
  lemma {:induction false} ReplayCounts(ops: seq<Op>, kind: string)
    ensures Counts(Replay(ops), SumSince(ops, kind), kind)
  {
    if ops != [] {
      var before := ops[..|ops| - 1];
      ReplayCounts(before, kind);
      AppliedCounts(Replay(before), SumSince(before, kind), ops[|ops| - 1], kind);
    }
  }

  /** The types registered in a history. */
  function Kinds(ops: seq<Op>): set<string> {
    if ops == [] then {}
    else
      var last, before := ops[|ops| - 1], Kinds(ops[..|ops| - 1]);
      if last.Register? then before + {last.kind} else before
  }

  function KindsOf(s: seq<Stat>): set<string> {
    if s == [] then {} else {s[0].kind} + KindsOf(s[1..])
  }

  lemma {:induction false} KindsOfMembers(s: seq<Stat>, kind: string)
    ensures kind in KindsOf(s) <==> IndexOf(s, kind).Some?
  {
    if s != [] {
      KindsOfMembers(s[1..], kind);
    }
  }

  lemma {:induction false} KindsOfSize(s: seq<Stat>)
    requires Distinct(s)
    ensures |KindsOf(s)| == |s|
  {
    if s != [] {
      KindsOfSize(s[1..]);
      KindsOfMembers(s[1..], s[0].kind);
    }
  }

  lemma {:induction false} SumSinceRegistered(ops: seq<Op>, kind: string)
    ensures SumSince(ops, kind).Some? <==> kind in Kinds(ops)
  {
    if ops != [] {
      SumSinceRegistered(ops[..|ops| - 1], kind);
    }
  }

  /** The registry has one entry for each type ever registered. */
  lemma ReplayLength(ops: seq<Op>)
    ensures |Replay(ops)| == |Kinds(ops)|
  {
    var s := Replay(ops);
    ReplayCounts(ops, "");
    forall kind ensures kind in KindsOf(s) <==> kind in Kinds(ops) {
      ReplayCounts(ops, kind);
      SumSinceRegistered(ops, kind);
      KindsOfMembers(s, kind);
    }
    assert KindsOf(s) == Kinds(ops);
    KindsOfSize(s);
  }

  // ----- the registry in memory -----

  /** The static cursor of the iteration: all ones before the first call, then a list element
      or null. */
  datatype Cursor = Fresh | At(node: Node?<Stat>)

  lemma SliceGrows(all: seq<Stat>, p: nat, i: nat)
    requires p <= i < |all|
    ensures all[p..i] + [all[i]] == all[p..i + 1]
  {
  }

  class Registry {
    const list: LinkedList<Stat>
    var entries: nat
    var cursor: Cursor

    ghost predicate Valid()
      reads this, list, list.nodes
    {
      list.Valid() && Distinct(list.Contents())
    }

    /** What get_stat_count promises, until free_stats is called. */
    ghost predicate Counted()
      reads this, list
    {
      entries == |list.nodes| % WORD
    }

    constructor ()
      ensures Valid() && Counted() && list.nodes == [] && cursor == Fresh && fresh(list)
    {
      list := new LinkedList<Stat>();
      entries, cursor := 0, Fresh;
    }

    /** The walk for the entry of a type. */
    method FindStat(kind: string) returns (current: Node?<Stat>, ghost i: nat)
      requires Valid()
      ensures current == null ==> IndexOf(list.Contents(), kind) == None
      ensures current != null ==> i < |list.nodes| && list.nodes[i] == current && IndexOf(list.Contents(), kind) == Some(i)
    {
      current := list.first;
      i := 0;
      while current != null
        invariant 0 <= i <= |list.nodes| && current == if i < |list.nodes| then list.nodes[i] else null
        invariant forall j :: 0 <= j < i ==> list.Contents()[j].kind != kind
        decreases |list.nodes| - i
      {
        if current.data.kind == kind {
          IndexIsUnique(list.Contents(), kind, i);
          return;
        }
        current := current.next;
        i := i + 1;
      }
    }

    /** The element of the type `kind` is put in its place, or in front of all others. The cursor
        stays where it is, and that is still the start of the list exactly if the iteration has
        not begun yet or the type stands there already and not in front; in front of a new type
        it is one off. */
    method RegisterStat(kind: string)
      requires Valid()
      modifies this, list, list.nodes
      ensures Valid() && list.Contents() == Registered(old(list.Contents()), kind)
      ensures old(Counted()) ==> Counted()
      ensures cursor == old(cursor)
      ensures old(CursorAt(0)) ==> (CursorAt(0) <==> cursor.Fresh? || StandsBehind(old(list.Contents()), kind))
      ensures old(CursorAt(0)) && cursor.At? && IndexOf(old(list.Contents()), kind).None? ==> CursorAt(1)
    {
      var newelem := new Node(Stat(kind, 0));
      var current;
      ghost var i;
      current, i := FindStat(kind);
      if current != null {
        PutInPlace(kind, current, newelem, i);
      } else {
        PutInFront(kind, newelem);
      }
    }

    method PutInPlace(kind: string, current: Node<Stat>, newelem: Node<Stat>, ghost i: nat)
      requires Valid() && newelem !in list.nodes && newelem.data == Stat(kind, 0) && cursor != At(newelem)
      requires i < |list.nodes| && list.nodes[i] == current && IndexOf(list.Contents(), kind) == Some(i)
      modifies list, list.nodes, newelem
      ensures Valid() && list.Contents() == Registered(old(list.Contents()), kind) && |list.nodes| == |old(list.nodes)|
      ensures old(CursorAt(0)) ==> (CursorAt(0) <==> cursor.Fresh? || i > 0)
    {
      ghost var before := list.Contents();
      list.Replace(current, newelem, i);
      RegisteredAgain(before, kind, i, list.Contents());
    }

    method PutInFront(kind: string, newelem: Node<Stat>)
      requires Valid() && newelem !in list.nodes && newelem.data == Stat(kind, 0) && cursor != At(newelem)
      requires IndexOf(list.Contents(), kind) == None
      modifies `entries, list, list.nodes, newelem
      ensures Valid() && list.Contents() == Registered(old(list.Contents()), kind) && (old(Counted()) ==> Counted())
      ensures old(CursorAt(0)) && cursor.At? ==> !CursorAt(0) && CursorAt(1)
      ensures old(CursorAt(0)) && cursor.Fresh? ==> CursorAt(0)
    {
      ghost var before := list.Contents();
      list.InsertHead(newelem);
      RegisteredFirst(before, kind, list.Contents());
      ModAdds(|before|, 1);
      entries := (entries + 1) % WORD;
    }

    method UpdateStat(kind: string, count: nat)
      requires Valid() && count < WORD
      modifies list.nodes
      ensures Valid() && list.nodes == old(list.nodes)
      ensures list.Contents() == Updated(old(list.Contents()), kind, count)
    {
      ghost var before := list.Contents();
      LookupUpdated(before, kind, count, kind);
      var current := list.first;
      ghost var i := 0;
      while current != null
        invariant 0 <= i <= |list.nodes| && list.Valid() && list.nodes == old(list.nodes)
        invariant current == if i < |list.nodes| then list.nodes[i] else null
        invariant UpdatedUpTo(before, kind, count, i, list.Contents())
        decreases |list.nodes| - i
      {
        UpdateNext(before, kind, count, i, list.Contents());
        if current.data.kind == kind {
          list.SetData(current, Bumped(current.data, kind, count), i);
        }
        current := current.next;
        i := i + 1;
      }
      UpdateEnds(before, kind, count, list.Contents());
    }

    method GetStat(kind: string) returns (num: nat)
      requires Valid()
      ensures num == Lookup(list.Contents(), kind)
    {
      var current;
      ghost var i;
      current, i := FindStat(kind);
      num := if current != null then current.data.num else 0;
    }

    method GetStatCount() returns (n: nat)
      ensures n == entries
      ensures Counted() ==> n == |list.Contents()| % WORD
    {
      n := entries;
    }

    /** The next call gives entry `p`, or ends the cycle if there is none. */
    ghost predicate CursorAt(p: nat)
      reads this, list
    {
      p <= |list.nodes|
      && match cursor
         case Fresh => p == 0
         case At(node) => node == if p < |list.nodes| then list.nodes[p] else null
    }

    /** A call at entry `i` has given it and moved on, or there is none and the cycle starts over. */
    ghost predicate Gave(i: nat, more: bool, kind: string, num: nat)
      reads this, list, list.nodes
    {
      && i <= |list.nodes| && cursor.At? && (more <==> i < |list.nodes|)
      && if more then Stat(kind, num) == list.Contents()[i] && CursorAt(i + 1) else CursorAt(0)
    }

    /** One step of the iteration. Called for the first time, it needs an entry. */
    method GetAllStats(ghost p: nat) returns (more: bool, kind: string, num: nat)
      requires Valid() && CursorAt(p) && (cursor.Fresh? ==> list.nodes != [])
      modifies `cursor
      ensures Gave(p, more, kind, num)
    {
      if cursor.Fresh? {
        var current := list.first;
        cursor := At(current.next);
        return true, current.data.kind, current.data.num;
      }
      if cursor.node == null {
        cursor := At(list.first);
      } else {
        var current := cursor.node;
        cursor := At(current.next);
        return true, current.data.kind, current.data.num;
      }
      more, kind, num := false, "", 0;
    }

    /** The loop of the statistics window: from the entry the cursor is at, one cycle gives every
        entry once, in list order, and leaves the iteration at its start for the next cycle. */
    method RefreshStatistics(ghost p: nat) returns (rows: seq<Stat>)
      requires Valid() && CursorAt(p) && (cursor.Fresh? ==> list.nodes != [])
      modifies `cursor
      ensures rows == list.Contents()[p..]
      ensures CursorAt(0) && cursor.At?
    {
      ghost var all, i := list.Contents(), p;
      rows := [];
      var more, kind, num := GetAllStats(i);
      while more
        invariant p <= i && Gave(i, more, kind, num)
        invariant list.Contents() == all && rows == all[p..i]
        decreases |all| - i, more
      {
        SliceGrows(all, p, i);
        rows := rows + [Stat(kind, num)];
        i := i + 1;
        more, kind, num := GetAllStats(i);
      }
    }

    /** Empties the list; the entry count stays as it was. */
    method FreeStats()
      requires Valid()
      modifies list, list.nodes
      ensures Valid() && list.nodes == [] && entries == old(entries)
    {
      ghost var all := list.nodes;
      while list.first != null
        invariant Valid() && list.nodes == all[|all| - |list.nodes|..] && |list.nodes| <= |all|
        decreases |list.nodes|
      {
        list.Remove(list.first, 0);
      }
    }
  }
}
