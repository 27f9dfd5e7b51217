/** The table of known fingerprints: 128 chains, filled from the lines of a file. */
module FingerprintTable {
  import opened Wrappers
  import opened Strings
  import opened Digits
  import opened Buffers
  import opened Hash
  import opened Queues
  import opened Fingerprints
  import opened TcpOptions

  const OS_LEN := 60

  datatype Known = Known(finger: string, os: string)

  /** The characters of a key as unsigned bytes. */
  function Octets(s: string): (b: seq<Byte>)
    ensures |b| == |s|
  {
    seq(|s|, i requires 0 <= i < |s| => s[i] as int % 0x100)
  }

  function BucketOf(finger: string, word: nat): (i: nat)
    requires word > 0
    ensures i < TABSIZE
  {
    Bucket(Octets(finger), word)
  }

  // ----- the table as a list -----

  /** The entry loaded last for a key, in a list with the newest first. */
  function FindNewest(loads: seq<Known>, finger: string): Option<string> {
    if loads == [] then None
    else if loads[0].finger == finger then Some(loads[0].os)
    else FindNewest(loads[1..], finger)
  }

  /** What the list gives: the value of the latest equal key, nothing exactly if there is none. */
  lemma {:induction false} FindNewestIs(loads: seq<Known>, finger: string)
    ensures match FindNewest(loads, finger)
            case None => forall i :: 0 <= i < |loads| ==> loads[i].finger != finger
            case Some(os) => exists i :: 0 <= i < |loads| && loads[i] == Known(finger, os)
                                         && forall j :: 0 <= j < i ==> loads[j].finger != finger
  {
    if loads != [] {
      FindNewestIs(loads[1..], finger);
      if loads[0].finger == finger {
        assert loads[0] == Known(finger, loads[0].os);
      } else if FindNewest(loads, finger).Some? {
        var os := FindNewest(loads, finger).value;
        var i :| 0 <= i < |loads[1..]| && loads[1..][i] == Known(finger, os)
                 && forall j :: 0 <= j < i ==> loads[1..][j].finger != finger;
        assert loads[i + 1] == Known(finger, os);
      } else {
        assert forall i :: 0 < i < |loads| ==> loads[i] == loads[1..][i - 1];
      }
    }
  }

  /** The entries that belong to chain `i`. */
  function InBucket(loads: seq<Known>, i: nat, word: nat): seq<Known>
    requires word > 0
  {
    if loads == [] then []
    else (if BucketOf(loads[0].finger, word) == i then [loads[0]] else []) + InBucket(loads[1..], i, word)
  }

  /** A key is to be looked for in its own chain only. */
  lemma {:induction false} ChainSuffices(loads: seq<Known>, finger: string, word: nat)
    requires word > 0
    ensures FindNewest(InBucket(loads, BucketOf(finger, word), word), finger) == FindNewest(loads, finger)
  {
    if loads != [] {
      var rest := InBucket(loads[1..], BucketOf(finger, word), word);
      ChainSuffices(loads[1..], finger, word);
      assert ([loads[0]] + rest)[1..] == rest;
      assert [] + rest == rest;
    }
  }

  function Buckets(loads: seq<Known>, word: nat): seq<seq<Known>>
    requires word > 0
  {
    seq(TABSIZE, i requires 0 <= i < TABSIZE => InBucket(loads, i, word))
  }

  lemma BucketsInFront(e: Known, loads: seq<Known>, word: nat)
    requires word > 0
    ensures var b := BucketOf(e.finger, word);
            Buckets([e] + loads, word) == Buckets(loads, word)[b := [e] + Buckets(loads, word)[b]]
  {
    var b := BucketOf(e.finger, word);
    forall i: nat | i < TABSIZE
      ensures InBucket([e] + loads, i, word) == if b == i then [e] + InBucket(loads, i, word) else InBucket(loads, i, word)
    {
      assert ([e] + loads)[1..] == loads;
      assert [] + InBucket(loads, i, word) == InBucket(loads, i, word);
    }
  }

  // ----- the lines of the file -----

  /** What is left of a line when a comment is cut off. */
  function Uncommented(line: string): (t: string)
    ensures t <= line && '#' !in t && (t == line || line[|t|] == '#')
  {
    match Find(line, '#')
    case Some(i) => line[..i]
    case None => line
  }

  /** The lines that say something, without their comments. */
  function Kept(lines: seq<string>): seq<string> {
    if lines == [] then []
    else
      var before, line := Kept(lines[..|lines| - 1]), Uncommented(lines[|lines| - 1]);
      if line == "" then before else before + [line]
  }

  /** The key buffer after a line is copied into it; what stands behind the terminator stays. */
  function Copied(buf: seq<char>, line: string): (r: seq<char>)
    requires |buf| == FINGER_LEN + 1
    ensures |r| == FINGER_LEN + 1
  {
    var key := Truncated(line, FINGER_LEN);
    key + [NUL] + buf[|key| + 1..]
  }

  /** What the lines load, newest first, and the key buffer after them. */
  function Loaded(lines: seq<string>, buf: seq<char>): (r: (seq<Known>, seq<char>))
    requires |buf| == FINGER_LEN + 1
    ensures |r.1| == FINGER_LEN + 1
  {
    if lines == [] then ([], buf) else LoadedMore(Loaded(lines[..|lines| - 1], buf), Uncommented(lines[|lines| - 1]))
  }

  /** What one more line does. */
  function LoadedMore(r: (seq<Known>, seq<char>), line: string): (seq<Known>, seq<char>)
    requires |r.1| == FINGER_LEN + 1
  {
    if line == "" then r
    else
      var c := Copied(r.1, line);
      ([Known(c[..FINGER_LEN], Truncated(line, OS_LEN))] + r.0, c)
  }

  lemma LoadedNext(lines: seq<string>, k: nat, buf: seq<char>)
    requires k < |lines| && |buf| == FINGER_LEN + 1
    ensures Loaded(lines[..k + 1], buf) == LoadedMore(Loaded(lines[..k], buf), Uncommented(lines[k]))
  {
    assert lines[..k + 1][..k] == lines[..k];
  }

  lemma LoadedMoreInFront(loads: seq<Known>, before: seq<Known>, buf: seq<char>, line: string)
    requires |buf| == FINGER_LEN + 1
    ensures var r := LoadedMore((loads, buf), line);
            && LoadedMore((loads + before, buf), line) == (r.0 + before, r.1)
            && |r.0| == if line != "" then |loads| + 1 else |loads|
  {
    if line != "" {
      var c := Copied(buf, line);
      var e := Known(c[..FINGER_LEN], Truncated(line, OS_LEN));
      assert [e] + (loads + before) == ([e] + loads) + before;
    }
  }

  /** Entry `e` is what a line loads: its first 27 characters and a NUL at the start of the key, and
      its first 59 characters as the name. */
  ghost predicate ComesFrom(e: Known, line: string) {
    && |e.finger| == 28 && (if |line| < 28 then line else line[..27]) + ['\0'] <= e.finger
    && e.os == if |line| < 60 then line else line[..59]
  }

  lemma CopiedComesFrom(buf: seq<char>, line: string)
    requires |buf| == FINGER_LEN + 1
    ensures ComesFrom(Known(Copied(buf, line)[..FINGER_LEN], Truncated(line, OS_LEN)), line)
  {
    var key, c := Truncated(line, FINGER_LEN), Copied(buf, line);
    assert c[..|key| + 1] == key + [NUL];
    assert c[..FINGER_LEN][..|key| + 1] == c[..|key| + 1];
  }

  /** The loads are the kept lines from the last to the first, and every key holds a NUL. */
  lemma {:induction false} LoadedComesFrom(lines: seq<string>, buf: seq<char>)
    requires |buf| == FINGER_LEN + 1
    ensures AllComeFrom(Loaded(lines, buf).0, Kept(lines))
  {
    if lines != [] {
      var before, line := lines[..|lines| - 1], Uncommented(lines[|lines| - 1]);
      LoadedComesFrom(before, buf);
      LineComesFrom(Loaded(before, buf), Kept(before), line);
    }
  }

  ghost predicate AllComeFrom(loads: seq<Known>, kept: seq<string>) {
    && |loads| == |kept|
    && forall i :: 0 <= i < |loads| ==> ComesFrom(loads[i], kept[|kept| - 1 - i]) && HasNul(loads[i].finger)
  }

  lemma LineComesFrom(r: (seq<Known>, seq<char>), kept: seq<string>, line: string)
    requires |r.1| == FINGER_LEN + 1 && AllComeFrom(r.0, kept)
    ensures AllComeFrom(LoadedMore(r, line).0, if line == "" then kept else kept + [line])
  {
    if line != "" {
      CopiedComesFrom(r.1, line);
      var e := LoadedMore(r, line).0[0];
      assert e.finger[|Truncated(line, FINGER_LEN)|] == NUL;
    }
  }

  /** Keys as the loader makes them hold a NUL, because the copy is cut one short of the key
      length; a fingerprint of a packet holds none. */
  predicate HasNul(finger: string) {
    NUL in finger
  }

  lemma NumberHasNoNul(n: nat, width: nat, upper: bool)
    ensures NUL !in PaddedHex(n, width, upper)
  {
    PaddedHexReadsBack(n, width, upper);
    assert DigitValue(NUL) == None;
  }

  lemma TextHasNoNul(s: Slots)
    requires s.Fit()
    requires NUL !in s.window && NUL !in s.mss && NUL !in s.ttl && NUL !in s.ws && NUL !in s.sack
    requires NUL !in s.nop && NUL !in s.df && NUL !in s.timestamp && NUL !in s.flag && NUL !in s.length
    ensures NUL !in Text(s)
  {
    forall i | 0 <= i < FINGER_LEN ensures Text(s)[i] != NUL {
      TextAt(s, i);
    }
  }

  lemma RenderHasNoNul(f: Features)
    requires f.InRange()
    ensures NUL !in Render(f)
  {
    SlotsFit(f);
    NumberHasNoNul(f.window, 4, true);
    NumberHasNoNul(f.ttl, 2, true);
    NumberHasNoNul(f.length, 2, false);
    if f.mss.Some? {
      NumberHasNoNul(f.mss.value, 4, true);
    }
    if f.ws.Some? {
      NumberHasNoNul(f.ws.value, 2, true);
    }
    TextHasNoNul(SlotsOf(f));
  }

  /** So no fingerprint of a packet is ever found among keys with a NUL. */
  lemma {:induction false} LiveFingerprintNotFound(loads: seq<Known>, f: Features)
    requires f.InRange() && forall i :: 0 <= i < |loads| ==> HasNul(loads[i].finger)
    ensures FindNewest(loads, Render(f)) == None
  {
    if loads != [] {
      RenderHasNoNul(f);
      LiveFingerprintNotFound(loads[1..], f);
    }
  }

  /** Whatever the file says, no fingerprint of a packet is found in what is loaded from it. */
  lemma NothingRecognized(lines: seq<string>, buf: seq<char>, f: Features)
    requires |buf| == FINGER_LEN + 1 && f.InRange()
    ensures FindNewest(Loaded(lines, buf).0, Render(f)) == None
  {
    LoadedComesFrom(lines, buf);
    LiveFingerprintNotFound(Loaded(lines, buf).0, f);
  }

  // ----- the table in memory -----

  class Table {
    /** The list heads, one for each chain. */
    const heads: seq<SingleList<Known>>
    /** The values of an unsigned long. */
    const word: nat
    /** All entries, newest first. */
    ghost var loads: seq<Known>
    /** The elements of all chains. */
    ghost var cells: set<Cell<Known>>

    /** The chains are proper lists of their own. */
    ghost predicate Linked()
      reads this, heads, cells
    {
      && word > 0 && |heads| == TABSIZE
      && (forall i, j :: 0 <= i < j < TABSIZE ==> heads[i] != heads[j])
      && forall i :: 0 <= i < TABSIZE ==> (forall c :: c in heads[i].cells ==> c in cells) && heads[i].Valid()
    }

    ghost function Chains(): (s: seq<seq<Known>>)
      requires Linked()
      reads this, heads, cells
      ensures |s| == TABSIZE && forall i :: 0 <= i < TABSIZE ==> s[i] == heads[i].Contents()
    {
      seq(TABSIZE, i requires 0 <= i < TABSIZE reads this, heads, cells requires Linked() => heads[i].Contents())
    }

    ghost predicate Valid()
      reads this, heads, cells
    {
      Linked() && Chains() == Buckets(loads, word)
    }

    constructor (word: nat)
      requires word > 0
      ensures Valid() && loads == [] && this.word == word
    {
      var lists: seq<SingleList<Known>> := [];
      for n := 0 to TABSIZE
        invariant |lists| == n
        invariant forall i :: 0 <= i < n ==> lists[i].Valid() && lists[i].cells == []
        invariant forall i, j :: 0 <= i < j < n ==> lists[i] != lists[j]
      {
        var empty := new SingleList<Known>();
        lists := lists + [empty];
      }
      this.word, loads, heads, cells := word, [], lists, {};
    }

    lemma ChainsAre(chains: seq<seq<Known>>)
      requires Linked() && |chains| == TABSIZE && forall i :: 0 <= i < TABSIZE ==> heads[i].Contents() == chains[i]
      ensures Chains() == chains
    {
    }

    /** Puts a new element in front of one chain. */
    method InsertInto(b: nat, e: Known)
      requires Linked() && b < TABSIZE
      modifies `cells, heads[b]
      ensures Linked() && loads == old(loads)
      ensures Chains() == old(Chains())[b := [e] + old(Chains())[b]]
    {
      ghost var before := Chains();
      var p := new Cell(e);
      heads[b].InsertHead(p);
      cells := cells + {p};
      ChainsAre(before[b := [e] + before[b]]);
    }

    /** LOAD_ENTRY and the insertion into the chain of its key. */
    method Load(finger: string, os: string)
      requires Valid()
      modifies `loads, `cells, heads
      ensures Valid() && loads == [Known(finger, os)] + old(loads)
    {
      var e := Known(finger, os);
      var b := BucketOf(finger, word);
      BucketsInFront(e, loads, word);
      InsertInto(b, e);
      loads := [e] + loads;
    }

    /** `fingerprint_search` */
    method Search(finger: string) returns (os: Option<string>)
      requires Valid()
      ensures os == FindNewest(loads, finger)
    {
      var list := heads[BucketOf(finger, word)];
      ChainSuffices(loads, finger, word);
      ghost var chain := list.Contents();
      var l := list.first;
      ghost var i := 0;
      while l != null
        invariant 0 <= i <= |list.cells| && l == if i < |list.cells| then list.cells[i] else null
        invariant FindNewest(chain[i..], finger) == FindNewest(chain, finger)
        decreases |list.cells| - i
      {
        assert chain[i..][0] == l.data && chain[i..][1..] == chain[i + 1..];
        if l.data.finger == finger {
          return Some(l.data.os);
        }
        l := l.next;
        i := i + 1;
      }
      os := None;
    }

    /** Takes the elements of one chain off, head by head. */
    method Drain(list: SingleList<Known>)
      requires list.Valid()
      modifies list
      ensures list.Valid() && list.cells == []
    {
      while list.first != null
        invariant list.Valid()
        decreases |list.cells|
      {
        list.RemoveHead();
      }
    }

    /** `fingerprint_discard` */
    method Discard()
      requires Valid()
      modifies `loads, `cells, heads
      ensures Valid() && loads == []
    {
      for n := 0 to TABSIZE
        invariant Linked()
        invariant forall i :: 0 <= i < n ==> heads[i].cells == []
      {
        Drain(heads[n]);
      }
      loads := [];
    }

    /** The loading loop, on the lines of the file. `finger` is the local buffer the key is
        copied into; it starts with whatever it holds. */
    method LoadLines(lines: seq<string>, finger: array<char>) returns (n: nat)
      requires Valid() && finger.Length == FINGER_LEN + 1
      modifies `loads, `cells, heads, finger
      ensures Valid() && loads == Loaded(lines, old(finger[..])).0 + old(loads)
      ensures n == |Loaded(lines, old(finger[..])).0|
    {
      ghost var buf, before, sofar := finger[..], loads, ([], finger[..]);
      n := 0;
      for k := 0 to |lines|
        invariant Valid() && sofar == Loaded(lines[..k], buf)
        invariant finger[..] == sofar.1 && loads == sofar.0 + before && n == |sofar.0|
      {
        LoadedNext(lines, k, buf);
        LoadedMoreInFront(sofar.0, before, sofar.1, Uncommented(lines[k]));
        var loaded := LoadLine(lines[k], finger);
        n := if loaded then n + 1 else n;
        sofar := Loaded(lines[..k + 1], buf);
      }
      assert lines[..|lines|] == lines;
    }

    /** One round of the loading loop. */
    method LoadLine(text: string, finger: array<char>) returns (loaded: bool)
      requires Valid() && finger.Length == FINGER_LEN + 1
      modifies `loads, `cells, heads, finger
      ensures Valid() && (loads, finger[..]) == LoadedMore((old(loads), old(finger[..])), Uncommented(text))
      ensures loaded <==> Uncommented(text) != ""
    {
      var line := Uncommented(text);
      if |line| == 0 {
        return false;
      }
      var key := CopyKey(finger, line);
      Load(key, Truncated(line, OS_LEN));
      loaded := true;
    }
  }

  method CopyKey(finger: array<char>, line: string) returns (key: string)
    requires finger.Length == FINGER_LEN + 1
    modifies finger
    ensures finger[..] == Copied(old(finger[..]), line) && key == finger[..FINGER_LEN]
  {
    ghost var cut, buf := Truncated(line, FINGER_LEN), finger[..];
    Strlcpy(finger, line, FINGER_LEN);
    key := finger[..FINGER_LEN];
    assert finger[..] == finger[..|cut|] + [finger[|cut|]] + finger[|cut| + 1..];
  }
}
