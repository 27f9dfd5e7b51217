/** The text form of an IPv6 address: what the printer writes and how it reads back. */
module Inet6Model {
  import opened Wrappers
  import opened Digits
  import opened Strings

  type Word = n: nat | n < 0x1_0000

  // ----- the run that is compressed -----

  predicate ZeroRun(w: seq<Word>, i: int, j: int) {
    0 <= i < j <= |w| && forall k :: i <= k < j ==> w[k] == 0
  }

  /** Section 4.2 of RFC 5952: the leftmost of the longest runs of zero words, and only if it
      has two words at least; `base` is -1 if there is none. */
  ghost predicate IsBest(w: seq<Word>, base: int, len: nat) {
    if base == -1 then
      forall i, j :: ZeroRun(w, i, j) ==> j - i < 2
    else
      && len >= 2 && ZeroRun(w, base, base + len)
      && forall i, j :: ZeroRun(w, i, j) ==> j - i <= len && (j - i == len ==> base <= i)
  }

  lemma BestIsUnique(w: seq<Word>, base: int, len: nat, otherBase: int, otherLen: nat)
    requires IsBest(w, base, len) && IsBest(w, otherBase, otherLen)
    ensures base == otherBase && (base != -1 ==> len == otherLen)
  {
  }

  /** The branch for an embedded IPv4 address, as the code tests for it. */
  predicate TakesIPv4Branch(w: seq<Word>, base: int, len: nat)
    requires |w| == 8
  {
    base == 0 && (len == 6 || (len == 5 && w[5] == 0xffff))
  }

  /** The addresses that get there: the mapped ones, and the compatible ones above 0.0.255.255. */
  predicate Encapsulated(w: seq<Word>)
    requires |w| == 8
  {
    (forall k :: 0 <= k < 5 ==> w[k] == 0) && ((w[5] == 0 && w[6] != 0) || w[5] == 0xffff)
  }

  lemma EncapsulatedExactly(w: seq<Word>, base: int, len: nat)
    requires |w| == 8 && IsBest(w, base, len)
    ensures TakesIPv4Branch(w, base, len) <==> Encapsulated(w)
  {
    if Encapsulated(w) {
      assert ZeroRun(w, 0, 5);
      if w[5] == 0 {
        assert ZeroRun(w, 0, 6);
      }
    }
    assert ZeroRun(w, 0, 6) && w[6] == 0 ==> ZeroRun(w, 0, 7);
  }

  // ----- the text -----

  /** The words in hexadecimal, a colon between neighbours. */
  function Join(ws: seq<Word>): string {
    if ws == [] then "" else if |ws| == 1 then Hex(ws[0], false) else Hex(ws[0], false) + ":" + Join(ws[1..])
  }

  function Text(w: seq<Word>, base: int, len: nat): string
    requires base == -1 || 0 <= base <= base + len <= |w|
  {
    if base == -1 then Join(w) else Join(w[..base]) + "::" + Join(w[base + len..])
  }

  lemma JoinTwoOrMore(x: Word, ws: seq<Word>)
    requires ws != []
    ensures Join([x] + ws) == Hex(x, false) + ":" + Join(ws)
  {
    assert ([x] + ws)[1..] == ws;
  }

  lemma ColonsRegroup(h: string, t: string, d: string)
    ensures (h + ":" + t) + ":" + d == h + ":" + (t + ":" + d)
  {
  }

  lemma {:induction false} JoinAppends(ws: seq<Word>, x: Word)
    ensures Join(ws + [x]) == if ws == [] then Hex(x, false) else Join(ws) + ":" + Hex(x, false)
  {
    if |ws| == 1 {
      JoinTwoOrMore(ws[0], [x]);
      assert ws + [x] == [ws[0]] + [x];
    } else if |ws| > 1 {
      var rest := ws[1..];
      JoinAppends(rest, x);
      JoinTwoOrMore(ws[0], rest + [x]);
      JoinTwoOrMore(ws[0], rest);
      assert ws == [ws[0]] + rest && ws + [x] == [ws[0]] + (rest + [x]);
      ColonsRegroup(Hex(ws[0], false), Join(rest), Hex(x, false));
    }
  }

  lemma WordDigits(x: Word)
    ensures 1 <= |Hex(x, false)| <= 4 && IsHex(Hex(x, false)) && ReadHex(Hex(x, false)) == x
  {
    Pow16Values();
    HexLength(x, 4, false);
    HexReadsBack(x, false);
  }

  lemma {:induction false} JoinLength(ws: seq<Word>)
    ensures |Join(ws)| <= 5 * |ws| && (ws != [] ==> 0 < |Join(ws)| < 5 * |ws|)
  {
    if ws != [] {
      WordDigits(ws[0]);
      JoinLength(ws[1..]);
    }
  }

  /** With its NUL the text takes at most 40 bytes. */
  lemma TextLength(w: seq<Word>, base: int, len: nat)
    requires |w| == 8 && IsBest(w, base, len)
    ensures |Text(w, base, len)| + 1 <= 40
  {
    JoinLength(w);
    if base != -1 {
      JoinLength(w[..base]);
      JoinLength(w[base + len..]);
    }
  }

  // ----- reading it: section 2.2 of RFC 4291 -----

  /** One group: one to four hexadecimal digits. */
  function ParseGroup(s: string): Option<Word> {
    if 1 <= |s| <= 4 && IsHex(s) then
      ReadHexBound(s, 4); Pow16Values();
      Some(ReadHex(s))
    else None
  }

  /** One or more groups with single colons between them. */
  function ParseGroups(s: string): Option<seq<Word>> {
    match Find(s, ':')
    case None => (match ParseGroup(s) case None => None case Some(x) => Some([x]))
    case Some(i) =>
      match (ParseGroup(s[..i]), ParseGroups(s[i + 1..]))
      case (Some(x), Some(xs)) => Some([x] + xs)
      case _ => None
  }

  /** The groups on one side of `::`, where there may be none. */
  function ParseSide(s: string): Option<seq<Word>> {
    if s == "" then Some([]) else ParseGroups(s)
  }

  /** The position of the first `::`. */
  function FindDouble(s: string): (r: Option<nat>)
    ensures r.Some? ==> r.value + 2 <= |s|
  {
    if |s| < 2 then None
    else if s[0] == ':' && s[1] == ':' then Some(0)
    else match FindDouble(s[1..])
      case None => None
      case Some(i) => Some(i + 1)
  }

  function ZeroWords(n: nat): (w: seq<Word>)
    ensures |w| == n && forall i :: 0 <= i < n ==> w[i] == 0
  {
    seq(n, i => 0)
  }

  function EightGroups(groups: Option<seq<Word>>): (r: Option<seq<Word>>)
    ensures r.Some? ==> |r.value| == 8
  {
    if groups.Some? && |groups.value| == 8 then groups else None
  }

  function AroundZeros(left: Option<seq<Word>>, right: Option<seq<Word>>): (r: Option<seq<Word>>)
    ensures r.Some? ==> |r.value| == 8
  {
    if left.Some? && right.Some? && |left.value| + |right.value| <= 7
    then Some(left.value + ZeroWords(8 - |left.value| - |right.value|) + right.value)
    else None
  }

  /** Eight groups, or fewer with one `::` that stands for one zero group or more. */
  function Parse(s: string): (r: Option<seq<Word>>)
    ensures r.Some? ==> |r.value| == 8
  {
    match FindDouble(s)
    case None => EightGroups(ParseGroups(s))
    case Some(i) => AroundZeros(ParseSide(s[..i]), ParseSide(s[i + 2..]))
  }

  // ----- round trip -----

  lemma NoColonInHex(s: string)
    requires IsHex(s)
    ensures ':' !in s
  {
    assert DigitValue(':') == None;
  }

  lemma {:induction false} JoinReadsBack(ws: seq<Word>)
    requires ws != []
    ensures ParseGroups(Join(ws)) == Some(ws)
  {
    if |ws| == 1 {
      GroupReadsBack(ws[0]);
      assert ws == [ws[0]];
    } else {
      JoinReadsBack(ws[1..]);
      GroupInFront(ws[0], ws[1..], Join(ws[1..]));
      assert [ws[0]] + ws[1..] == ws;
    }
  }

  lemma GroupReadsBack(x: Word)
    ensures ParseGroups(Hex(x, false)) == Some([x])
    ensures ParseGroup(Hex(x, false)) == Some(x) && ':' !in Hex(x, false)
  {
    var h := Hex(x, false);
    WordDigits(x);
    NoColonInHex(h);
    assert Find(h, ':').None?;
  }

  lemma GroupInFront(x: Word, xs: seq<Word>, t: string)
    requires ParseGroups(t) == Some(xs)
    ensures ParseGroups(Hex(x, false) + ":" + t) == Some([x] + xs)
  {
    GroupReadsBack(x);
    GroupsReadBack(Hex(x, false), t);
  }

  lemma GroupsReadBack(h: string, t: string)
    requires ':' !in h
    ensures ParseGroups(h + ":" + t) == match (ParseGroup(h), ParseGroups(t))
                                        case (Some(x), Some(xs)) => Some([x] + xs)
                                        case _ => None
  {
    FindInConcat(h, ':', t);
    assert (h + ":" + t)[..|h|] == h && (h + ":" + t)[|h| + 1..] == t;
  }

  /** No colon at either end and no two together. */
  predicate SingleColons(s: string) {
    && (s != "" ==> s[0] != ':' && s[|s| - 1] != ':')
    && forall i :: 0 <= i < |s| - 1 ==> s[i] != ':' || s[i + 1] != ':'
  }

  lemma {:induction false} JoinHasSingleColons(ws: seq<Word>)
    ensures SingleColons(Join(ws))
  {
    if ws != [] {
      var h := Hex(ws[0], false);
      WordDigits(ws[0]);
      NoColonInHex(h);
      if |ws| > 1 {
        var t := Join(ws[1..]);
        JoinHasSingleColons(ws[1..]);
        JoinLength(ws[1..]);
        assert Join(ws) == h + ":" + t;
      }
    }
  }

  lemma {:induction false} NoDoubleFound(s: string)
    requires SingleColons(s)
    ensures FindDouble(s).None?
  {
    if |s| >= 2 {
      NoDoubleFoundFrom(s, 0);
      assert s[0..] == s;
    }
  }

  lemma {:induction false} NoDoubleFoundFrom(s: string, i: nat)
    requires i <= |s| && forall k :: 0 <= k < |s| - 1 ==> s[k] != ':' || s[k + 1] != ':'
    ensures FindDouble(s[i..]).None?
    decreases |s| - i
  {
    if |s| - i >= 2 {
      assert s[i..][0] == s[i] && s[i..][1] == s[i + 1] && s[i..][1..] == s[i + 1..];
      NoDoubleFoundFrom(s, i + 1);
    }
  }

  lemma {:induction false} DoubleFound(a: string, b: string)
    requires SingleColons(a)
    ensures FindDouble(a + "::" + b) == Some(|a|)
  {
    DoubleFoundFrom(a, b, 0);
    assert (a + "::" + b)[0..] == a + "::" + b;
  }

  lemma {:induction false} DoubleFoundFrom(a: string, b: string, i: nat)
    requires i <= |a| && SingleColons(a)
    ensures FindDouble((a + "::" + b)[i..]) == Some(|a| - i)
    decreases |a| - i
  {
    var s := a + "::" + b;
    assert s[i..][0] == s[i] && s[i..][1] == s[i + 1] && s[i..][1..] == s[i + 1..];
    if i < |a| {
      assert s[i] == a[i] && s[i + 1] == (if i + 1 < |a| then a[i + 1] else ':');
      DoubleFoundFrom(a, b, i + 1);
    }
  }

  lemma SideReadsBack(ws: seq<Word>)
    ensures ParseSide(Join(ws)) == Some(ws)
  {
    if ws != [] {
      JoinLength(ws);
      JoinReadsBack(ws);
    }
  }

  lemma ParseAtDouble(s: string, i: nat, left: string, right: string)
    requires FindDouble(s) == Some(i) && s[..i] == left && s[i + 2..] == right
    ensures Parse(s) == AroundZeros(ParseSide(left), ParseSide(right))
  {
  }

  lemma SidesOfDouble(a: string, b: string)
    ensures (a + "::" + b)[..|a|] == a && (a + "::" + b)[|a| + 2..] == b
  {
  }

  lemma AroundDouble(a: string, b: string, xs: seq<Word>, n: nat, ys: seq<Word>)
    requires n >= 1 && |xs| + n + |ys| == 8
    requires SingleColons(a) && ParseSide(a) == Some(xs) && ParseSide(b) == Some(ys)
    ensures Parse(a + "::" + b) == Some(xs + ZeroWords(n) + ys)
  {
    DoubleFound(a, b);
    SidesOfDouble(a, b);
    ParseAtDouble(a + "::" + b, |a|, a, b);
  }

  lemma CompressedReadsBack(xs: seq<Word>, n: nat, ys: seq<Word>)
    requires n >= 1 && |xs| + n + |ys| == 8
    ensures Parse(Join(xs) + "::" + Join(ys)) == Some(xs + ZeroWords(n) + ys)
  {
    JoinHasSingleColons(xs);
    SideReadsBack(xs);
    SideReadsBack(ys);
    AroundDouble(Join(xs), Join(ys), xs, n, ys);
  }

  /** The printed text of an address parses back to the address. */
  lemma TextReadsBack(w: seq<Word>, base: int, len: nat)
    requires |w| == 8 && IsBest(w, base, len)
    ensures Parse(Text(w, base, len)) == Some(w)
  {
    if base == -1 {
      JoinHasSingleColons(w);
      NoDoubleFound(Join(w));
      JoinReadsBack(w);
    } else {
      CompressedReadsBack(w[..base], len, w[base + len..]);
      assert w == w[..base] + ZeroWords(len) + w[base + len..];
    }
  }

  /** Two addresses that print the same are the same. */
  lemma PrintingIsInjective(v: seq<Word>, vBase: int, vLen: nat, w: seq<Word>, wBase: int, wLen: nat)
    requires |v| == |w| == 8 && IsBest(v, vBase, vLen) && IsBest(w, wBase, wLen)
    requires Text(v, vBase, vLen) == Text(w, wBase, wLen)
    ensures v == w
  {
    TextReadsBack(v, vBase, vLen);
    TextReadsBack(w, wBase, wLen);
  }
}
