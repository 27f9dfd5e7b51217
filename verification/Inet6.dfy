/** The IPv6 printer as the C code has it: a scan for the longest run of zero words, and a
    formatter that advances through a fixed buffer. */
module Inet6 {
  import opened Wrappers
  import opened Digits
  import opened Buffers
  import opened Inet6Model

  const IP_ADDR_LEN := 4
  const IP6_ADDR_LEN := 16
  const IP6_ASCII_ADDR_LEN := 47

  /** The address as eight words in network order. */
  function Words(src: seq<Byte>): (w: seq<Word>)
    requires |src| == IP6_ADDR_LEN
    ensures |w| == 8 && forall i :: 0 <= i < 8 ==> w[i] == BigEndian(src[2 * i], src[2 * i + 1])
  {
    seq(8, i requires 0 <= i < 8 => BigEndian(src[2 * i], src[2 * i + 1]))
  }

  lemma WordsAreInjective(a: seq<Byte>, b: seq<Byte>)
    requires |a| == |b| == IP6_ADDR_LEN && Words(a) == Words(b)
    ensures a == b
  {
    forall k | 0 <= k < IP6_ADDR_LEN ensures a[k] == b[k] {
      assert Words(a)[k / 2] == Words(b)[k / 2];
      assert k == 2 * (k / 2) || k == 2 * (k / 2) + 1;
    }
  }

  /** The bytes embed an IPv4 address: ten zero bytes, and then two zero bytes before two that are
      not both zero, or two bytes of ones. */
  predicate EmbedsIPv4(src: seq<Byte>)
    requires |src| == IP6_ADDR_LEN
  {
    && (forall k :: 0 <= k < 10 ==> src[k] == 0)
    && ((src[10] == src[11] == 0 && !(src[12] == src[13] == 0)) || src[10] == src[11] == 0xff)
  }

  lemma WordOctets(src: seq<Byte>, i: nat)
    requires |src| == IP6_ADDR_LEN && i < 8
    ensures src[2 * i] == Words(src)[i] / 0x100 && src[2 * i + 1] == Words(src)[i] % 0x100
  {
  }

  lemma EmbedsExactly(src: seq<Byte>)
    requires |src| == IP6_ADDR_LEN
    ensures EmbedsIPv4(src) <==> Encapsulated(Words(src))
  {
    var w := Words(src);
    forall i: nat | i < 8
      ensures w[i] == 0 <==> src[2 * i] == src[2 * i + 1] == 0
      ensures w[i] == 0xffff <==> src[2 * i] == src[2 * i + 1] == 0xff
    {
      WordOctets(src, i);
    }
    if Encapsulated(w) {
      forall k | 0 <= k < 10 ensures src[k] == 0 {
        assert w[k / 2] == 0 && (k == 2 * (k / 2) || k == 2 * (k / 2) + 1);
      }
    }
  }

  /** The text, read by section 2.2 of RFC 4291, is the address byte by byte: every even byte the
      high octet of its group and every odd byte the low one. */
  ghost predicate ReadsAsBytes(text: string, src: seq<Byte>)
    requires |src| == IP6_ADDR_LEN
  {
    match Parse(text)
    case None => false
    case Some(groups) =>
      forall k :: 0 <= k < IP6_ADDR_LEN ==> src[k] == if k % 2 == 0 then groups[k / 2] / 0x100 else groups[k / 2] % 0x100
  }

  lemma ReadsAsWords(text: string, src: seq<Byte>)
    requires |src| == IP6_ADDR_LEN && Parse(text) == Some(Words(src))
    ensures ReadsAsBytes(text, src)
  {
    forall k | 0 <= k < IP6_ADDR_LEN
      ensures src[k] == if k % 2 == 0 then Words(src)[k / 2] / 0x100 else Words(src)[k / 2] % 0x100
    {
      WordOctets(src, k / 2);
    }
  }

  method ToWords(src: seq<Byte>) returns (words: seq<Word>)
    requires |src| == IP6_ADDR_LEN
    ensures words == Words(src)
  {
    words := ZeroWords(8);
    var i := 0;
    while i < IP6_ADDR_LEN
      invariant 0 <= i <= IP6_ADDR_LEN && i % 2 == 0 && |words| == 8
      invariant forall k :: 0 <= k < i / 2 ==> words[k] == Words(src)[k]
    {
      words := words[i / 2 := BigEndian(src[i], src[i + 1])];
      i := i + 2;
    }
  }

  /** A run found so far; `base` is -1 if there is none. */
  datatype Run = Run(base: int, len: nat)

  /** The zero words directly before `i`, as long as they go. */
  ghost predicate IsCurrent(w: seq<Word>, cur: Run, i: nat)
    requires i <= |w|
  {
    if cur.base == -1 then i == 0 || w[i - 1] != 0
    else cur.base + cur.len == i && ZeroRun(w, cur.base, i) && (cur.base == 0 || w[cur.base - 1] != 0)
  }

  /** The best run among those that end before `i` and are not part of the current one. */
  ghost predicate IsBestBefore(w: seq<Word>, best: Run, cur: Run, i: nat)
    requires i <= |w|
  {
    if best.base == -1 then
      forall a, b :: ZeroRun(w, a, b) && b <= i ==> cur.base != -1 && cur.base <= a
    else
      && ZeroRun(w, best.base, best.base + best.len) && best.base + best.len <= i
      && (cur.base != -1 ==> best.base < cur.base)
      && forall a, b :: ZeroRun(w, a, b) && b <= i ==>
           (cur.base != -1 && cur.base <= a) || b - a < best.len || (b - a == best.len && best.base <= a)
  }

  /** The zero-run scan. */
  method FindBestRun(words: seq<Word>) returns (best: Run)
    requires |words| == 8
    ensures IsBest(words, best.base, best.len)
  {
    best := Run(-1, 0);
    var cur := Run(-1, 0);
    var i := 0;
    while i < 8
      invariant 0 <= i <= 8 && best.base >= -1 && cur.base >= -1
      invariant IsCurrent(words, cur, i) && IsBestBefore(words, best, cur, i)
    {
      if words[i] == 0 {
        if cur.base == -1 {
          cur := Run(i, 1);
        } else {
          cur := cur.(len := cur.len + 1);
        }
      } else {
        if cur.base != -1 {
          if best.base == -1 || cur.len > best.len {
            best := cur;
          }
          cur := cur.(base := -1);
        }
      }
      i := i + 1;
    }
    if cur.base != -1 {
      if best.base == -1 || cur.len > best.len {
        best := cur;
      }
    }
    if best.base != -1 && best.len < 2 {
      best := best.(base := -1);
    }
  }

  /** What the formatter has written before word `i`. */
  ghost function Written(w: seq<Word>, best: Run, i: nat): string
    requires i <= |w| && (best.base == -1 || 0 <= best.base <= best.base + best.len <= |w|)
  {
    if best.base == -1 || i <= best.base then Join(w[..i])
    else if i <= best.base + best.len then Join(w[..best.base]) + ":"
    else Join(w[..best.base]) + "::" + Join(w[best.base + best.len..i])
  }

  ghost predicate RunInside(best: Run) {
    best.base == -1 || (best.len >= 2 && 0 <= best.base <= best.base + best.len <= 8)
  }

  /** How much room that takes. */
  lemma WrittenFits(w: seq<Word>, best: Run, i: nat)
    requires |w| == 8 && i <= 8 && RunInside(best)
    ensures |Written(w, best, i)| <= 5 * i + 1
  {
    JoinLength(w[..i]);
    if best.base != -1 && best.base < i {
      JoinLength(w[..best.base]);
      if best.base + best.len < i {
        JoinLength(w[best.base + best.len..i]);
      }
    }
  }

  lemma JoinGrows(w: seq<Word>, from: nat, i: nat)
    requires from <= i < |w|
    ensures Join(w[from..i + 1]) == if i == from then Hex(w[i], false) else Join(w[from..i]) + ":" + Hex(w[i], false)
  {
    assert w[from..i + 1] == w[from..i] + [w[i]];
    JoinAppends(w[from..i], w[i]);
  }

  lemma WordBehindRun(a: string, before: string, h: string, first: bool)
    ensures a + "::" + (if first then h else before + ":" + h)
            == (if first then a + ":" else a + "::" + before) + ":" + h
  {
    if first {
      assert a + ":" + ":" == a + "::";
    } else {
      assert a + "::" + before + ":" + h == a + "::" + (before + ":" + h);
    }
  }

  lemma WrittenWordBehind(w: seq<Word>, best: Run, i: nat)
    requires |w| == 8 && i < 8 && RunInside(best) && best.base != -1 && best.base + best.len <= i
    ensures Written(w, best, i + 1) == Written(w, best, i) + ":" + Hex(w[i], false)
  {
    var first := best.base + best.len;
    JoinGrows(w, first, i);
    WordBehindRun(Join(w[..best.base]), Join(w[first..i]), Hex(w[i], false), i == first);
  }

  lemma WrittenWordBefore(w: seq<Word>, best: Run, i: nat)
    requires |w| == 8 && i < 8 && RunInside(best) && (best.base == -1 || i < best.base)
    ensures Written(w, best, i + 1) == Written(w, best, i) + (if i == 0 then "" else ":") + Hex(w[i], false)
  {
    JoinGrows(w, 0, i);
    assert w[..i] == w[0..i] && w[..i + 1] == w[0..i + 1];
  }

  /** A word outside the run goes behind what is written, after a colon unless it is the first. */
  lemma WrittenWord(w: seq<Word>, best: Run, i: nat)
    requires |w| == 8 && i < 8 && RunInside(best) && !InRun(best, i)
    ensures Written(w, best, i + 1) == Written(w, best, i) + (if i == 0 then "" else ":") + Hex(w[i], false)
  {
    if best.base == -1 || i < best.base {
      WrittenWordBefore(w, best, i);
    } else {
      WrittenWordBehind(w, best, i);
    }
  }

  lemma WrittenAll(w: seq<Word>, best: Run)
    requires |w| == 8 && RunInside(best)
    ensures Written(w, best, 8) + (if best.base != -1 && best.base + best.len == 8 then ":" else "")
            == Text(w, best.base, best.len)
  {
    assert w[..8] == w;
    if best.base != -1 {
      var a := Join(w[..best.base]);
      if best.base + best.len == 8 {
        assert w[8..] == [];
        assert a + ":" + ":" == a + "::" + "";
      } else {
        assert w[best.base + best.len..8] == w[best.base + best.len..];
      }
    }
  }

  /** The buffer holds what is written before word `i`, and nothing more than its room. */
  ghost predicate Holding(tmp: array<char>, tp: nat, words: seq<Word>, best: Run, i: nat)
    requires i <= |words| == 8 && RunInside(best)
    reads tmp
  {
    tp <= 5 * i + 1 && tp <= tmp.Length && tmp[..tp] == Written(words, best, i)
  }

  predicate InRun(best: Run, i: nat) {
    best.base != -1 && i >= best.base && i < best.base + best.len
  }

  lemma WrittenRun(w: seq<Word>, best: Run, i: nat)
    requires |w| == 8 && i < 8 && RunInside(best) && InRun(best, i)
    ensures Written(w, best, i + 1) == Written(w, best, i) + if i == best.base then ":" else ""
  {
  }

  /** One character at the end. */
  method PutChar(tmp: array<char>, tp: nat, c: char, ghost done: string) returns (r: nat)
    requires tp < tmp.Length && tmp[..tp] == done
    modifies tmp
    ensures r == tp + 1 && tmp[..r] == done + [c]
  {
    tmp[tp] := c;
    r := tp + 1;
  }

  /** The branch for a word of the run. */
  method FormatZero(words: seq<Word>, best: Run, i: nat, tmp: array<char>, tp: nat) returns (r: nat)
    requires i < |words| == 8 && RunInside(best) && InRun(best, i) && tmp.Length == IP6_ASCII_ADDR_LEN
    requires Holding(tmp, tp, words, best, i)
    modifies tmp
    ensures Holding(tmp, r, words, best, i + 1)
  {
    WrittenRun(words, best, i);
    WrittenFits(words, best, i + 1);
    r := tp;
    if i == best.base {
      r := PutChar(tmp, tp, ':', Written(words, best, i));
    }
  }

  /** Any other word; None where the formatter gives up. */
  method FormatWord(words: seq<Word>, best: Run, i: nat, tmp: array<char>, tp: nat) returns (r: Option<nat>)
    requires i < |words| == 8 && RunInside(best) && !InRun(best, i) && tmp.Length == IP6_ASCII_ADDR_LEN
    requires Holding(tmp, tp, words, best, i)
    modifies tmp
    ensures r.None? <==> i == 6 && TakesIPv4Branch(words, best.base, best.len)
    ensures r.Some? ==> Holding(tmp, r.value, words, best, i + 1)
  {
    WrittenWord(words, best, i);
    WrittenFits(words, best, i + 1);
    var pos := tp;
    ghost var done := Written(words, best, i);
    if i != 0 {
      pos := PutChar(tmp, tp, ':', done);
      done := done + ":";
    }
    if i == 6 && best.base == 0 && (best.len == 6 || (best.len == 5 && words[5] == 0xffff)) {
      return None;
    }
    var n := Hex(words[i], false);
    assert |done + n| == |Written(words, best, i + 1)|;
    PutText(tmp, pos, n);
    r := Some(pos + |n|);
  }

  /** The formatter: writes the text of `words` into `tmp` and returns its length, or None where
      it gives up on an embedded IPv4 address. */
  method Format(words: seq<Word>, best: Run, tmp: array<char>) returns (r: Option<nat>)
    requires |words| == 8 && IsBest(words, best.base, best.len) && tmp.Length == IP6_ASCII_ADDR_LEN
    requires best.base >= -1
    modifies tmp
    ensures r.None? <==> Encapsulated(words)
    ensures r.Some? ==> r.value < tmp.Length && tmp[..r.value] == Text(words, best.base, best.len)
  {
    EncapsulatedExactly(words, best.base, best.len);
    var tp: nat := 0;
    assert words[..0] == [];
    var i := 0;
    while i < 8
      invariant 0 <= i <= 8 && Holding(tmp, tp, words, best, i)
      invariant i > 6 ==> !TakesIPv4Branch(words, best.base, best.len)
    {
      if best.base != -1 && i >= best.base && i < best.base + best.len {
        tp := FormatZero(words, best, i, tmp, tp);
      } else {
        var next := FormatWord(words, best, i, tmp, tp);
        if next.None? {
          return None;
        }
        tp := next.value;
      }
      i := i + 1;
    }
    WrittenAll(words, best);
    if best.base != -1 && best.base + best.len == 8 {
      tp := PutChar(tmp, tp, ':', Written(words, best, 8));
    }
    r := Some(tp);
  }

  /** `inet_ntop6`: prints the address into `dst`, at most `size` bytes. */
  method InetNtop6(src: seq<Byte>, dst: array<char>, size: nat) returns (ok: bool, ghost best: Run)
    requires |src| == IP6_ADDR_LEN && size <= dst.Length
    modifies dst
    ensures IsBest(Words(src), best.base, best.len) && best.base >= -1
    ensures var text := Text(Words(src), best.base, best.len);
            && (ok <==> !Encapsulated(Words(src)) && |text| + 1 <= size)
            && (if ok then HoldsText(dst, text) else dst[..] == old(dst[..]))
  {
    var tmp := new char[IP6_ASCII_ADDR_LEN];
    var words := ToWords(src);
    var run := FindBestRun(words);
    best := run;
    var tp := Format(words, run, tmp);
    if tp.None? {
      return false, best;
    }
    if tp.value + 1 > size {
      return false, best;
    }
    Strlcpy(dst, tmp[..tp.value], size);
    ok := true;
  }

  class IpAddr {
    var version: int
    var size: nat
    var addr: array<Byte>

    constructor ()
      ensures fresh(addr) && addr.Length == IP6_ADDR_LEN && version == 0
    {
      version, size := 0, 0;
      addr := new Byte[IP6_ADDR_LEN](_ => 0);
    }

    /** `ip_addr_init` with AF_INET (version 4), AF_INET6 (version 6) or a family it refuses. */
    method Init(family: int, bytes: seq<Byte>) returns (ok: bool)
      requires addr.Length == IP6_ADDR_LEN
      requires (family == 4 ==> |bytes| >= IP_ADDR_LEN) && (family == 6 ==> |bytes| >= IP6_ADDR_LEN)
      modifies this, addr
      ensures addr == old(addr) && version == family && (ok <==> family == 4 || family == 6)
      ensures ok ==> size == if family == 4 then IP_ADDR_LEN else IP6_ADDR_LEN
      ensures ok ==> addr[..size] == bytes[..size] && addr[size..] == old(addr[..])[size..]
      ensures !ok ==> size == old(size) && addr[..] == old(addr[..])
    {
      version := family;
      if family == 4 {
        size := IP_ADDR_LEN;
      } else if family == 6 {
        size := IP6_ADDR_LEN;
      } else {
        return false;
      }
      forall i | 0 <= i < size {
        addr[i] := bytes[i];
      }
      ok := true;
    }

    /** `ip_addr_ntoa` on an IPv6 address. The destination gets the canonical text, which reads
        back to the address byte by byte; it is left as it was only on the way out for embedded
        IPv4 addresses: there is always room. */
    method Ntoa6(dst: array<char>) returns (ghost text: string)
      requires version == 6 && addr.Length == IP6_ADDR_LEN && dst.Length >= IP6_ASCII_ADDR_LEN
      modifies dst
      ensures if EmbedsIPv4(addr[..]) then dst[..] == old(dst[..]) else HoldsText(dst, text)
      ensures ReadsAsBytes(text, addr[..])
      ensures exists base: int, len: nat ::
                IsBest(Words(addr[..]), base, len) && base >= -1 && text == Text(Words(addr[..]), base, len)
    {
      var ok;
      ghost var best;
      ghost var words := Words(addr[..]);
      ok, best := InetNtop6(addr[..], dst, IP6_ASCII_ADDR_LEN);
      text := Text(words, best.base, best.len);
      TextLength(words, best.base, best.len);
      TextReadsBack(words, best.base, best.len);
      ReadsAsWords(text, addr[..]);
      EmbedsExactly(addr[..]);
    }
  }
}
