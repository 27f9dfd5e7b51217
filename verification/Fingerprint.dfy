/** The 28-character TCP fingerprint: its layout, the updates that fill it in, and the features
    it stands for. */
module Fingerprints {
  import opened Digits
  import opened Buffers

  const FINGER_LEN := 28

  // ----- the layout -----

  /** The ten fields of a fingerprint. */
  datatype Slots = Slots(
    window: string, mss: string, ttl: string, ws: string, sack: string,
    nop: string, df: string, timestamp: string, flag: string, length: string)
  {
    predicate Fit() {
      && |window| == 4 && |mss| == 4 && |ttl| == 2 && |ws| == 2 && |sack| == 1
      && |nop| == 1 && |df| == 1 && |timestamp| == 1 && |flag| == 1 && |length| == 2
    }
  }

  /** WWWW:_MSS:TT:WS:S:N:D:T:F:LT */
  function Text(s: Slots): (t: string)
    ensures s.Fit() ==> |t| == FINGER_LEN
  {
    s.window + ":" + s.mss + ":" + s.ttl + ":" + s.ws + ":" + s.sack + ":"
    + s.nop + ":" + s.df + ":" + s.timestamp + ":" + s.flag + ":" + s.length
  }

  /** The character at `i` of the layout. */
  function LayoutAt(s: Slots, i: nat): char
    requires s.Fit() && i < FINGER_LEN
  {
    if i < 4 then s.window[i]
    else if 5 <= i < 9 then s.mss[i - 5]
    else if 10 <= i < 12 then s.ttl[i - 10]
    else if 13 <= i < 15 then s.ws[i - 13]
    else if i == 16 then s.sack[0]
    else if i == 18 then s.nop[0]
    else if i == 20 then s.df[0]
    else if i == 22 then s.timestamp[0]
    else if i == 24 then s.flag[0]
    else if 26 <= i then s.length[i - 26]
    else ':'
  }

  lemma TextAt(s: Slots, i: nat)
    requires s.Fit() && i < FINGER_LEN
    ensures Text(s)[i] == LayoutAt(s, i)
  {
  }

  /** The fields of a text, cut at the places of the layout. */
  function Cut(t: string): Slots
    requires |t| == FINGER_LEN
  {
    Slots(t[..4], t[5..9], t[10..12], t[13..15], t[16..17], t[18..19], t[20..21], t[22..23], t[24..25], t[26..28])
  }

  lemma CutText(s: Slots)
    requires s.Fit()
    ensures Cut(Text(s)) == s
  {
    var t := Text(s);
    forall i | 0 <= i < FINGER_LEN ensures t[i] == LayoutAt(s, i) {
      TextAt(s, i);
    }
  }

  // ----- an update -----

  datatype Param = Window | Mss | Ttl | Ws | Sack | Nop | Df | Timestamp | TcpFlag | Length

  /** Where a field stands and how many characters of it are written. */
  function Place(p: Param): (at: nat)
    ensures at + Width(p) <= FINGER_LEN
  {
    match p
    case Window => 0
    case Mss => 5
    case Ttl => 10
    case Ws => 13
    case Sack => 16
    case Nop => 18
    case Df => 20
    case Timestamp => 22
    case TcpFlag => 24
    case Length => 26
  }

  function Width(p: Param): nat {
    match p
    case Window => 4
    case Mss => 4
    case Ttl => 2
    case Ws => 2
    case Length => 2
    case _ => 1
  }

  /** `strtoul` in base 16 on a field that starts with a hexadecimal digit or a letter that is
      none: the value of its leading digits. */
  function LeadingHex(s: string): (n: nat)
    ensures n <= |s| && IsHex(s[..n])
  {
    if s == "" || DigitValue(s[0]).None? then 0
    else
      var n := LeadingHex(s[1..]);
      assert s[..n + 1] == [s[0]] + s[1..][..n];
      n + 1
  }

  function ReadLeading(s: string): nat {
    ReadHex(s[..LeadingHex(s)])
  }

  /** The digits of a value that is written as it is. */
  function PlainText(p: Param, value: nat): (s: string)
    ensures |s| == Width(p)
  {
    match p
    case Window => PaddedHex(value, 4, true)[..4]
    case Mss => PaddedHex(value, 4, true)[..4]
    case Ttl => PaddedHex(value, 2, true)[..2]
    case Ws => PaddedHex(value, 2, true)[..2]
    case TcpFlag => if value == 1 then "A" else "S"
    case Length => PaddedHex(value, 2, false)[..2]
    case _ => Decimal(value)[..1]
  }

  /** The characters an update writes: a TTL is rounded, and a length is added to the one the
      field `length` says already. */
  function FieldText(p: Param, value: nat, length: string): (s: string)
    ensures |s| == Width(p)
  {
    PlainText(p, if p.Ttl? then TtlPredictor(value % 0x100) else if p.Length? then value + ReadLeading(length) else value)
  }

  function WithField(s: Slots, p: Param, text: string): Slots {
    match p
    case Window => s.(window := text)
    case Mss => s.(mss := text)
    case Ttl => s.(ttl := text)
    case Ws => s.(ws := text)
    case Sack => s.(sack := text)
    case Nop => s.(nop := text)
    case Df => s.(df := text)
    case Timestamp => s.(timestamp := text)
    case TcpFlag => s.(flag := text)
    case Length => s.(length := text)
  }

  /** The field an update writes, in the whole. */
  function Update(s: Slots, p: Param, value: nat): Slots {
    WithField(s, p, FieldText(p, value, s.length))
  }

  lemma UpdateFits(s: Slots, p: Param, value: nat)
    requires s.Fit()
    ensures Update(s, p, value).Fit()
  {
  }

  lemma LayoutUpdated(s: Slots, p: Param, value: nat, i: nat)
    requires s.Fit() && i < FINGER_LEN
    ensures Update(s, p, value).Fit()
    ensures LayoutAt(Update(s, p, value), i)
            == if Place(p) <= i < Place(p) + Width(p) then FieldText(p, value, s.length)[i - Place(p)] else LayoutAt(s, i)
  {
  }

  /** Overwriting a field in place leaves the other fields and the colons alone. */
  lemma OverwriteField(s: Slots, p: Param, value: nat, t: string)
    requires s.Fit() && |t| == FINGER_LEN
    requires forall i :: Place(p) <= i < Place(p) + Width(p) ==> t[i] == FieldText(p, value, s.length)[i - Place(p)]
    requires forall i :: 0 <= i < FINGER_LEN && !(Place(p) <= i < Place(p) + Width(p)) ==> t[i] == Text(s)[i]
    ensures t == Text(Update(s, p, value))
  {
    UpdateFits(s, p, value);
    forall i | 0 <= i < FINGER_LEN ensures t[i] == Text(Update(s, p, value))[i] {
      LayoutUpdated(s, p, value, i);
      TextAt(Update(s, p, value), i);
      TextAt(s, i);
    }
  }

  // ----- the initial time to live -----

  /** The number of ones in binary. */
  function Ones(x: nat): nat {
    if x < 2 then x else x % 2 + Ones(x / 2)
  }

  predicate IsPower(x: nat) {
    x == 1 || (x > 1 && x % 2 == 0 && IsPower(x / 2))
  }

  /** The least power of two above `x`, except that 0 gives 2. */
  function Above(x: nat): nat {
    if x < 2 then 2 else 2 * Above(x / 2)
  }

  /** Doubling `p` while `x` is halved. */
  function Doubled(p: nat, x: nat): nat
    decreases x
  {
    if x < 2 then 2 * p else Doubled(2 * p, x / 2)
  }

  lemma {:induction false} DoubledIs(p: nat, x: nat)
    ensures Doubled(p, x) == p * Above(x)
    decreases x
  {
    if x >= 2 {
      DoubledIs(2 * p, x / 2);
      var a := Above(x / 2);
      assert (2 * p) * a == p * (2 * a);
    }
  }

  /** What the loop makes of a byte. */
  function TtlPredictor(x: Byte): (r: nat)
    ensures r < 0x100
  {
    if Ones(x) == 1 then x else if Above(x) % 0x100 != 0 then Above(x) % 0x100 else 0xff
  }

  lemma {:induction false} OnesOfPower(x: nat)
    ensures Ones(x) == 1 <==> IsPower(x)
    ensures Ones(x) == 0 <==> x == 0
  {
    if x >= 2 {
      OnesOfPower(x / 2);
    }
  }

  lemma {:induction false} AboveIsPower(x: nat)
    ensures IsPower(Above(x)) && Above(x) > x && (x > 0 ==> Above(x) <= 2 * x)
  {
    if x >= 2 {
      AboveIsPower(x / 2);
    }
  }

  /** Between a power of two and its double there is no other. */
  lemma {:induction false} NoPowerBetween(x: nat, y: nat)
    requires IsPower(x) && IsPower(y) && x <= y < 2 * x
    ensures x == y
  {
    if x > 1 {
      NoPowerBetween(x / 2, y / 2);
    }
  }

  lemma PowersTo128()
    ensures IsPower(0x80)
  {
    assert IsPower(2) && IsPower(4) && IsPower(8);
    assert IsPower(0x10) && IsPower(0x20) && IsPower(0x40);
  }

  lemma NoPowerAbove128(x: nat)
    requires 0x80 < x < 0x100
    ensures !IsPower(x)
  {
    PowersTo128();
    if IsPower(x) {
      NoPowerBetween(0x80, x);
    }
  }

  /** `r` is the least power of two that is not below `x`. */
  ghost predicate RoundsUp(r: nat, x: nat) {
    x <= r && IsPower(r) && forall y: nat :: IsPower(y) && x <= y ==> r <= y
  }

  lemma AboveRoundsUp(x: nat)
    requires x > 0 && !IsPower(x)
    ensures RoundsUp(Above(x), x) && Above(x) < 2 * x
  {
    var a := Above(x);
    AboveIsPower(x);
    assert IsPower(a / 2) && a == 2 * (a / 2);
    forall y: nat | IsPower(y) && x <= y ensures a <= y {
      if y < a {
        NoPowerBetween(a / 2, y);
      }
    }
  }

  /** The predictor rounds up to a power of two: a TTL of at most 128 goes to the least power of
      two not below it, a larger one to 255, and 0 to 2. */
  lemma TtlRoundsUp(x: nat)
    requires x < 0x100
    ensures x == 0 ==> TtlPredictor(x) == 2
    ensures 1 <= x <= 0x80 ==> RoundsUp(TtlPredictor(x), x)
    ensures x > 0x80 ==> TtlPredictor(x) == 0xff
  {
    OnesOfPower(x);
    if x > 0x80 {
      NoPowerAbove128(x);
      AboveRoundsUp(x);
      AboveOfLarge(x);
    } else if x > 0 && !IsPower(x) {
      AboveRoundsUp(x);
      PowersTo128();
    }
  }

  lemma AboveOfLarge(x: nat)
    requires 0x80 < x < 0x100
    ensures Above(x) == 0x100
  {
    PowersTo128();
    NoPowerAbove128(x);
    AboveRoundsUp(x);
    assert IsPower(0x100);
    if Above(x) < 0x100 {
      NoPowerAbove128(Above(x));
    }
  }
}
