/** Hexadecimal and decimal numerals as printf writes them, and how they are read back. */
module Digits {
  import opened Wrappers

  function HexDigit(d: nat, upper: bool): (c: char)
    requires d < 16
    ensures DigitValue(c) == Some(d)
  {
    if d < 10 then '0' + d as char else if upper then 'A' + (d - 10) as char else 'a' + (d - 10) as char
  }

  function DigitValue(c: char): (v: Option<nat>)
    ensures v.Some? ==> v.value < 16
  {
    if '0' <= c <= '9' then Some((c - '0') as nat)
    else if 'a' <= c <= 'f' then Some((c - 'a') as nat + 10)
    else if 'A' <= c <= 'F' then Some((c - 'A') as nat + 10)
    else None
  }

  /** `%x` and `%X`. */
  function Hex(n: nat, upper: bool): (s: string)
    ensures s != ""
  {
    if n < 16 then [HexDigit(n, upper)] else Hex(n / 16, upper) + [HexDigit(n % 16, upper)]
  }

  /** `%0<width>x` and `%0<width>X`. */
  function PaddedHex(n: nat, width: nat, upper: bool): (s: string)
    ensures |s| >= width
  {
    var digits := Hex(n, upper);
    Zeros(if |digits| < width then width - |digits| else 0) + digits
  }

  function Zeros(n: nat): (s: string)
    ensures |s| == n && forall i :: 0 <= i < n ==> s[i] == '0'
  {
    seq(n, i => '0')
  }

  /** `%d`. */
  function Decimal(n: nat): (s: string)
    ensures s != ""
  {
    if n < 10 then ['0' + n as char] else Decimal(n / 10) + ['0' + (n % 10) as char]
  }

  predicate IsHex(s: string) {
    forall i :: 0 <= i < |s| ==> DigitValue(s[i]).Some?
  }

  /** The number a string of hexadecimal digits denotes. */
  function ReadHex(s: string): nat
    requires IsHex(s)
  {
    if s == "" then 0 else 16 * ReadHex(s[..|s| - 1]) + DigitValue(s[|s| - 1]).value
  }

  lemma {:induction false} HexReadsBack(n: nat, upper: bool)
    ensures IsHex(Hex(n, upper)) && ReadHex(Hex(n, upper)) == n
  {
    if n >= 16 {
      HexReadsBack(n / 16, upper);
      assert Hex(n, upper)[..|Hex(n, upper)| - 1] == Hex(n / 16, upper);
    }
  }

  lemma {:induction false} LeadingZeros(n: nat, s: string)
    requires IsHex(s)
    ensures IsHex(Zeros(n) + s) && ReadHex(Zeros(n) + s) == ReadHex(s)
  {
    var t := Zeros(n) + s;
    if s != "" {
      assert t[..|t| - 1] == Zeros(n) + s[..|s| - 1];
      LeadingZeros(n, s[..|s| - 1]);
    } else if n > 0 {
      assert t[..n - 1] == Zeros(n - 1) + "";
      LeadingZeros(n - 1, "");
    }
  }

  lemma PaddedHexReadsBack(n: nat, width: nat, upper: bool)
    ensures IsHex(PaddedHex(n, width, upper)) && ReadHex(PaddedHex(n, width, upper)) == n
  {
    var digits := Hex(n, upper);
    HexReadsBack(n, upper);
    LeadingZeros(if |digits| < width then width - |digits| else 0, digits);
  }

  /** 16 to the power `k`. */
  function Pow16(k: nat): (p: nat)
    ensures p > 0
  {
    if k == 0 then 1 else 16 * Pow16(k - 1)
  }

  /** A number below 16 to the `k` takes at most `k` digits. */
  lemma {:induction false} HexLength(n: nat, k: nat, upper: bool)
    requires k > 0 && n < Pow16(k)
    ensures |Hex(n, upper)| <= k
  {
    assert Pow16(1) == 16;
    if n >= 16 {
      HexLength(n / 16, k - 1, upper);
    }
  }

  /** `k` digits or fewer denote a number below 16 to the `k`. */
  lemma {:induction false} ReadHexBound(s: string, k: nat)
    requires IsHex(s) && |s| <= k
    ensures ReadHex(s) < Pow16(k)
  {
    if s != "" {
      ReadHexBound(s[..|s| - 1], k - 1);
    }
  }

  lemma Pow16Values()
    ensures Pow16(2) == 0x100 && Pow16(4) == 0x1_0000 && Pow16(8) == 0x1_0000_0000
  {
    assert Pow16(1) == 16;
    assert Pow16(2) == 0x100;
    assert Pow16(3) == 0x1000;
    assert Pow16(4) == 0x1_0000;
    assert Pow16(6) == 0x100_0000;
  }

  // ----- the characters -----

  lemma HexDigitIs(d: nat, upper: bool)
    requires d < 16
    ensures HexDigit(d, upper) == if upper then "0123456789ABCDEF"[d] else "0123456789abcdef"[d]
  {
  }

  /** Letters have the case that was asked for. */
  predicate InCase(s: string, upper: bool) {
    forall i :: 0 <= i < |s| ==> if upper then !('a' <= s[i] <= 'f') else !('A' <= s[i] <= 'F')
  }

  lemma {:induction false} HexInCase(n: nat, upper: bool)
    ensures InCase(Hex(n, upper), upper)
    decreases n
  {
    if n < 16 {
      HexDigitIs(n, upper);
    } else {
      HexDigitIs(n % 16, upper);
      HexInCase(n / 16, upper);
    }
  }

  lemma PaddedHexInCase(n: nat, width: nat, upper: bool)
    ensures InCase(PaddedHex(n, width, upper), upper)
  {
    HexInCase(n, upper);
  }

  /** Without padding there are no leading zeros. */
  lemma {:induction false} HexHasNoLeadingZero(n: nat, upper: bool)
    ensures |Hex(n, upper)| > 1 ==> Hex(n, upper)[0] != '0'
    ensures Hex(n, upper)[0] == '0' <==> n == 0
    decreases n
  {
    if n < 16 {
      HexDigitIs(n, upper);
    } else {
      HexHasNoLeadingZero(n / 16, upper);
    }
  }
}
