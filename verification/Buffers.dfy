/** Bytes, and writing text into a character buffer, as sprintf, strcat and strlcpy do. */
module Buffers {
  type Byte = n: nat | n < 0x100

  /** Two bytes in network order: the first is the high octet. */
  function BigEndian(hi: Byte, lo: Byte): (n: nat)
    ensures n < 0x1_0000 && n / 0x100 == hi && n % 0x100 == lo
  {
    var h: nat, l: nat := hi, lo;
    h * 0x100 + l
  }

  const NUL := '\0'

  /** The buffer holds `text` and its terminator. */
  ghost predicate HoldsText(buf: array<char>, text: string)
    reads buf
  {
    |text| < buf.Length && buf[..|text|] == text && buf[|text|] == NUL
  }

  /** Writes `s` and a terminator at `at`; what stands before and behind stays. */
  method PutText(buf: array<char>, at: nat, s: string)
    requires at + |s| < buf.Length
    modifies buf
    ensures buf[..at + |s|] == old(buf[..at]) + s
    ensures buf[at + |s|] == NUL
    ensures buf[at + |s| + 1..] == old(buf[at + |s| + 1..])
  {
    for i := 0 to |s|
      invariant forall k :: 0 <= k < at ==> buf[k] == old(buf[k])
      invariant forall k :: at <= k < at + i ==> buf[k] == s[k - at]
      invariant forall k :: at + |s| <= k < buf.Length ==> buf[k] == old(buf[k])
    {
      buf[at + i] := s[i];
    }
    buf[at + |s|] := NUL;
  }

  /** What strlcpy copies of a text into `size` bytes. */
  function Truncated(s: string, size: nat): (t: string)
    ensures t <= s && |t| == if size == 0 then 0 else if |s| < size then |s| else size - 1
  {
    if size == 0 then "" else if |s| < size then s else s[..size - 1]
  }

  /** `strlcpy`: never writes more than `size` bytes, and terminates if it writes any. */
  method Strlcpy(dst: array<char>, s: string, size: nat)
    requires size <= dst.Length
    modifies dst
    ensures size > 0 ==> HoldsText(dst, Truncated(s, size))
    ensures size > 0 ==> dst[|Truncated(s, size)| + 1..] == old(dst[|Truncated(s, size)| + 1..])
    ensures dst[size..] == old(dst[size..])
  {
    if size > 0 {
      PutText(dst, 0, Truncated(s, size));
      assert dst[size..] == dst[|Truncated(s, size)| + 1..][size - |Truncated(s, size)| - 1..];
      assert old(dst[size..]) == old(dst[|Truncated(s, size)| + 1..])[size - |Truncated(s, size)| - 1..];
    }
  }
}
