/** The FNV-1 hash, in an unsigned long of either width. */
module Hash {
  import opened Buffers
  import opened Remainders

  const PRIME := 0x0100_0193
  const INIT := 0x811c_9dc5
  const WORD32 := 0x1_0000_0000
  const WORD64 := 0x1_0000_0000_0000_0000

  function Xor(x: Byte, y: Byte): Byte {
    ((x as bv8) ^ (y as bv8)) as nat
  }

  /** Exclusive or with a byte, which reaches the low byte of `h` only. */
  function XorByte(h: nat, b: Byte): nat {
    var low: Byte := h % 0x100;
    h - low + Xor(low, b)
  }

  /** One octet, in words of `word` values. */
  function Absorb(h: nat, b: Byte, word: nat): nat
    requires word > 0
  {
    XorByte((h * PRIME) % word, b)
  }

  function Fnv(bytes: seq<Byte>, word: nat): nat
    requires word > 0
  {
    if bytes == [] then INIT else Absorb(Fnv(bytes[..|bytes| - 1], word), bytes[|bytes| - 1], word)
  }

  method Fnv32(buf: seq<Byte>, word: nat) returns (hval: nat)
    requires word > 0
    ensures hval == Fnv(buf, word)
  {
    hval := INIT;
    var bp := 0;
    while bp < |buf|
      invariant 0 <= bp <= |buf| && hval == Fnv(buf[..bp], word)
    {
      assert buf[..bp + 1][..bp] == buf[..bp];
      hval := (hval * PRIME) % word;
      hval := XorByte(hval, buf[bp]);
      bp := bp + 1;
    }
    assert buf[..bp] == buf;
  }

  // ----- the constants and the steps -----

  /** Nothing is folded to the offset basis, and the letter `a` to the value FNV-1 has for it. */
  lemma FnvValues()
    ensures Fnv([], WORD32) == 0x811c_9dc5 && Fnv([], WORD64) == 0x811c_9dc5
    ensures Fnv([0x61], WORD32) == 0x050c_5d7e
  {
    assert [0x61][..0] == [];
    assert (INIT * PRIME) % WORD32 == 0x050c_5d1f;
    assert 0x050c_5d1f % 0x100 == 0x1f && Xor(0x1f, 0x61) == 0x7e;
  }

  /** An octet changes the low octet, bit by bit, of the product with the prime and nothing else of
      it. */
  lemma OneMoreOctet(bytes: seq<Byte>, b: Byte, word: nat)
    requires word > 0
    ensures var product, h := (Fnv(bytes, word) * 16777619) % word, Fnv(bytes + [b], word);
            h / 0x100 == product / 0x100 && (h % 0x100) as bv8 == ((product % 0x100) as bv8 ^ b as bv8)
  {
    assert (bytes + [b])[..|bytes|] == bytes;
    var product := (Fnv(bytes, word) * PRIME) % word;
    LowOctet(product, b);
  }

  lemma LowOctet(h: nat, b: Byte)
    ensures XorByte(h, b) / 0x100 == h / 0x100 && XorByte(h, b) % 0x100 == Xor(h % 0x100, b)
  {
  }

  // ----- the width does not matter -----

  lemma XorTruncates(h: nat, b: Byte)
    ensures XorByte(h, b) % WORD32 == XorByte(h % WORD32, b)
  {
    var q, r := h / WORD32, h % WORD32;
    RemainderOfRemainder(h, 0x100, 0x100_0000);
    var x := Xor(r % 0x100, b);
    assert r - r % 0x100 + x < WORD32;
    RemainderIs(XorByte(h, b), q, r - r % 0x100 + x, WORD32);
  }

  /** The 64-bit hash, cut to 32 bits, is the 32-bit hash. */
  lemma {:induction false} TruncationCommutes(bytes: seq<Byte>)
    ensures Fnv(bytes, WORD64) % WORD32 == Fnv(bytes, WORD32)
  {
    if bytes != [] {
      var before, b := bytes[..|bytes| - 1], bytes[|bytes| - 1];
      TruncationCommutes(before);
      var h := Fnv(before, WORD64);
      ProductTruncates(h);
      XorTruncates((h * PRIME) % WORD64, b);
    }
  }

  lemma ProductTruncates(h: nat)
    ensures (h * PRIME) % WORD64 % WORD32 == ((h % WORD32) * PRIME) % WORD32
  {
    RemainderOfRemainder(h * PRIME, WORD32, WORD32);
    RemainderOfProduct(h, PRIME, WORD32);
  }

  const TABSIZE := 128

  /** The chain of the table a key belongs to. */
  function Bucket(bytes: seq<Byte>, word: nat): (i: nat)
    requires word > 0
    ensures i < TABSIZE
  {
    Fnv(bytes, word) % TABSIZE
  }

  /** The chain is the same whether unsigned long has 32 or 64 bits. */
  lemma BucketIgnoresWidth(bytes: seq<Byte>)
    ensures Bucket(bytes, WORD64) == Bucket(bytes, WORD32) == Fnv(bytes, WORD32) % 128
  {
    TruncationCommutes(bytes);
    RemainderOfRemainder(Fnv(bytes, WORD64), TABSIZE, 0x200_0000);
  }
}
