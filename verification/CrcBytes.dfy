/**
 * CRC-32 over bytes as numbers, for the modules that work on those.
 */
module CrcBytes {
  import opened Words
  import Crc

  /** The k lowest binary digits, lowest first. */
  function Digits(x: nat, k: nat): (d: seq<bool>)
    ensures |d| == k
  {
    if k == 0 then [] else [x % 2 == 1] + Digits(x / 2, k - 1)
  }

  function Pow2(k: nat): nat { if k == 0 then 1 else 2 * Pow2(k - 1) }

  function EightBits(d: seq<bool>): bv8
    requires |d| == 8
  {
    (if d[0] then 0x01 else 0) | (if d[1] then 0x02 else 0) | (if d[2] then 0x04 else 0) | (if d[3] then 0x08 else 0)
    | (if d[4] then 0x10 else 0) | (if d[5] then 0x20 else 0) | (if d[6] then 0x40 else 0) | (if d[7] then 0x80 else 0)
  }

  function Bits(b: Bytes): seq<bv8> { seq(|b|, i requires 0 <= i < |b| => EightBits(Digits(b[i], 8))) }

  function Crc32(b: Bytes): u32 { Crc.Crc32(Bits(b)) as int }

  lemma BitsAppend(a: Bytes, b: Bytes)
    ensures Bits(a + b) == Bits(a) + Bits(b)
  {
  }

  lemma EightBitsInjective(a: seq<bool>, b: seq<bool>)
    requires |a| == 8 && |b| == 8 && EightBits(a) == EightBits(b)
    ensures a == b
  {
  }

  lemma {:induction false} DigitsInjective(x: nat, y: nat, k: nat)
    requires x < Pow2(k) && y < Pow2(k) && Digits(x, k) == Digits(y, k)
    ensures x == y
  {
    if k > 0 {
      assert Digits(x, k)[0] == Digits(y, k)[0];
      assert Digits(x, k)[1..] == Digits(x / 2, k - 1) && Digits(y, k)[1..] == Digits(y / 2, k - 1);
      DigitsInjective(x / 2, y / 2, k - 1);
    }
  }

  lemma BitsInjective(a: Bytes, b: Bytes)
    requires |a| == |b| && Bits(a) == Bits(b)
    ensures a == b
  {
    forall i | 0 <= i < |a| ensures a[i] == b[i] {
      assert Bits(a)[i] == Bits(b)[i];
      EightBitsInjective(Digits(a[i], 8), Digits(b[i], 8));
      DigitsInjective(a[i], b[i], 8);
    }
  }

  lemma SameWord(c: bv32, d: bv32)
    ensures c as int == d as int ==> c == d
  {
    assert (c as int) as bv32 == c;
    assert (d as int) as bv32 == d;
  }

  lemma BurstChangesCrc(p: Bytes, a: Bytes, b: Bytes, t: Bytes)
    requires |a| == 4 && |b| == 4 && a != b
    ensures Crc32(p + a + t) != Crc32(p + b + t)
  {
    BitsAppend(p + a, t);
    BitsAppend(p, a);
    BitsAppend(p + b, t);
    BitsAppend(p, b);
    if Bits(a) == Bits(b) { BitsInjective(a, b); }
    Crc.BurstIsDetected(Bits(p), Bits(a), Bits(b), Bits(t));
    SameWord(Crc.Crc32(Bits(p + a + t)), Crc.Crc32(Bits(p + b + t)));
  }

  /** Four bytes of d replaced by others. */
  lemma FourBytesChangeCrc(d: Bytes, off: nat, bad: Bytes)
    requires off + 4 <= |d| && |bad| == 4 && bad != d[off..off + 4]
    ensures Crc32(d[..off] + bad + d[off + 4..]) != Crc32(d)
  {
    assert d == d[..off] + d[off..off + 4] + d[off + 4..];
    BurstChangesCrc(d[..off], d[off..off + 4], bad, d[off + 4..]);
  }
}
