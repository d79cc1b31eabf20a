/**
 * The mirror with its own checksum: damage to an image that the boot is sure to
 * notice.
 */
module NvmDamage {
  import opened Words
  import opened NvmMirror
  import opened CrcBytes

  /** Replacing four bytes of an image in the page replaces them in the image. */
  lemma Damaged(page: Bytes, d: Bytes, off: nat, bad: Bytes)
    requires |page| == PAGE && HDR + |d| <= PAGE && page[HDR..HDR + |d|] == d
    requires off + 4 <= |d| && |bad| == 4
    ensures var q := page[..HDR + off] + bad + page[HDR + off + 4..];
            |q| == PAGE && q[..HDR] == page[..HDR] && q[HDR..HDR + |d|] == d[..off] + bad + d[off + 4..]
  {
    assert page[..HDR + off] == page[..HDR] + d[..off];
    assert page[HDR + off + 4..] == d[off + 4..] + page[HDR + |d|..];
  }

  lemma HoldsImage(page: Bytes, d: Bytes, crc: Checksum)
    requires |page| == PAGE && Holds(page, d, crc)
    ensures HDR + |d| <= PAGE && page[HDR..HDR + |d|] == d
  {
    assert page[HDR..HDR + |d|] == page[HDR..HDR + |Padded(d)|][..|d|] == d;
  }

  /**
   * A mirror whose image has decayed within any four bytes in a row, by whatever
   * amount, is not restored: the boot starts from zeros and says so.
   */
  lemma DecayedImageIsRefused(page: Bytes, d: Bytes, off: nat, bad: Bytes, ram: Bytes)
    requires |page| == PAGE && Holds(page, d, CrcBytes.Crc32)
    requires off + 4 <= |d| && |bad| == 4 && bad != d[off..off + 4]
    ensures var q := page[..HDR + off] + bad + page[HDR + off + 4..];
            Boot(q, ram, CrcBytes.Crc32) == (Zeros(|ram|), CrcFail)
  {
    var q := page[..HDR + off] + bad + page[HDR + off + 4..];
    HoldsImage(page, d, CrcBytes.Crc32);
    Damaged(page, d, off, bad);
    HeaderWords(q, d, CrcBytes.Crc32);
    FourBytesChangeCrc(d, off, bad);
  }

  /**
   * And what the dirty check does not notice: with any change within four bytes in a
   * row, a program that fails between image and header makes the retry return 0 for
   * content that no boot will restore.
   */
  lemma SmallChangeIsLost(p: Bytes, d: Bytes, off: nat, change: Bytes) returns (s: Device, es: seq<Event>)
    requires |p| == PAGE && WordAt(p, 0) != MAGIC_V2 && off + 4 <= |d| <= ROOM
    requires |change| == 4 && change != d[off..off + 4]
    ensures Fresh(s) && s.page == p && LegalRun(s, es, CrcBytes.Crc32)
    ensures var t, ram := Run(s, es, CrcBytes.Crc32), d[..off] + change + d[off + 4..];
            && t.durable == Some(ram) && t.programs == 1
            && forall left: Bytes :: Boot(t.page, left, CrcBytes.Crc32) == (Zeros(|left|), CrcFail)
  {
    var ram := d[..off] + change + d[off + 4..];
    FourBytesChangeCrc(d, off, change);
    s, es := RetryAfterTornProgramLoses(p, d, ram, CrcBytes.Crc32);
  }
}
