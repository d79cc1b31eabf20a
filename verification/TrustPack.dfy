/**
 * The packed trust-store file (pack and unpack in tools/gen_roots.py): a 28-byte
 * header, the certificates, padding to four bytes, and the table.
 */
module TrustPack {
  import opened Words
  import opened Der
  import opened TrustStore
  import CrcBytes

  const MAGIC: u32 := 0x5453_5254
  const VERSION: u32 := 1
  const HDR_LEN: nat := 28

  datatype Refusal = Short | BadMagic | BadVersion | BadDerOff | BadTable | BadCrc

  datatype Unpacked = Good(store: Store) | Bad(why: Refusal)

  // ---------------------------------------------------------------------------
  // The two functions
  // ---------------------------------------------------------------------------

  predicate Fits(n: nat) { n < 0x1_0000_0000 }

  predicate EntryFits(e: Entry) { Fits(e.certOff) && Fits(e.certLen) && Fits(e.subjOff) && Fits(e.subjLen) }

  predicate AllFit(es: seq<Entry>) { forall i :: 0 <= i < |es| ==> EntryFits(es[i]) }

  ghost function EntryBytes(e: Entry): (b: Bytes)
    requires EntryFits(e)
    ensures |b| == 16
  {
    LeBytes(e.certOff) + LeBytes(e.certLen) + LeBytes(e.subjOff) + LeBytes(e.subjLen)
  }

  ghost function TableBytes(es: seq<Entry>): (b: Bytes)
    requires AllFit(es)
    ensures |b| == 16 * |es|
  {
    if es == [] then [] else EntryBytes(es[0]) + TableBytes(es[1..])
  }

  function PadLen(n: nat): nat { (4 - n % 4) % 4 }

  function TableOff(derLen: nat): nat { HDR_LEN + derLen + PadLen(derLen) }

  /** struct.pack raises an error for a field of 2^32 or more. */
  predicate Packable(s: Store) {
    Fits(|s.entries|) && Fits(TableOff(|s.der|)) && AllFit(s.entries)
  }

  ghost function Header(count: u32, derLen: u32, tableOff: u32, sum: u32): (b: Bytes)
    ensures |b| == HDR_LEN
  {
    LeBytes(MAGIC) + LeBytes(VERSION) + LeBytes(count) + LeBytes(HDR_LEN) + LeBytes(derLen) + LeBytes(tableOff)
    + LeBytes(sum)
  }

  ghost function Payload(s: Store): Bytes
    requires Packable(s)
  {
    s.der + Zeros(PadLen(|s.der|)) + TableBytes(s.entries)
  }

  /** pack. */
  ghost function Pack(s: Store, crc: Checksum): Bytes
    requires Packable(s)
  {
    Header(|s.entries|, |s.der|, TableOff(|s.der|), crc(Payload(s))) + Payload(s)
  }

  function EntryAt(b: Bytes, at: nat): Entry
    requires at + 16 <= |b|
  {
    Entry(LeWord(b, at), LeWord(b, at + 4), LeWord(b, at + 8), LeWord(b, at + 12))
  }

  function TableAt(b: Bytes, at: nat, count: nat): (es: seq<Entry>)
    requires at + 16 * count <= |b|
    ensures |es| == count
    decreases count
  {
    if count == 0 then [] else [EntryAt(b, at)] + TableAt(b, at + 16, count - 1)
  }

  /** unpack: the checks in their order, the certificates cut to the bytes there
      are. */
  function Unpack(b: Bytes, crc: Checksum): Unpacked {
    if |b| < HDR_LEN then Bad(Short)
    else if LeWord(b, 0) != MAGIC then Bad(BadMagic)
    else if LeWord(b, 4) != VERSION then Bad(BadVersion)
    else if LeWord(b, 12) != HDR_LEN then Bad(BadDerOff)
    else if LeWord(b, 20) + LeWord(b, 8) * 16 != |b| then Bad(BadTable)
    else if crc(b[HDR_LEN..]) != LeWord(b, 24) then Bad(BadCrc)
    else Good(Store(Slice(b, HDR_LEN, HDR_LEN + LeWord(b, 16)), TableAt(b, LeWord(b, 20), LeWord(b, 8))))
  }

  /** The accumulating loop of unpack over the table. */
  method ReadTable(b: Bytes, at: nat, count: nat) returns (es: seq<Entry>)
    requires at + 16 * count <= |b|
    ensures es == TableAt(b, at, count)
  {
    es := [];
    var p: nat, left: nat := at, count;
    while left > 0
      invariant p + 16 * left <= |b| && es + TableAt(b, p, left) == TableAt(b, at, count)
    {
      var e := EntryAt(b, p);
      Regroup(es, [e], TableAt(b, p + 16, left - 1));
      p, left, es := p + 16, left - 1, es + [e];
    }
    assert es + [] == es;
  }

  // ---------------------------------------------------------------------------
  // Round trip
  // ---------------------------------------------------------------------------

  lemma WordReadsBack(b: Bytes, at: nat, w: u32)
    requires Has(b, at, LeBytes(w))
    ensures LeWord(b, at) == w
  {
    LeWordMoves(b, at, LeBytes(w));
  }

  lemma EntryReadsBack(b: Bytes, at: nat, e: Entry)
    requires EntryFits(e) && Has(b, at, EntryBytes(e))
    ensures EntryAt(b, at) == e
  {
    var w0, w1, w2, w3 := LeBytes(e.certOff), LeBytes(e.certLen), LeBytes(e.subjOff), LeBytes(e.subjLen);
    HasSplit(b, at, w0 + w1 + w2, w3);
    HasSplit(b, at, w0 + w1, w2);
    HasSplit(b, at, w0, w1);
    WordReadsBack(b, at, e.certOff);
    WordReadsBack(b, at + 4, e.certLen);
    WordReadsBack(b, at + 8, e.subjOff);
    WordReadsBack(b, at + 12, e.subjLen);
  }

  lemma {:induction false} TableReadsBack(b: Bytes, at: nat, es: seq<Entry>)
    requires AllFit(es) && Has(b, at, TableBytes(es))
    ensures TableAt(b, at, |es|) == es
    decreases es
  {
    if es != [] {
      HasSplit(b, at, EntryBytes(es[0]), TableBytes(es[1..]));
      EntryReadsBack(b, at, es[0]);
      TableReadsBack(b, at + 16, es[1..]);
      assert [es[0]] + es[1..] == es;
    }
  }

  lemma HeaderReadsBack(b: Bytes, count: u32, derLen: u32, tableOff: u32, sum: u32)
    requires Has(b, 0, Header(count, derLen, tableOff, sum))
    ensures LeWord(b, 0) == MAGIC && LeWord(b, 4) == VERSION && LeWord(b, 8) == count
    ensures LeWord(b, 12) == HDR_LEN && LeWord(b, 16) == derLen && LeWord(b, 20) == tableOff && LeWord(b, 24) == sum
  {
    var w0, w1, w2, w3 := LeBytes(MAGIC), LeBytes(VERSION), LeBytes(count), LeBytes(HDR_LEN);
    var w4, w5, w6 := LeBytes(derLen), LeBytes(tableOff), LeBytes(sum);
    HasSplit(b, 0, w0 + w1 + w2 + w3 + w4 + w5, w6);
    HasSplit(b, 0, w0 + w1 + w2 + w3 + w4, w5);
    HasSplit(b, 0, w0 + w1 + w2 + w3, w4);
    HasSplit(b, 0, w0 + w1 + w2, w3);
    HasSplit(b, 0, w0 + w1, w2);
    HasSplit(b, 0, w0, w1);
    WordReadsBack(b, 0, MAGIC);
    WordReadsBack(b, 4, VERSION);
    WordReadsBack(b, 8, count);
    WordReadsBack(b, 12, HDR_LEN);
    WordReadsBack(b, 16, derLen);
    WordReadsBack(b, 20, tableOff);
    WordReadsBack(b, 24, sum);
  }

  /** Where the parts of a packed file are. */
  lemma PackedParts(s: Store, crc: Checksum)
    requires Packable(s)
    ensures var b := Pack(s, crc); var t := TableOff(|s.der|);
            && |b| == t + 16 * |s.entries| && b[HDR_LEN..] == Payload(s)
            && Has(b, 0, Header(|s.entries|, |s.der|, t, crc(Payload(s))))
            && Has(b, HDR_LEN, s.der) && Has(b, HDR_LEN + |s.der|, Zeros(PadLen(|s.der|)))
            && Has(b, t, TableBytes(s.entries))
  {
    var b, p := Pack(s, crc), Payload(s);
    var h := Header(|s.entries|, |s.der|, TableOff(|s.der|), crc(p));
    assert b[0..|b|] == b;
    HasSplit(b, 0, h, p);
    HasSplit(b, HDR_LEN, s.der + Zeros(PadLen(|s.der|)), TableBytes(s.entries));
    HasSplit(b, HDR_LEN, s.der, Zeros(PadLen(|s.der|)));
    assert b[HDR_LEN..HDR_LEN + |p|] == b[HDR_LEN..];
  }

  /** What the header words decide. */
  lemma Accepted(b: Bytes, crc: Checksum, count: u32, derLen: u32, tableOff: u32, s: Store)
    requires HDR_LEN <= |b| == tableOff + 16 * count
    requires LeWord(b, 0) == MAGIC && LeWord(b, 4) == VERSION && LeWord(b, 8) == count
    requires LeWord(b, 12) == HDR_LEN && LeWord(b, 16) == derLen && LeWord(b, 20) == tableOff
    requires LeWord(b, 24) == crc(b[HDR_LEN..])
    requires Slice(b, HDR_LEN, HDR_LEN + derLen) == s.der && TableAt(b, tableOff, count) == s.entries
    ensures Unpack(b, crc) == Good(s)
  {
  }

  /** A file with these parts is accepted as the store. */
  lemma PartsAccepted(b: Bytes, crc: Checksum, count: u32, derLen: u32, t: u32, sum: u32, s: Store)
    requires HDR_LEN <= |b| == t + 16 * count && sum == crc(b[HDR_LEN..])
    requires Has(b, 0, Header(count, derLen, t, sum))
    requires Slice(b, HDR_LEN, HDR_LEN + derLen) == s.der && TableAt(b, t, count) == s.entries
    ensures Unpack(b, crc) == Good(s)
  {
    HeaderReadsBack(b, count, derLen, t, sum);
    Accepted(b, crc, count, derLen, t, s);
  }

  /** The parts of a packed file, as the header and the reader see them. */
  lemma PackedIs(s: Store, crc: Checksum) returns (b: Bytes, t: u32, sum: u32)
    requires Packable(s)
    ensures b == Pack(s, crc) && t == TableOff(|s.der|) && HDR_LEN <= |b| == t + 16 * |s.entries|
    ensures sum == crc(b[HDR_LEN..]) && Has(b, 0, Header(|s.entries|, |s.der|, t, sum))
    ensures Slice(b, HDR_LEN, HDR_LEN + |s.der|) == s.der && TableAt(b, t, |s.entries|) == s.entries
  {
    b, t, sum := Pack(s, crc), TableOff(|s.der|), crc(Payload(s));
    PackedParts(s, crc);
    TableReadsBack(b, t, s.entries);
    SliceIs(b, HDR_LEN, s.der);
  }

  lemma TableIsAligned(n: nat)
    ensures TableOff(n) % 4 == 0
  {
  }

  /** Packing and unpacking gives back the blob and the table. */
  lemma RoundTrip(s: Store, crc: Checksum) returns (b: Bytes)
    requires Packable(s)
    ensures b == Pack(s, crc) && Unpack(b, crc) == Good(s)
  {
    var t, sum;
    b, t, sum := PackedIs(s, crc);
    PartsAccepted(b, crc, |s.entries|, |s.der|, t, sum, s);
  }

  /** The table starts on a multiple of four and ends with the file. */
  lemma TableEndsFile(s: Store, crc: Checksum)
    requires Packable(s)
    ensures LeWord(Pack(s, crc), 20) % 4 == 0
    ensures LeWord(Pack(s, crc), 20) + 16 * LeWord(Pack(s, crc), 8) == |Pack(s, crc)|
  {
    var b, t, sum := PackedIs(s, crc);
    HeaderReadsBack(b, |s.entries|, |s.der|, t, sum);
    TableIsAligned(|s.der|);
  }

  lemma SliceIs(b: Bytes, at: nat, part: Bytes)
    requires Has(b, at, part)
    ensures Slice(b, at, at + |part|) == part
  {
  }

  // ---------------------------------------------------------------------------
  // The other way round
  // ---------------------------------------------------------------------------

  /** A file laid out as pack lays it out: the table right behind the padding, the
      padding zero. */
  predicate Canonical(b: Bytes) {
    && HDR_LEN <= |b|
    && LeWord(b, 20) == TableOff(LeWord(b, 16)) <= |b|
    && b[HDR_LEN + LeWord(b, 16)..LeWord(b, 20)] == Zeros(PadLen(LeWord(b, 16)))
  }

  lemma WordBytesBack(b: Bytes, at: nat)
    requires at + 4 <= |b|
    ensures b[at..at + 4] == LeBytes(LeWord(b, at))
  {
    LeValueInjective(b[at..at + 4], LeBytes(LeWord(b, at)));
  }

  lemma EntryBytesBack(b: Bytes, at: nat)
    requires at + 16 <= |b|
    ensures EntryFits(EntryAt(b, at)) && b[at..at + 16] == EntryBytes(EntryAt(b, at))
  {
    WordBytesBack(b, at);
    WordBytesBack(b, at + 4);
    WordBytesBack(b, at + 8);
    WordBytesBack(b, at + 12);
    assert b[at..at + 16] == b[at..at + 4] + b[at + 4..at + 8] + b[at + 8..at + 12] + b[at + 12..at + 16];
  }

  lemma {:induction false} TableBytesBack(b: Bytes, at: nat, count: nat)
    requires at + 16 * count <= |b|
    ensures AllFit(TableAt(b, at, count)) && b[at..at + 16 * count] == TableBytes(TableAt(b, at, count))
    decreases count
  {
    if count > 0 {
      EntryBytesBack(b, at);
      TableBytesBack(b, at + 16, count - 1);
      assert b[at..at + 16 * count] == b[at..at + 16] + b[at + 16..at + 16 + 16 * (count - 1)];
      assert TableAt(b, at, count)[1..] == TableAt(b, at + 16, count - 1);
    }
  }

  lemma HeaderBytesBack(b: Bytes)
    requires HDR_LEN <= |b| && LeWord(b, 0) == MAGIC && LeWord(b, 4) == VERSION && LeWord(b, 12) == HDR_LEN
    ensures b[..HDR_LEN] == Header(LeWord(b, 8), LeWord(b, 16), LeWord(b, 20), LeWord(b, 24))
  {
    WordBytesBack(b, 0);
    WordBytesBack(b, 4);
    WordBytesBack(b, 8);
    WordBytesBack(b, 12);
    WordBytesBack(b, 16);
    WordBytesBack(b, 20);
    WordBytesBack(b, 24);
    var w := b[..HDR_LEN];
    assert w[..8] == b[0..4] + b[4..8];
    assert w[..12] == w[..8] + b[8..12];
    assert w[..16] == w[..12] + b[12..16];
    assert w[..20] == w[..16] + b[16..20];
    assert w[..24] == w[..20] + b[20..24];
    assert w == w[..24] + b[24..28];
  }

  /**
   * Packing what was unpacked gives back the same file exactly when it was laid
   * out canonically: unpack checks neither the gap before the table nor its bytes.
   */
  lemma RepackIff(b: Bytes, crc: Checksum)
    requires Unpack(b, crc).Good?
    ensures var s := Unpack(b, crc).store;
            Packable(s) && Pack(s, crc) == b <==> Canonical(b)
  {
    var s := Unpack(b, crc).store;
    if Canonical(b) {
      CanonicalRepacks(b, crc, s);
    }
    if Packable(s) && Pack(s, crc) == b {
      PackedParts(s, crc);
      HeaderReadsBack(b, |s.entries|, |s.der|, TableOff(|s.der|), crc(Payload(s)));
    }
  }

  /** The payload with a gap of four bytes before the table. */
  ghost function GappedPayload(s: Store, gap: Bytes): Bytes
    requires Packable(s)
  {
    s.der + Zeros(PadLen(|s.der|)) + gap + TableBytes(s.entries)
  }

  /**
   * Such files there are: for every store and any four bytes put before the table,
   * with the header to match, unpack gives the store, and pack does not give the
   * file back.
   */
  lemma GapIsAccepted(s: Store, gap: Bytes, crc: Checksum) returns (b: Bytes)
    requires Packable(s) && |gap| == 4 && Fits(TableOff(|s.der|) + 4)
    ensures Unpack(b, crc) == Good(s) && !Canonical(b) && Pack(s, crc) != b
  {
    var p, t := GappedPayload(s, gap), TableOff(|s.der|) + 4;
    var h := Header(|s.entries|, |s.der|, t, crc(p));
    b := h + p;
    GappedParts(s, gap, h, b, t);
    TableReadsBack(b, t, s.entries);
    SliceIs(b, HDR_LEN, s.der);
    PartsAccepted(b, crc, |s.entries|, |s.der|, t, crc(p), s);
    HeaderReadsBack(b, |s.entries|, |s.der|, t, crc(p));
    RepackIff(b, crc);
  }

  lemma GappedParts(s: Store, gap: Bytes, h: Bytes, b: Bytes, t: nat)
    requires Packable(s) && |gap| == 4 && |h| == HDR_LEN && b == h + GappedPayload(s, gap) && t == TableOff(|s.der|) + 4
    ensures |b| == t + 16 * |s.entries| && b[HDR_LEN..] == GappedPayload(s, gap)
    ensures Has(b, 0, h) && Has(b, HDR_LEN, s.der) && Has(b, t, TableBytes(s.entries))
  {
    var p, pad := GappedPayload(s, gap), Zeros(PadLen(|s.der|));
    assert b[0..|b|] == b;
    HasSplit(b, 0, h, p);
    HasSplit(b, HDR_LEN, s.der + pad + gap, TableBytes(s.entries));
    HasSplit(b, HDR_LEN, s.der + pad, gap);
    HasSplit(b, HDR_LEN, s.der, pad);
  }

  lemma CanonicalRepacks(b: Bytes, crc: Checksum, s: Store)
    requires Unpack(b, crc) == Good(s) && Canonical(b)
    ensures Packable(s) && Pack(s, crc) == b
  {
    var n, t, count := LeWord(b, 16), LeWord(b, 20), LeWord(b, 8);
    TableBytesBack(b, t, count);
    HeaderBytesBack(b);
    Reassembled(b, crc, s, count, n, t, LeWord(b, 24));
  }

  /** A file made of the parts pack makes is what pack makes. */
  lemma Reassembled(b: Bytes, crc: Checksum, s: Store, count: u32, n: u32, t: u32, sum: u32)
    requires HDR_LEN <= |b| == t + 16 * count && t == TableOff(n) && sum == crc(b[HDR_LEN..])
    requires b[..HDR_LEN] == Header(count, n, t, sum)
    requires s.der == Slice(b, HDR_LEN, HDR_LEN + n) && b[HDR_LEN + n..t] == Zeros(PadLen(n))
    requires |s.entries| == count && AllFit(s.entries) && b[t..t + 16 * count] == TableBytes(s.entries)
    ensures Packable(s) && Pack(s, crc) == b
  {
    SliceInside(b, HDR_LEN, HDR_LEN + n);
    FourParts(b, HDR_LEN, HDR_LEN + n, t);
    assert b[t..t + 16 * count] == b[t..];
  }

  lemma SliceInside(b: Bytes, i: nat, j: nat)
    requires i <= j <= |b|
    ensures Slice(b, i, j) == b[i..j]
  {
  }

  lemma FourParts(b: Bytes, i: nat, j: nat, k: nat)
    requires i <= j <= k <= |b|
    ensures b[i..] == b[i..j] + b[j..k] + b[k..] && b == b[..i] + b[i..]
  {
  }

  // ---------------------------------------------------------------------------
  // Damage
  // ---------------------------------------------------------------------------

  /** The file with four bytes of its payload replaced. */
  function Damaged(b: Bytes, off: nat, bad: Bytes): Bytes
    requires HDR_LEN + off + 4 <= |b|
  {
    b[..HDR_LEN + off] + bad + b[HDR_LEN + off + 4..]
  }

  lemma DamageChangesSum(s: Store, off: nat, bad: Bytes) returns (d: Bytes, t: u32, sum: u32)
    requires Packable(s) && off + 4 <= |Payload(s)| && |bad| == 4 && bad != Payload(s)[off..off + 4]
    ensures d == Damaged(Pack(s, CrcBytes.Crc32), off, bad)
    ensures HDR_LEN <= |d| == t + 16 * |s.entries| && Fits(|s.der|) && Fits(|s.entries|)
    ensures Has(d, 0, Header(|s.entries|, |s.der|, t, sum)) && CrcBytes.Crc32(d[HDR_LEN..]) != sum
  {
    var p := Payload(s);
    t, sum := TableOff(|s.der|), CrcBytes.Crc32(p);
    d := Damaged(Pack(s, CrcBytes.Crc32), off, bad);
    Replaced(Header(|s.entries|, |s.der|, t, sum), p, off, bad);
    CrcBytes.FourBytesChangeCrc(p, off, bad);
  }

  /** With zlib's CRC-32, a packed file whose payload differs in any four bytes in
      a row is refused. */
  lemma DamageIsRefused(s: Store, off: nat, bad: Bytes)
    requires Packable(s) && off + 4 <= |Payload(s)| && |bad| == 4 && bad != Payload(s)[off..off + 4]
    ensures Unpack(Damaged(Pack(s, CrcBytes.Crc32), off, bad), CrcBytes.Crc32) == Bad(BadCrc)
  {
    var d, t, sum := DamageChangesSum(s, off, bad);
    BadSumRefused(d, CrcBytes.Crc32, |s.entries|, |s.der|, t, sum);
  }

  lemma Replaced(h: Bytes, p: Bytes, off: nat, bad: Bytes)
    requires |h| == HDR_LEN && off + 4 <= |p| && |bad| == 4
    ensures var b := h + p; var d := b[..HDR_LEN + off] + bad + b[HDR_LEN + off + 4..];
            |d| == |b| && Has(d, 0, h) && d[HDR_LEN..] == p[..off] + bad + p[off + 4..]
  {
    var b := h + p;
    assert b[..HDR_LEN + off] == h + p[..off] && b[HDR_LEN + off + 4..] == p[off + 4..];
  }

  lemma BadSumRefused(d: Bytes, crc: Checksum, count: u32, derLen: u32, t: u32, sum: u32)
    requires HDR_LEN <= |d| == t + 16 * count && Has(d, 0, Header(count, derLen, t, sum)) && crc(d[HDR_LEN..]) != sum
    ensures Unpack(d, crc) == Bad(BadCrc)
  {
    HeaderReadsBack(d, count, derLen, t, sum);
  }
}
