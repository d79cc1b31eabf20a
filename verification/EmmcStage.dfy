/**
 * Staging a file from the card into the PSRAM by its extents
 * (tiku_emmc_stage_open, _chunk and _close in arch/ambiq/tiku_emmc_arch.c).
 *
 * The source is hashed extent by extent as it passes, in pieces of at most
 * 512 KB; the destination is hashed afterwards in 512 KB pieces of its own.  The
 * step of the hash, (h xor w) * 16777619 modulo 2^32, is a parameter: nothing
 * here depends on which step it is.
 */
module EmmcStage {
  import opened Words

  type Mix = (u32, u32) -> u32

  const BLOCK: nat := 512
  const CHUNK: nat := 512 * 1024
  const PIECE: nat := 1024              // blocks in 512 KB
  const SEG: nat := 65536
  const SEED: u32 := 2166136261

  // ---------------------------------------------------------------------------
  // The hash
  // ---------------------------------------------------------------------------

  /** Over whole words; up to three bytes at the end are left out. */
  function Hash(mix: Mix, p: Bytes, h: u32): u32
    decreases |p|
  {
    if |p| < 4 then h else Hash(mix, p[4..], mix(h, LeWord(p, 0)))
  }

  /** stage_hash. */
  method StageHash(mix: Mix, p: Bytes, h0: u32) returns (h: u32)
    ensures h == Hash(mix, p, h0)
  {
    h := h0;
    var i := 0;
    while i < |p| / 4
      invariant i <= |p| / 4 && Hash(mix, p[4 * i..], h) == Hash(mix, p, h0)
    {
      assert p[4 * i..][4..] == p[4 * (i + 1)..];
      h := mix(h, LeWord(p[4 * i..], 0));
      i := i + 1;
    }
  }

  /** A piece of whole words may be hashed ahead of the rest. */
  lemma {:induction false} HashAppend(mix: Mix, a: Bytes, b: Bytes, h: u32)
    requires |a| % 4 == 0
    ensures Hash(mix, a + b, h) == Hash(mix, b, Hash(mix, a, h))
    decreases |a|
  {
    if a == [] {
      assert a + b == b;
    } else {
      assert (a + b)[4..] == a[4..] + b && (a + b)[0..4] == a[0..4];
      HashAppend(mix, a[4..], b, mix(h, LeWord(a, 0)));
    }
  }

  /** Piece by piece, however the data is cut into pieces of whole words. */
  function HashPieces(mix: Mix, ps: seq<Bytes>, h: u32): u32
    decreases ps
  {
    if ps == [] then h else HashPieces(mix, ps[1..], Hash(mix, ps[0], h))
  }

  lemma {:induction false} PiecesDoNotMatter(mix: Mix, ps: seq<Bytes>, h: u32)
    requires forall p <- ps :: |p| % 4 == 0
    ensures HashPieces(mix, ps, h) == Hash(mix, Concat(ps), h)
    decreases ps
  {
    if ps != [] {
      PiecesDoNotMatter(mix, ps[1..], Hash(mix, ps[0], h));
      HashAppend(mix, ps[0], Concat(ps[1..]), h);
    }
  }

  // ---------------------------------------------------------------------------
  // Staging
  // ---------------------------------------------------------------------------

  datatype Extent = Extent(lba: nat, n: nat)

  datatype Error = Ok | ErrNoMem | ErrCmd

  /** The bytes of an extent of the card. */
  function Read(card: seq<Bytes>, lba: nat, n: nat): Bytes {
    if lba + n <= |card| then Concat(card[lba..lba + n]) else []
  }

  predicate Formatted(card: seq<Bytes>) { forall i :: 0 <= i < |card| ==> |card[i]| == BLOCK }

  lemma {:induction false} ConcatSize(ps: seq<Bytes>)
    requires Formatted(ps)
    ensures |Concat(ps)| == BLOCK * |ps|
  {
    if ps != [] { ConcatSize(ps[1..]); }
  }

  lemma ReadSplits(card: seq<Bytes>, lba: nat, k: nat, n: nat)
    requires Formatted(card) && lba + k + n <= |card|
    ensures Read(card, lba, k + n) == Read(card, lba, k) + Read(card, lba + k, n)
    ensures |Read(card, lba, k)| == BLOCK * k
  {
    assert card[lba..lba + k + n] == card[lba..lba + k] + card[lba + k..lba + k + n];
    ConcatAppend(card[lba..lba + k], card[lba + k..lba + k + n]);
    assert Formatted(card[lba..lba + k]);
    ConcatSize(card[lba..lba + k]);
  }

  lemma ReadNothing(card: seq<Bytes>, lba: nat)
    ensures Read(card, lba, 0) == []
  {
  }

  lemma Grown(card: seq<Bytes>, lba: nat, k: nat, n: nat, start: Bytes, before: Bytes)
    requires Formatted(card) && lba + k + n <= |card| && before == start + Read(card, lba, k)
    ensures before + Read(card, lba + k, n) == start + Read(card, lba, k + n)
  {
    ReadSplits(card, lba, k, n);
    Regroup(start, Read(card, lba, k), Read(card, lba + k, n));
  }

  /** The extents' contents. */
  function Files(card: seq<Bytes>, es: seq<Extent>): (r: seq<Bytes>)
    ensures |r| == |es|
  {
    seq(|es|, i requires 0 <= i < |es| => Read(card, es[i].lba, es[i].n))
  }

  lemma FilesGrow(card: seq<Bytes>, es: seq<Extent>, i: nat)
    requires i < |es|
    ensures Concat(Files(card, es[..i + 1])) == Concat(Files(card, es[..i])) + Read(card, es[i].lba, es[i].n)
  {
    var last := Read(card, es[i].lba, es[i].n);
    assert Files(card, es[..i + 1]) == Files(card, es[..i]) + [last];
    ConcatAppend(Files(card, es[..i]), [last]);
    assert Concat([last]) == last + [];
  }

  lemma StaysAligned(off: nat, n: nat, unit: nat)
    requires (unit == BLOCK || unit == CHUNK) && off % unit == 0
    ensures off % 4 == 0 && (off + unit * n) % unit == 0
  {
    if unit == BLOCK { BlockAligned(off, n); } else { ChunkAligned(off, n); }
  }

  lemma BlockAligned(off: nat, n: nat)
    requires off % 512 == 0
    ensures off % 4 == 0 && (off + 512 * n) % 512 == 0
  {
    var q := off / 512;
    DivUnique(off, 4, 128 * q, 0);
    DivUnique(off + 512 * n, 512, q + n, 0);
  }

  lemma ChunkAligned(off: nat, n: nat)
    requires off % 524288 == 0
    ensures off % 4 == 0 && (off + 524288 * n) % 524288 == 0
  {
    var q := off / 524288;
    DivUnique(off, 4, 131072 * q, 0);
    DivUnique(off + 524288 * n, 524288, q + n, 0);
  }

  /** Hashing on behind what has been hashed. */
  lemma HashOn(mix: Mix, done: Bytes, piece: Bytes, whole: Bytes, h: u32)
    requires |done| % 4 == 0 && whole == done + piece && h == Hash(mix, done, SEED)
    ensures Hash(mix, piece, h) == Hash(mix, whole, SEED)
  {
    HashAppend(mix, done, piece, SEED);
  }

  /** The command queue's segment for a transfer divides it. */
  lemma SegmentDivides(bytes: nat)
    requires bytes > 0
    ensures var seg := if bytes % SEG == 0 then SEG else bytes;
            bytes % seg == 0 && 0 < seg
  {
  }

  /** The card, the PSRAM, the bounce buffer and the statics; `image` is what has
      been staged since the open. */
  class Stager {
    const mix: Mix
    const card: seq<Bytes>
    const psram: array<u8>
    const bounce: array<u8>
    var workspace: bool             // s_bench_buf is not NULL
    var xip: bool
    var s_stg_off: nat
    var s_stg_src: u32
    var s_stg_xip: bool
    ghost var image: Bytes
    ghost var failed: bool          // a transfer has failed since the open
    ghost var faults: nat           // refused workspaces and failed transfers, ever

    ghost predicate Valid()
      reads this, psram
    {
      && bounce.Length == CHUNK && bounce != psram && Formatted(card)
      && (workspace && !failed ==> Staged())
    }

    /** What has been staged is in the PSRAM and in the source hash. */
    ghost predicate Staged()
      reads this, psram
    {
      && s_stg_off == |image| <= psram.Length && s_stg_off % BLOCK == 0
      && psram[..s_stg_off] == image && s_stg_src == Hash(mix, image, SEED)
    }

    constructor (mix: Mix, card: seq<Bytes>, psram: array<u8>, mapped: bool)
      requires Formatted(card)
      ensures Valid() && this.card == card && this.psram == psram && this.mix == mix && xip == mapped && !workspace
      ensures fresh(bounce)
    {
      this.mix, this.card, this.psram := mix, card, psram;
      bounce := new u8[CHUNK](_ => 0);
      workspace, xip, s_stg_off, s_stg_src, s_stg_xip, image, failed, faults := false, mapped, 0, SEED, false, [], false, 0;
    }

    /** tiku_emmc_stage_open; the workspace may be refused. */
    method Open() returns (rc: Error)
      requires Valid()
      modifies this
      ensures Valid() && (rc == Ok || (rc == ErrNoMem && xip == old(xip) && !s_stg_xip))
      ensures faults == old(faults) + (if rc == Ok then 0 else 1)
      ensures rc == Ok ==> workspace && !failed && image == [] && !xip && s_stg_xip == old(xip)
    {
      s_stg_xip := false;
      var granted: bool :| true;
      if !granted {
        workspace, faults := false, faults + 1;
        return ErrNoMem;
      }
      workspace, s_stg_off, s_stg_src, image, failed := true, 0, SEED, [], false;
      assert psram[..0] == [];
      s_stg_xip := xip;
      if s_stg_xip { xip := false; }
      rc := Ok;
    }

    /** The card's blocks into the bounce buffer: faithful, or an error. */
    method ReadBlocks(lba: nat, n: nat) returns (rc: Error)
      requires bounce.Length == CHUNK && Formatted(card) && n <= PIECE
      modifies bounce, `faults
      ensures rc == Ok ==> lba + n <= |card|
      ensures faults == old(faults) + (if rc == Ok then 0 else 1)
      ensures rc == Ok ==> |Read(card, lba, n)| == BLOCK * n && bounce[..BLOCK * n] == Read(card, lba, n)
    {
      var works: bool :| true;
      if !works || lba + n > |card| {
        faults := faults + 1;
        return ErrCmd;
      }
      ReadSplits(card, lba, n, 0);
      var data := Read(card, lba, n);
      forall i | 0 <= i < BLOCK * n { bounce[i] := data[i]; }
      rc := Ok;
    }

    /** tiku_psram_cq_xfer to the PSRAM, in segments that must divide the size:
        faithful, or an error. */
    method CqWrite(off: nat, bytes: nat, seg: nat) returns (ok: bool)
      requires bounce.Length == CHUNK && bounce != psram && 0 < seg && bytes % seg == 0 && bytes <= CHUNK
      modifies psram, `faults
      ensures faults == old(faults) + (if ok then 0 else 1)
      ensures ok ==> off + bytes <= psram.Length
                     && psram[..off + bytes] == old(psram[..off]) + bounce[..bytes]
    {
      ok :| true;
      ok := ok && off + bytes <= psram.Length;
      if !ok {
        faults := faults + 1;
        return;
      }
      forall i | 0 <= i < bytes { psram[off + i] := bounce[i]; }
    }

    /** The same from the PSRAM. */
    method CqRead(off: nat, bytes: nat, seg: nat) returns (ok: bool)
      requires bounce.Length == CHUNK && bounce != psram && 0 < seg && bytes % seg == 0 && bytes <= CHUNK
      modifies bounce, `faults
      ensures faults == old(faults) + (if ok then 0 else 1)
      ensures ok ==> off + bytes <= psram.Length && bounce[..bytes] == psram[off..off + bytes]
    {
      ok :| true;
      ok := ok && off + bytes <= psram.Length;
      if !ok {
        faults := faults + 1;
        return;
      }
      forall i | 0 <= i < bytes { bounce[i] := psram[off + i]; }
    }

    /** Write the hashed piece in the bounce buffer behind what is there. */
    method Append(bytes: nat) returns (ok: bool)
      requires bounce.Length == CHUNK && bounce != psram && 0 < bytes <= CHUNK && bytes % BLOCK == 0
      requires s_stg_off == |image| <= psram.Length && s_stg_off % BLOCK == 0 && psram[..s_stg_off] == image
      requires s_stg_src == Hash(mix, image + bounce[..bytes], SEED)
      modifies `s_stg_off, `image, `faults, psram
      ensures faults == old(faults) + (if ok then 0 else 1)
      ensures ok ==> image == old(image + bounce[..bytes]) && Staged()
    {
      SegmentDivides(bytes);
      ok := CqWrite(s_stg_off, bytes, if bytes % SEG == 0 then SEG else bytes);
      if !ok { return; }
      StaysAligned(s_stg_off, bytes / BLOCK, BLOCK);
      image := image + bounce[..bytes];
      s_stg_off := s_stg_off + bytes;
    }

    /** One piece of an extent: read, hash, write behind what is there. */
    method StagePiece(lba: nat, n: nat) returns (rc: Error)
      requires Valid() && workspace && !failed && 0 < n <= PIECE
      modifies `s_stg_off, `s_stg_src, `image, `failed, `faults, bounce, psram
      ensures Valid() && failed == (rc != Ok) && faults == old(faults) + (if rc == Ok then 0 else 1)
      ensures rc == Ok ==> lba + n <= |card| && image == old(image) + Read(card, lba, n)
    {
      rc := ReadBlocks(lba, n);
      failed := rc != Ok;
      if rc != Ok { return; }
      StaysAligned(s_stg_off, 0, BLOCK);
      HashOn(mix, image, bounce[..BLOCK * n], image + bounce[..BLOCK * n], s_stg_src);
      s_stg_src := StageHash(mix, bounce[..BLOCK * n], s_stg_src);
      var ok := Append(BLOCK * n);
      failed := !ok;
      if !ok { rc := ErrCmd; }
    }

    /** Of the extent from lba on, k blocks are staged behind `start`. */
    ghost predicate SoFar(start: Bytes, lba: nat, k: nat)
      reads this
    {
      image == start + Read(card, lba, k) && (k > 0 ==> lba + k <= |card|)
    }

    method StageMore(lba: nat, k: nat, n: nat, ghost start: Bytes) returns (rc: Error)
      requires Valid() && workspace && !failed && 0 < n <= PIECE && SoFar(start, lba, k)
      modifies `s_stg_off, `s_stg_src, `image, `failed, `faults, bounce, psram
      ensures Valid() && failed == (rc != Ok) && faults == old(faults) + (if rc == Ok then 0 else 1)
      ensures rc == Ok ==> SoFar(start, lba, k + n)
    {
      ghost var before := image;
      rc := StagePiece(lba + k, n);
      if rc == Ok { Grown(card, lba, k, n, start, before); }
    }

    /** tiku_emmc_stage_chunk: one extent, in pieces of at most 512 KB. */
    method StageChunk(lba: nat, nsec: nat) returns (rc: Error)
      requires Valid() && (workspace ==> !failed)
      modifies `s_stg_off, `s_stg_src, `image, `failed, `faults, bounce, psram
      ensures Valid()
      ensures !workspace ==> rc == ErrNoMem && image == old(image)
      ensures rc == Ok ==> !failed && image == old(image) + Read(card, lba, nsec)
      ensures rc == Ok && nsec > 0 ==> lba + nsec <= |card|
      ensures workspace && rc != Ok ==> failed
      ensures workspace ==> faults == old(faults) + (if rc == Ok then 0 else 1)
    {
      if !workspace { return ErrNoMem; }
      ghost var start := image;
      ReadNothing(card, lba);
      var k: nat, left: nat := 0, nsec;
      rc := Ok;
      while left != 0
        invariant Valid() && !failed && k + left == nsec && SoFar(start, lba, k) && rc == Ok
        invariant faults == old(faults)
        decreases left
      {
        var n := if left > PIECE then PIECE else left;
        rc := StageMore(lba, k, n, start);
        if rc != Ok { return; }
        k, left := k + n, left - n;
      }
    }

    /** The read-back hash, in 512 KB pieces. */
    method HashBack(total: nat) returns (ok: bool, h: u32)
      requires Valid()
      modifies bounce, `faults
      ensures faults == old(faults) + (if ok then 0 else 1)
      ensures ok ==> total <= psram.Length && h == Hash(mix, psram[..total], SEED)
    {
      h := SEED;
      var off := 0;
      assert psram[..0] == [];
      while off < total
        invariant off % CHUNK == 0 && Min(off, total) <= psram.Length
        invariant h == Hash(mix, psram[..Min(off, total)], SEED) && faults == old(faults)
        decreases total - off
      {
        var n := if total - off < CHUNK then total - off else CHUNK;
        SegmentDivides(n);
        ok := CqRead(off, n, if n % SEG == 0 then SEG else n);
        if !ok { return; }
        StaysAligned(off, 1, CHUNK);
        HashOn(mix, psram[..off], psram[off..off + n], psram[..off + n], h);
        h := StageHash(mix, bounce[..n], h);
        off := off + CHUNK;
      }
      ok := true;
    }

    /** tiku_emmc_stage_close: hash the first `total` bytes as they read back, and
        give the mapping back. */
    method Close(total: nat) returns (rc: Error, src: u32, dst: u32)
      requires Valid()
      modifies `workspace, `xip, `faults, bounce
      ensures Valid() && !workspace && xip == (old(xip) || s_stg_xip) && src == s_stg_src
      ensures !old(workspace) ==> rc == ErrNoMem
      ensures old(workspace) ==> faults == old(faults) + (if rc == Ok then 0 else 1)
      ensures rc == Ok ==> total <= psram.Length && dst == Hash(mix, psram[..total], SEED)
      ensures rc == Ok && !failed && total == |image| ==> src == dst == Hash(mix, image, SEED) && psram[..total] == image
    {
      rc, dst := ErrNoMem, SEED;
      if workspace {
        var ok;
        ok, dst := HashBack(total);
        rc := if ok then Ok else ErrCmd;
      }
      if s_stg_xip { xip := true; }
      src := s_stg_src;
      workspace := false;
    }

    /**
     * A whole file: opened, staged extent by extent, closed.  When everything
     * succeeds the PSRAM holds the extents' concatenation, the two hashes agree,
     * and the PSRAM is mapped again if it was before; and everything succeeds
     * unless the workspace was refused or a transfer failed.
     */
    method StageFile(extents: seq<Extent>) returns (rc: Error, src: u32, dst: u32)
      requires Valid()
      modifies this, bounce, psram
      ensures Valid()
      ensures rc == Ok ==>
                var file := Concat(Files(card, extents));
                && |file| <= psram.Length && psram[..|file|] == file
                && src == dst == Hash(mix, file, SEED) && xip == old(xip)
      ensures faults == old(faults) + (if rc == Ok then 0 else 1)
    {
      src, dst := SEED, SEED;
      rc := Open();
      if rc != Ok { return; }
      var i := 0;
      while i < |extents|
        invariant i <= |extents| && Valid() && workspace && !failed && !xip && s_stg_xip == old(xip)
        invariant image == Concat(Files(card, extents[..i])) && faults == old(faults)
      {
        rc := StageChunk(extents[i].lba, extents[i].n);
        if rc != Ok { return; }
        FilesGrow(card, extents, i);
        i := i + 1;
      }
      assert extents[..i] == extents;
      rc, src, dst := Close(s_stg_off);
    }
  }
}
