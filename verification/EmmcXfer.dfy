/**
 * Chunked block transfers and their deadlines (emmc_xfer, emmc_max_chunk,
 * emmc_wire_us and emmc_xfer_budget_cyc in arch/ambiq/tiku_emmc_arch.c).
 */
module EmmcXfer {
  import opened Words

  const BLOCK_BITS: nat := 512 * 8
  const MAX_BLKCNT: nat := 65535
  const SLACK: nat := 4
  const PROGRAM_US: nat := 500_000
  const CHUNK_US: nat := 2_000_000
  const CYC_CAP: nat := 2_000_000_000

  // ---------------------------------------------------------------------------
  // Deadlines
  // ---------------------------------------------------------------------------

  /** Bits per second of the live setting, with its defaults. */
  function Rate(hz: u32, width: u8): (r: nat)
    ensures r > 0
  {
    (if hz == 0 then 400_000 else hz) * (if width == 0 then 1 else width)
  }

  /** emmc_wire_us. */
  function WireUs(n: nat, rate: nat): nat
    requires rate > 0
  {
    Min(n * BLOCK_BITS * 1_000_000 / rate, 0xFFFF_FFFF)
  }

  /** emmc_max_chunk. */
  function MaxChunk(rate: nat): (m: nat)
    ensures 1 <= m <= MAX_BLKCNT
  {
    var blks := rate * (CHUNK_US / 1000) / (BLOCK_BITS * 1000);
    if blks == 0 then 1 else Min(blks, MAX_BLKCNT)
  }

  /** emmc_xfer_budget_cyc at a core clock. */
  function BudgetCyc(n: nat, rate: nat, core: nat): nat
    requires rate > 0
  {
    Min((WireUs(n, rate) * SLACK + PROGRAM_US) * core / 1_000_000, CYC_CAP)
  }

  lemma DivAtMost(a: nat, b: nat, q: nat)
    requires b > 0 && a <= q * b
    ensures a / b <= q
  {
  }

  lemma DivGrows(a: nat, b: nat, c: nat)
    requires a <= b && c > 0
    ensures a / c <= b / c
  {
    DivAtLeast(b, c, a / c);
  }

  lemma DivAtLeast(a: nat, b: nat, q: nat)
    requires b > 0 && q * b <= a
    ensures q <= a / b
  {
    if a / b < q { MulGrows(b, a / b + 1, q); }
  }

  /** Blocks that fit the chunk limit fit the time limit, once the rate reaches a
      block in two seconds. */
  lemma ChunkFitsTime(n: nat, rate: nat)
    requires rate >= 2048 && n <= MaxChunk(rate)
    ensures WireUs(n, rate) <= CHUNK_US
  {
    var blks := rate * 2000 / 4_096_000;
    assert rate * 2000 == 4_096_000 * blks + rate * 2000 % 4_096_000;
    assert n <= blks;
    assert n * BLOCK_BITS * 1_000_000 == n * 4_096_000_000;
    DivAtMost(n * 4_096_000_000, rate, CHUNK_US);
  }

  /** Below that rate the limit is forced to one block, which takes longer. */
  lemma ForcedIff(rate: nat)
    requires rate > 0
    ensures rate * 2000 / 4_096_000 == 0 <==> rate < 2048
    ensures WireUs(MaxChunk(rate), rate) <= CHUNK_US <==> rate >= 2048
  {
    if rate >= 2048 {
      ChunkFitsTime(MaxChunk(rate), rate);
    } else {
      assert MaxChunk(rate) == 1;
      DivAtLeast(4_096_000_000, rate, CHUNK_US + 1);
    }
  }

  /** The cap on the deadline never cuts into the wire time, and leaves it a
      32-bit difference of the cycle counter. */
  lemma DeadlineCoversWire(n: nat, rate: nat, core: nat)
    requires rate >= 2048 && n <= MaxChunk(rate) && core <= 1_000_000_000
    ensures WireUs(n, rate) * core / 1_000_000 <= BudgetCyc(n, rate, core) < 0x8000_0000
  {
    ChunkFitsTime(n, rate);
    var w := WireUs(n, rate);
    MulGrows(core, w, w * SLACK + PROGRAM_US);
    DivGrows(w * core, (w * SLACK + PROGRAM_US) * core, 1_000_000);
    MulGrows(w, core, 1_000_000_000);
    MulGrows(1_000_000_000, w, CHUNK_US);
    DivAtMost(w * core, 1_000_000, CYC_CAP);
  }

  /** No 64-bit intermediate overflows, for any 32-bit block count, any clock and
      width, and core clocks up to 1 GHz. */
  lemma NoOverflow64(n: u32, hz: u32, width: u8, core: nat)
    requires core <= 1_000_000_000
    ensures n * BLOCK_BITS * 1_000_000 < 0x1_0000_0000_0000_0000
    ensures Rate(hz, width) * (CHUNK_US / 1000) < 0x1_0000_0000_0000_0000
    ensures (WireUs(n, Rate(hz, width)) * SLACK + PROGRAM_US) * core < 0x1_0000_0000_0000_0000
  {
    var h, w := if hz == 0 then 400_000 else hz, if width == 0 then 1 else width;
    MulGrows(h, w, 0xFF);
    var x := WireUs(n, Rate(hz, width)) * SLACK + PROGRAM_US;
    MulGrows(x, core, 1_000_000_000);
  }

  // ---------------------------------------------------------------------------
  // Chunks
  // ---------------------------------------------------------------------------

  type Block = seq<u8>

  /** A command: its first block and its count. */
  datatype Span = Span(lba: nat, n: nat)

  /** The spans cover [lba, lba + n) without gap or overlap, in order, none longer
      than max. */
  predicate Covers(ss: seq<Span>, lba: nat, n: nat, max: nat)
    decreases ss
  {
    if ss == [] then n == 0
    else ss[0].lba == lba && 1 <= ss[0].n <= max && ss[0].n <= n && Covers(ss[1..], lba + ss[0].n, n - ss[0].n, max)
  }

  lemma {:induction false} CoversAppend(ss: seq<Span>, lba: nat, n: nat, k: nat, max: nat)
    requires Covers(ss, lba, n, max) && 1 <= k <= max
    ensures Covers(ss + [Span(lba + n, k)], lba, n + k, max)
    decreases ss
  {
    if ss == [] {
      assert [Span(lba + n, k)][1..] == [];
    } else {
      assert (ss + [Span(lba + n, k)])[1..] == ss[1..] + [Span(lba + n, k)];
      CoversAppend(ss[1..], lba + ss[0].n, n - ss[0].n, k, max);
    }
  }

  /** Every block is in exactly one of the spans. */
  lemma {:induction false} EachBlockOnce(ss: seq<Span>, lba: nat, n: nat, max: nat, b: nat)
    requires Covers(ss, lba, n, max)
    ensures Hits(ss, b) == if lba <= b < lba + n then 1 else 0
    decreases ss
  {
    if ss != [] { EachBlockOnce(ss[1..], lba + ss[0].n, n - ss[0].n, max, b); }
  }

  function Hits(ss: seq<Span>, b: nat): nat
    decreases ss
  {
    if ss == [] then 0
    else (if ss[0].lba <= b < ss[0].lba + ss[0].n then 1 else 0) + Hits(ss[1..], b)
  }

  /** Single-block writes, one after the other. */
  function WriteSingles(cells: seq<Block>, lba: nat, data: seq<Block>): (r: seq<Block>)
    requires lba + |data| <= |cells|
    ensures |r| == |cells|
    decreases data
  {
    if data == [] then cells else WriteSingles(cells[lba := data[0]], lba + 1, data[1..])
  }

  /** What a run of single writes leaves. */
  lemma {:induction false} SinglesPlace(cells: seq<Block>, lba: nat, data: seq<Block>)
    requires lba + |data| <= |cells|
    ensures WriteSingles(cells, lba, data) == cells[..lba] + data + cells[lba + |data|..]
    decreases data
  {
    if data == [] {
      assert cells == cells[..lba] + data + cells[lba..];
    } else {
      var c := cells[lba := data[0]];
      SinglesPlace(c, lba + 1, data[1..]);
      assert c[..lba + 1] == cells[..lba] + [data[0]];
      assert c[lba + 1 + |data[1..]|..] == cells[lba + |data|..];
      assert data == [data[0]] + data[1..];
    }
  }

  /** The card's blocks and the buffer's after moving k blocks at lba. */
  function Moved(cells: seq<Block>, buf: seq<Block>, lba: nat, k: nat, at: nat, write: bool): (seq<Block>, seq<Block>)
    requires lba + k <= |cells| && at + k <= |buf|
  {
    if write then (cells[..lba] + buf[at..at + k] + cells[lba + k..], buf)
    else (cells, buf[..at] + cells[lba..lba + k] + buf[at + k..])
  }

  /** A chunk after those already moved is a longer move. */
  lemma MovedOn(cells: seq<Block>, buf: seq<Block>, lba: nat, at: nat, k: nat, write: bool)
    requires lba + at + k <= |cells| && at + k <= |buf|
    ensures var (c, b) := Moved(cells, buf, lba, at, 0, write);
            && |c| == |cells| && |b| == |buf|
            && Moved(c, b, lba + at, k, at, write) == Moved(cells, buf, lba, at + k, 0, write)
  {
    var (c, b) := Moved(cells, buf, lba, at, 0, write);
    if write {
      assert c[..lba + at] == cells[..lba] + buf[0..at];
      assert c[lba + at + k..] == cells[lba + at + k..];
      assert buf[0..at + k] == buf[0..at] + buf[at..at + k];
      assert c[..lba + at] + b[at..at + k] + c[lba + at + k..] ==
             cells[..lba] + buf[0..at + k] + cells[lba + at + k..];
    } else {
      assert b[..at] == cells[lba..lba + at];
      assert b[at + k..] == buf[at + k..];
      assert cells[lba..lba + at + k] == cells[lba..lba + at] + cells[lba + at..lba + at + k];
      assert b[..at] + cells[lba + at..lba + at + k] + b[at + k..] ==
             buf[..0] + cells[lba..lba + at + k] + buf[at + k..];
    }
  }

  /** The card's blocks, and the commands it was given. */
  class Media {
    const cells: array<Block>
    ghost var spans: seq<Span>

    constructor (blocks: array<Block>)
      ensures cells == blocks && spans == []
    {
      cells, spans := blocks, [];
    }

    /** emmc_xfer_chunk: one command moves k blocks between the card and the
        buffer's blocks from `at` on; it fails when they are not all on the card. */
    method Chunk(lba: u32, k: nat, buf: array<Block>, at: nat, write: bool) returns (ok: bool)
      requires buf != cells && at + k <= buf.Length
      modifies `spans, cells, buf
      ensures spans == old(spans) + [Span(lba, k)] && (ok <==> lba + k <= cells.Length)
      ensures ok ==> (cells[..], buf[..]) == Moved(old(cells[..]), old(buf[..]), lba, k, at, write)
    {
      spans := spans + [Span(lba, k)];
      ok := lba + k <= cells.Length;
      if !ok { return; }
      ghost var c, b := cells[..], buf[..];
      if write {
        forall i | 0 <= i < k { cells[lba + i] := buf[at + i]; }
        assert cells[..] == c[..lba] + b[at..at + k] + c[lba + k..] && buf[..] == b;
      } else {
        forall i | 0 <= i < k { buf[at + i] := cells[lba + i]; }
        assert buf[..] == b[..at] + c[lba..lba + k] + b[at + k..] && cells[..] == c;
      }
    }

    /** After `at` blocks: the commands since `was`, the blocks moved. */
    ghost predicate SoFar(lba0: u32, at: nat, buf: array<Block>, write: bool, max: nat,
                          was: seq<Span>, cells0: seq<Block>, buf0: seq<Block>)
      reads this, cells, buf
    {
      && cells.Length == |cells0| && buf.Length == |buf0| && at <= |buf0|
      && was <= spans && Covers(spans[|was|..], lba0, at, max)
      && if at == 0 then cells[..] == cells0 && buf[..] == buf0
         else lba0 + at <= |cells0| && (cells[..], buf[..]) == Moved(cells0, buf0, lba0, at, 0, write)
    }

    /** One more chunk. */
    method Next(lba: u32, k: nat, at: nat, buf: array<Block>, write: bool, ghost max: nat,
                ghost lba0: u32, ghost was: seq<Span>, ghost cells0: seq<Block>, ghost buf0: seq<Block>)
      returns (ok: bool)
      requires buf != cells && at + k <= buf.Length && 1 <= k <= max && lba == lba0 + at
      requires SoFar(lba0, at, buf, write, max, was, cells0, buf0)
      modifies `spans, cells, buf
      ensures (ok <==> lba0 + at + k <= cells.Length) && was <= spans
      ensures ok ==> SoFar(lba0, at + k, buf, write, max, was, cells0, buf0)
    {
      ghost var before := spans;
      ok := Chunk(lba, k, buf, at, write);
      assert spans[|was|..] == before[|was|..] + [Span(lba0 + at, k)];
      CoversAppend(before[|was|..], lba0, at, k, max);
      if ok {
        if at == 0 { MovedNothing(cells0, buf0, lba0, write); }
        MovedOn(cells0, buf0, lba0, at, k, write);
      }
    }

    /**
     * emmc_xfer: the commands cover the blocks once and in order, and together they
     * move what one command for all would.  It succeeds exactly when all the blocks
     * are on the card, also where lba + n wraps.
     */
    method Xfer(lba0: u32, n: u32, buf: array<Block>, write: bool, rate: nat) returns (ok: bool)
      requires buf != cells && cells.Length < TWO32 && n <= buf.Length && rate > 0
      modifies `spans, cells, buf
      ensures ok <==> n == 0 || lba0 + n <= cells.Length
      ensures old(spans) <= spans
      ensures ok ==> Covers(spans[|old(spans)|..], lba0, n, MaxChunk(rate))
      ensures ok && n > 0 ==> (cells[..], buf[..]) == Moved(old(cells[..]), old(buf[..]), lba0, n, 0, write)
      ensures n == 0 ==> cells[..] == old(cells[..]) && buf[..] == old(buf[..])
    {
      ghost var was, cells0, buf0 := spans, cells[..], buf[..];
      var maxChunk := MaxChunk(rate);
      var lba: u32, at: nat, left: nat := lba0, 0, n;
      while left != 0
        invariant at + left == n && SoFar(lba0, at, buf, write, maxChunk, was, cells0, buf0)
        invariant lba == lba0 + at
        decreases left
      {
        var chunk := if left > maxChunk then maxChunk else left;
        ok := Next(lba, chunk, at, buf, write, maxChunk, lba0, was, cells0, buf0);
        if !ok { return; }
        NoWrap(lba + chunk);
        lba, at, left := Low32(lba + chunk), at + chunk, left - chunk;
      }
      ok := true;
    }
  }

  lemma NoWrap(x: nat)
    requires x < TWO32
    ensures Low32(x) == x
  {
  }

  lemma MovedNothing(cells: seq<Block>, buf: seq<Block>, lba: nat, write: bool)
    requires lba <= |cells|
    ensures Moved(cells, buf, lba, 0, 0, write) == (cells, buf)
  {
    assert cells[..lba] + buf[0..0] + cells[lba..] == cells;
    assert buf[..0] + cells[lba..lba] + buf[0..] == buf;
  }

  /** One command per block, the reference for a write. */
  lemma WriteIsSingles(cells: seq<Block>, buf: seq<Block>, lba: nat, n: nat)
    requires lba + n <= |cells| && n <= |buf|
    ensures Moved(cells, buf, lba, n, 0, true).0 == WriteSingles(cells, lba, buf[..n])
  {
    SinglesPlace(cells, lba, buf[..n]);
  }

  /** Single-block reads into the buffer, one after the other. */
  function ReadSingles(cells: seq<Block>, lba: nat, buf: seq<Block>, at: nat, n: nat): (r: seq<Block>)
    requires lba + n <= |cells| && at + n <= |buf|
    ensures |r| == |buf|
    decreases n
  {
    if n == 0 then buf else ReadSingles(cells, lba + 1, buf[at := cells[lba]], at + 1, n - 1)
  }

  lemma {:induction false} ReadsPlace(cells: seq<Block>, lba: nat, buf: seq<Block>, at: nat, n: nat)
    requires lba + n <= |cells| && at + n <= |buf|
    ensures ReadSingles(cells, lba, buf, at, n) == buf[..at] + cells[lba..lba + n] + buf[at + n..]
    decreases n
  {
    if n == 0 {
      assert buf == buf[..at] + cells[lba..lba] + buf[at..];
    } else {
      var b := buf[at := cells[lba]];
      ReadsPlace(cells, lba + 1, b, at + 1, n - 1);
      assert b[..at + 1] == buf[..at] + [cells[lba]];
      assert b[at + n..] == buf[at + n..];
      assert cells[lba..lba + n] == [cells[lba]] + cells[lba + 1..lba + n];
    }
  }

  /** And for a read. */
  lemma ReadIsSingles(cells: seq<Block>, buf: seq<Block>, lba: nat, n: nat)
    requires lba + n <= |cells| && n <= |buf|
    ensures Moved(cells, buf, lba, n, 0, false).1 == ReadSingles(cells, lba, buf, 0, n)
  {
    ReadsPlace(cells, lba, buf, 0, n);
  }
}
