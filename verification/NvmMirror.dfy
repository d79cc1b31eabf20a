/**
 * The durable mirror of .uninit in an MRAM page (arch/ambiq/tiku_mem_arch.c, with
 * the layout of kernel/memory/tiku_nvm_mirror.h): restored at boot, programmed at
 * a flush when something changed.  The checksum is a parameter; module Crc is the
 * one the mirror uses.
 */
module NvmMirror {
  import opened Words

  const PAGE: nat := 0x4000
  const HDR: nat := 16
  const ROOM: nat := PAGE - HDR
  const MAGIC_V1: u32 := 0x4E56_4D54
  const MAGIC_V2: u32 := 0x324D_564E
  const BENCH_OFF: nat := PAGE / 2
  const BENCH_MAX: nat := 4096          // the largest of its sizes that fits the upper half

  datatype Status = Virgin | V1 | V2Ok | CrcFail

  // ---------------------------------------------------------------------------
  // Words in the page
  // ---------------------------------------------------------------------------

  /** The i-th 32-bit word. */
  function WordAt(p: Bytes, i: nat): u32
    requires 4 * i + 4 <= |p|
  {
    LeWord(p, 4 * i)
  }

  // ---------------------------------------------------------------------------
  // Restore
  // ---------------------------------------------------------------------------

  /** tiku_nvm_mirror_image: the image of a V2 mirror whose length fits and whose
      checksum matches. */
  function Image(p: Bytes, crc: Checksum): Option<Bytes>
    requires |p| == PAGE
  {
    var n := WordAt(p, 2);
    if WordAt(p, 0) != MAGIC_V2 || n > ROOM || crc(p[HDR..HDR + n]) != WordAt(p, 1) then None
    else Some(p[HDR..HDR + n])
  }

  /** An image restored into n bytes: cut when they are fewer, zero beyond it when
      they are more. */
  function Fit(img: Bytes, n: nat): (r: Bytes)
    ensures |r| == n
  {
    if n <= |img| then img[..n] else img + Zeros(n - |img|)
  }

  /** tiku_mem_arch_init on a .uninit that holds `ram`.  Of a legacy V1 image only
      what the page can hold is copied; any bytes beyond stay as they were. */
  function Boot(p: Bytes, ram: Bytes, crc: Checksum): (r: (Bytes, Status))
    requires |p| == PAGE
    ensures |r.0| == |ram|
  {
    var img := Image(p, crc);
    if img.Some? then (Fit(img.value, |ram|), V2Ok)
    else if WordAt(p, 0) == MAGIC_V1 then
      var n := Min(|ram|, PAGE - 4);
      (p[4..4 + n] + ram[n..], V1)
    else (Zeros(|ram|), if WordAt(p, 0) == MAGIC_V2 then CrcFail else Virgin)
  }

  // ---------------------------------------------------------------------------
  // Flush
  // ---------------------------------------------------------------------------

  function Padding(n: nat): nat { (16 - n % 16) % 16 }

  lemma RoundedUp(n: nat)
    ensures (HDR + n + 15) / 16 * 16 == HDR + n + Padding(n)
  {
  }

  /** The image as it is programmed, 0xFF up to a multiple of 16 bytes. */
  function Padded(ram: Bytes): (r: Bytes)
    ensures |r| % 16 == 0 && |ram| <= |r| < |ram| + 16 && r[..|ram|] == ram
    ensures |ram| <= ROOM ==> |r| <= ROOM
  {
    ram + seq(Padding(|ram|), _ => 0xFF)
  }

  ghost function Header(ram: Bytes, crc: Checksum): (h: Bytes)
    requires |ram| <= ROOM
    ensures |h| == HDR
  {
    LeBytes(MAGIC_V2) + LeBytes(crc(ram)) + LeBytes(|ram|) + LeBytes(0xFFFF_FFFF)
  }

  /** The dirty check: everything but the checksum and the reserved word. */
  predicate Changed(p: Bytes, ram: Bytes)
    requires |p| == PAGE && |ram| <= ROOM
  {
    || WordAt(p, 0) != MAGIC_V2
    || WordAt(p, 2) != |ram|
    || p[HDR..HDR + |Padded(ram)|] != Padded(ram)
  }

  /** The page after a program. */
  ghost function Programmed(p: Bytes, ram: Bytes, crc: Checksum): (r: Bytes)
    requires |p| == PAGE && |ram| <= ROOM
    ensures |r| == PAGE
  {
    Header(ram, crc) + Padded(ram) + p[HDR + |Padded(ram)|..]
  }

  /** The page after a flush that returned 0. */
  ghost function Flushed(p: Bytes, ram: Bytes, crc: Checksum): (r: Bytes)
    requires |p| == PAGE && |ram| <= ROOM
    ensures |r| == PAGE
  {
    if Changed(p, ram) then Programmed(p, ram, crc) else p
  }

  /** The page is what programming d leaves, up to the image's padding. */
  ghost predicate Holds(p: Bytes, d: Bytes, crc: Checksum)
    requires |p| == PAGE
  {
    && |d| <= ROOM
    && p[..HDR] == Header(d, crc)
    && p[HDR..HDR + |Padded(d)|] == Padded(d)
  }

  lemma HeaderWords(p: Bytes, d: Bytes, crc: Checksum)
    requires |p| == PAGE && |d| <= ROOM && p[..HDR] == Header(d, crc)
    ensures WordAt(p, 0) == MAGIC_V2 && WordAt(p, 1) == crc(d) && WordAt(p, 2) == |d|
  {
    var a, b, c := LeBytes(MAGIC_V2), LeBytes(crc(d)), LeBytes(|d|);
    var h := p[..HDR];
    assert h[0..4] == a && h[4..8] == b && h[8..12] == c;
    assert p[0..4] == h[0..4] && p[4..8] == h[4..8] && p[8..12] == h[8..12];
    LeWordMoves(p, 0, a);
    LeWordMoves(p, 4, b);
    LeWordMoves(p, 8, c);
  }

  lemma ProgrammedHolds(p: Bytes, ram: Bytes, crc: Checksum)
    requires |p| == PAGE && |ram| <= ROOM
    ensures Holds(Programmed(p, ram, crc), ram, crc)
  {
  }

  lemma HoldsRestores(p: Bytes, d: Bytes, crc: Checksum)
    requires |p| == PAGE && Holds(p, d, crc)
    ensures Image(p, crc) == Some(d)
  {
    HeaderWords(p, d, crc);
    assert p[HDR..HDR + |d|] == p[HDR..HDR + |Padded(d)|][..|d|];
  }

  /** A page that holds d counts as changed for every other content, and only for
      it. */
  lemma HoldsIsUnchanged(p: Bytes, d: Bytes, ram: Bytes, crc: Checksum)
    requires |p| == PAGE && Holds(p, d, crc) && |ram| <= ROOM
    ensures Changed(p, ram) <==> ram != d
  {
    HeaderWords(p, d, crc);
    if !Changed(p, ram) {
      assert ram == Padded(ram)[..|ram|] == Padded(d)[..|d|] == d;
    }
  }

  /**
   * A flush that returns 0 has made the content durable exactly when it
   * programmed, or the checksum word, which the dirty check skips, was right
   * already.
   */
  lemma FlushDurableIff(p: Bytes, ram: Bytes, crc: Checksum)
    requires |p| == PAGE && |ram| <= ROOM
    ensures Image(Flushed(p, ram, crc), crc) == Some(ram) <==> Changed(p, ram) || WordAt(p, 1) == crc(ram)
  {
    if Changed(p, ram) {
      ProgrammedHolds(p, ram, crc);
      HoldsRestores(Programmed(p, ram, crc), ram, crc);
    } else {
      assert p[HDR..HDR + |ram|] == p[HDR..HDR + |Padded(ram)|][..|ram|] == ram;
    }
  }

  // ---------------------------------------------------------------------------
  // Benchmark
  // ---------------------------------------------------------------------------

  /** The bench of a build with n bytes of .uninit leaves `data` at the start of
      the page's upper half, unless its own image would reach that far. */
  function Benched(p: Bytes, n: nat, data: Bytes): (r: Bytes)
    requires |p| == PAGE && |data| <= BENCH_MAX
    ensures |r| == PAGE
  {
    if n > BENCH_OFF - HDR then p
    else p[..BENCH_OFF] + data + p[BENCH_OFF + |data|..]
  }

  /** p and q differ at most where the bench programs. */
  predicate OnlyUpper(p: Bytes, q: Bytes) {
    && |p| == PAGE && |q| == PAGE
    && q[..BENCH_OFF] == p[..BENCH_OFF] && q[BENCH_OFF + BENCH_MAX..] == p[BENCH_OFF + BENCH_MAX..]
  }

  lemma OnlyUpperIsBenched(p: Bytes, q: Bytes, n: nat)
    requires OnlyUpper(p, q) && n <= BENCH_OFF - HDR
    ensures exists data: Bytes :: |data| <= BENCH_MAX && q == Benched(p, n, data)
  {
    var data := q[BENCH_OFF..BENCH_OFF + BENCH_MAX];
    assert q == q[..BENCH_OFF] + data + q[BENCH_OFF + BENCH_MAX..];
    assert q == Benched(p, n, data);
  }

  /** An image below the upper half survives, whichever build left it. */
  lemma BenchKeepsLowImage(p: Bytes, d: Bytes, n: nat, data: Bytes, crc: Checksum)
    requires |p| == PAGE && |data| <= BENCH_MAX && Holds(p, d, crc) && |d| <= BENCH_OFF - HDR
    ensures Holds(Benched(p, n, data), d, crc)
  {
    var q := Benched(p, n, data);
    assert q[..BENCH_OFF] == p[..BENCH_OFF];
    var e := HDR + |Padded(d)|;
    SliceOfTake(q, BENCH_OFF, 0, HDR);
    SliceOfTake(p, BENCH_OFF, 0, HDR);
    SliceOfTake(q, BENCH_OFF, HDR, e);
    SliceOfTake(p, BENCH_OFF, HDR, e);
  }

  /**
   * The guard looks at the running build only.  After booting a smaller build
   * over a larger one's mirror, before its first flush, the bench writes into the
   * larger image: the mirror then holds an image only if the checksum happens to
   * agree, and otherwise a boot finds none.
   */
  lemma BenchOverLargeImage(p: Bytes, d: Bytes, n: nat, data: Bytes, crc: Checksum, ram: Bytes)
    requires |p| == PAGE && |data| <= BENCH_MAX && Holds(p, d, crc)
    ensures var q := Benched(p, n, data);
            var d' := q[HDR..HDR + |d|];
            && (Image(q, crc) == Some(d) <==> d' == d)
            && (crc(d') != crc(d) ==> Boot(q, ram, crc) == (Zeros(|ram|), CrcFail))
            && (n <= BENCH_OFF - HDR && 0 < |data| && |d| > BENCH_OFF - HDR && data[0] != p[BENCH_OFF] ==> d' != d)
  {
    var q := Benched(p, n, data);
    assert q[..HDR] == p[..HDR];
    HeaderWords(q, d, crc);
    var d' := q[HDR..HDR + |d|];
    assert p[HDR..HDR + |d|] == p[HDR..HDR + |Padded(d)|][..|d|] == d;
    if n <= BENCH_OFF - HDR && 0 < |data| && |d| > BENCH_OFF - HDR {
      assert d'[BENCH_OFF - HDR] == q[BENCH_OFF] == data[0];
      assert d[BENCH_OFF - HDR] == p[HDR..HDR + |d|][BENCH_OFF - HDR] == p[BENCH_OFF];
    }
  }

  /**
   * The guard that would do: the bench of a build with n bytes leaves a waiting
   * image d alone, whatever it programs, if and only if it refuses, or the waiting
   * image, not only its own, ends below the upper half.
   */
  lemma BenchSparesIff(p: Bytes, d: Bytes, n: nat, crc: Checksum)
    requires |p| == PAGE && Holds(p, d, crc)
    ensures (forall data: Bytes :: |data| <= BENCH_MAX ==> Holds(Benched(p, n, data), d, crc)) <==>
            n > BENCH_OFF - HDR || |d| <= BENCH_OFF - HDR
  {
    if n <= BENCH_OFF - HDR && |d| > BENCH_OFF - HDR {
      var data: Bytes := [if p[BENCH_OFF] == 0 then 1 else 0];
      var q := Benched(p, n, data);
      BenchOverLargeImage(p, d, n, data, crc, []);
      if Holds(q, d, crc) { HoldsRestores(q, d, crc); }
      assert !Holds(q, d, crc);
    } else {
      forall data: Bytes | |data| <= BENCH_MAX ensures Holds(Benched(p, n, data), d, crc) {
        if |d| <= BENCH_OFF - HDR { BenchKeepsLowImage(p, d, n, data, crc); }
      }
    }
  }

  // ---------------------------------------------------------------------------
  // Runs of several builds over one page
  // ---------------------------------------------------------------------------

  /**
   *   durable    the content of the last flush that returned 0, if there was one
   *   torn       a program has failed and left the page changed, and none has worked
   *              since
   */
  datatype Device = Device(page: Bytes, ram: Bytes, durable: Option<Bytes>, torn: bool, programs: nat)

  /** `works` says whether the program helper, if the flush calls it, succeeds; if
      not it leaves the bytes of `left` in the range. */
  datatype Event =
    | Write(ram: Bytes)                   // .uninit changes
    | Flush(works: bool, left: Bytes)
    | Reset(ram: Bytes)                   // a boot of any build, .uninit holding anything
    | Bench(data: Bytes)

  /** No image of a larger build is waiting in the mirror while the bench runs. */
  predicate BenchSafe(s: Device) {
    s.durable.Some? && |s.ram| <= BENCH_OFF - HDR ==> |s.durable.value| <= BENCH_OFF - HDR
  }

  predicate Legal(s: Device, e: Event) {
    match e
    case Write(ram) => |ram| == |s.ram|
    case Flush(_, left) => |left| == PAGE
    case Reset(_) => true
    case Bench(data) => |data| <= BENCH_MAX && BenchSafe(s)
  }

  /** Does the flush return 0? */
  predicate FlushOk(s: Device, works: bool)
    requires |s.page| == PAGE
  {
    |s.ram| <= ROOM && (Changed(s.page, s.ram) ==> works)
  }

  /** The page after a program that failed: anything in the range. */
  function Torn(p: Bytes, ram: Bytes, left: Bytes): (r: Bytes)
    requires |p| == PAGE && |left| == PAGE && |ram| <= ROOM
    ensures |r| == PAGE
  {
    left[..HDR + |Padded(ram)|] + p[HDR + |Padded(ram)|..]
  }

  ghost function Step(s: Device, e: Event, crc: Checksum): (t: Device)
    requires |s.page| == PAGE && Legal(s, e)
    ensures |t.page| == PAGE
  {
    match e
    case Write(ram) => s.(ram := ram)
    case Flush(works, left) => FlushStep(s, works, left, crc)
    case Reset(ram) => s.(ram := Boot(s.page, ram, crc).0)
    case Bench(data) => s.(page := Benched(s.page, |s.ram|, data))
  }

  ghost function FlushStep(s: Device, works: bool, left: Bytes, crc: Checksum): (t: Device)
    requires |s.page| == PAGE && |left| == PAGE
    ensures |t.page| == PAGE
  {
    if |s.ram| > ROOM then s
    else if !Changed(s.page, s.ram) then s.(durable := Some(s.ram))
    else if works then
      s.(page := Programmed(s.page, s.ram, crc), durable := Some(s.ram), torn := false, programs := s.programs + 1)
    else
      var p := Torn(s.page, s.ram, left);
      s.(page := p, torn := s.torn || p != s.page)
  }

  /** Unless it is torn the page holds what was last flushed; before the first flush
      it has no V2 magic. */
  ghost predicate Inv(s: Device, crc: Checksum) {
    && |s.page| == PAGE
    && (!s.torn ==>
          match s.durable
          case None => WordAt(s.page, 0) != MAGIC_V2
          case Some(d) => Holds(s.page, d, crc))
  }

  lemma FlushKeepsInv(s: Device, works: bool, left: Bytes, crc: Checksum)
    requires Inv(s, crc) && |left| == PAGE
    ensures Inv(FlushStep(s, works, left, crc), crc)
  {
    if |s.ram| <= ROOM {
      if Changed(s.page, s.ram) {
        ProgrammedHolds(s.page, s.ram, crc);
      } else if !s.torn {
        HoldsIsUnchanged(s.page, s.durable.value, s.ram, crc);
      }
    }
  }

  lemma BenchKeepsInv(s: Device, data: Bytes, crc: Checksum)
    requires Inv(s, crc) && Legal(s, Bench(data))
    ensures Inv(Step(s, Bench(data), crc), crc)
  {
    if s.durable.Some? {
      if !s.torn && |s.ram| <= BENCH_OFF - HDR {
        BenchKeepsLowImage(s.page, s.durable.value, |s.ram|, data, crc);
      }
    } else {
      var q := Benched(s.page, |s.ram|, data);
      assert q[0..4] == s.page[0..4];
      LeWordMoves(q, 0, s.page[0..4]);
      LeWordMoves(s.page, 0, s.page[0..4]);
    }
  }

  lemma StepKeepsInv(s: Device, e: Event, crc: Checksum)
    requires Inv(s, crc) && Legal(s, e)
    ensures Inv(Step(s, e, crc), crc)
  {
    match e
    case Write(_) =>
    case Reset(_) =>
    case Flush(works, left) => FlushKeepsInv(s, works, left, crc);
    case Bench(data) => BenchKeepsInv(s, data, crc);
  }

  ghost predicate LegalRun(s: Device, es: seq<Event>, crc: Checksum)
    requires |s.page| == PAGE
    decreases es
  {
    es == [] || (Legal(s, es[0]) && LegalRun(Step(s, es[0], crc), es[1..], crc))
  }

  ghost function Run(s: Device, es: seq<Event>, crc: Checksum): (t: Device)
    requires |s.page| == PAGE && LegalRun(s, es, crc)
    ensures |t.page| == PAGE
    decreases es
  {
    if es == [] then s else Run(Step(s, es[0], crc), es[1..], crc)
  }

  lemma {:induction false} RunKeepsInv(s: Device, es: seq<Event>, crc: Checksum)
    requires Inv(s, crc) && LegalRun(s, es, crc)
    ensures Inv(Run(s, es, crc), crc)
    decreases es
  {
    if es != [] {
      StepKeepsInv(s, es[0], crc);
      RunKeepsInv(Step(s, es[0], crc), es[1..], crc);
    }
  }

  /** A page nothing has been flushed to yet. */
  ghost predicate Fresh(s: Device) {
    |s.page| == PAGE && WordAt(s.page, 0) != MAGIC_V2 && s.durable == None && !s.torn
  }

  /**
   * From a page without V2 magic, after any run of writes, flushes, boots of
   * builds of any size and benches, with no torn page left over: a boot restores
   * what was last flushed on the common prefix and zeros beyond it.
   */
  lemma BootRestoresLastFlush(s: Device, es: seq<Event>, crc: Checksum, ram: Bytes)
    requires Fresh(s) && LegalRun(s, es, crc) && !Run(s, es, crc).torn
    ensures var t := Run(s, es, crc);
            && (t.durable.Some? ==> Boot(t.page, ram, crc) == (Fit(t.durable.value, |ram|), V2Ok))
            && (t.durable.None? && WordAt(t.page, 0) != MAGIC_V1 ==>
                  Boot(t.page, ram, crc) == (Zeros(|ram|), Virgin))
  {
    RunKeepsInv(s, es, crc);
    var t := Run(s, es, crc);
    if t.durable.Some? { HoldsRestores(t.page, t.durable.value, crc); }
  }

  /**
   * And with torn pages: at the end of any run, a flush that returns 0 has made the
   * content durable if and only if the page was not torn, or it programmed, or the
   * checksum word, which the dirty check skips, happened to be right.
   */
  lemma RunFlushDurableIff(s: Device, es: seq<Event>, crc: Checksum, works: bool, left: Bytes)
    requires Fresh(s) && LegalRun(s, es, crc) && |left| == PAGE && FlushOk(Run(s, es, crc), works)
    ensures var t := Run(s, es, crc);
            Image(FlushStep(t, works, left, crc).page, crc) == Some(t.ram) <==>
            !t.torn || Changed(t.page, t.ram) || WordAt(t.page, 1) == crc(t.ram)
  {
    RunKeepsInv(s, es, crc);
    var t := Run(s, es, crc);
    FlushDurableIff(t.page, t.ram, crc);
    if !t.torn && !Changed(t.page, t.ram) {
      HoldsIsUnchanged(t.page, t.durable.value, t.ram, crc);
      HeaderWords(t.page, t.ram, crc);
    }
  }

  /** In such a run, with no torn page left over, a flush programs exactly when the
      content is not the last one flushed. */
  lemma FlushProgramsIffChanged(s: Device, es: seq<Event>, crc: Checksum, left: Bytes)
    requires Fresh(s) && LegalRun(s, es, crc) && |left| == PAGE
    requires |Run(s, es, crc).ram| <= ROOM && !Run(s, es, crc).torn
    ensures var t := Run(s, es, crc);
            var u := FlushStep(t, true, left, crc);
            && u.durable == Some(t.ram)
            && u.programs == t.programs + (if t.durable == Some(t.ram) then 0 else 1)
            && (t.durable == Some(t.ram) ==> u == t)
  {
    RunKeepsInv(s, es, crc);
    var t := Run(s, es, crc);
    if t.durable.Some? { HoldsIsUnchanged(t.page, t.durable.value, t.ram, crc); }
  }

  /** Flush, any boot, flush again: nothing is programmed the second time when the
      build is the same. */
  lemma FlushAfterBootIsIdle(s: Device, crc: Checksum, ram: Bytes, left: Bytes)
    requires Inv(s, crc) && !s.torn && |s.ram| <= ROOM && |ram| == |s.ram| && |left| == PAGE
    ensures var t := Step(FlushStep(s, true, left, crc), Reset(ram), crc);
            t.ram == s.ram && FlushStep(t, true, left, crc) == t
  {
    var f := FlushStep(s, true, left, crc);
    FlushKeepsInv(s, true, left, crc);
    HoldsRestores(f.page, s.ram, crc);
    HoldsIsUnchanged(f.page, s.ram, s.ram, crc);
  }

  /** A page with the image of ram behind the header of d. */
  function Mixed(p: Bytes, ram: Bytes): (q: Bytes)
    requires |p| == PAGE && |ram| <= ROOM
    ensures |q| == PAGE
  {
    p[..HDR] + Padded(ram) + p[HDR + |Padded(ram)|..]
  }

  lemma MixedIs(p: Bytes, d: Bytes, ram: Bytes, crc: Checksum)
    requires |p| == PAGE && Holds(p, d, crc) && |ram| == |d| && crc(ram) != crc(d)
    ensures var q := Mixed(p, ram);
            && Torn(p, ram, q) == q && !Changed(q, ram)
            && forall left: Bytes :: Boot(q, left, crc) == (Zeros(|left|), CrcFail)
  {
    var q := Mixed(p, ram);
    assert q[..HDR] == p[..HDR] && q[HDR..HDR + |Padded(ram)|] == Padded(ram);
    HeaderWords(q, d, crc);
    assert q[HDR..HDR + |ram|] == q[HDR..HDR + |Padded(ram)|][..|ram|] == ram;
    assert Torn(p, ram, q) == q;
  }

  /**
   * Such a flush: d is flushed, the content becomes ram of the same length but with
   * another checksum, the program of it fails having written the image and not the
   * header, and the retry finds nothing changed and returns 0.  Every boot then
   * starts from zeros.
   */
  lemma RetryAfterTornProgramLoses(p: Bytes, d: Bytes, ram: Bytes, crc: Checksum) returns (s: Device, es: seq<Event>)
    requires |p| == PAGE && WordAt(p, 0) != MAGIC_V2 && |ram| == |d| <= ROOM && crc(ram) != crc(d)
    ensures Fresh(s) && s.page == p && s.ram == d && LegalRun(s, es, crc) && |es| == 4
    ensures es[0].Flush? && es[0].works && es[1] == Write(ram) && es[2].Flush? && !es[2].works && es[3].Flush?
    ensures var t := Run(s, es, crc);
            && t.durable == Some(ram) && t.programs == 1
            && forall left: Bytes :: Boot(t.page, left, crc) == (Zeros(|left|), CrcFail)
  {
    s := Device(p, d, None, false, 0);
    var p1 := Programmed(p, d, crc);
    var q := Mixed(p1, ram);
    ProgrammedHolds(p, d, crc);
    MixedIs(p1, d, ram, crc);
    HoldsIsUnchanged(p1, d, ram, crc);
    var s1 := Device(p1, d, Some(d), false, 1);
    var s2 := s1.(ram := ram);
    var s3 := Device(q, ram, Some(d), q != p1, 1);
    var a, b, c, e := Flush(true, p), Write(ram), Flush(false, q), Flush(true, q);
    assert Step(s, a, crc) == s1 && Step(s1, b, crc) == s2 && Step(s2, c, crc) == s3;
    es := [a, b, c, e];
    FourSteps(s, a, s1, b, s2, c, s3, e, crc);
  }

  lemma FourSteps(s: Device, a: Event, s1: Device, b: Event, s2: Device, c: Event, s3: Device, e: Event, crc: Checksum)
    requires |s.page| == PAGE && Legal(s, a) && s1 == Step(s, a, crc)
    requires |s1.page| == PAGE && Legal(s1, b) && s2 == Step(s1, b, crc)
    requires |s2.page| == PAGE && Legal(s2, c) && s3 == Step(s2, c, crc)
    requires |s3.page| == PAGE && Legal(s3, e)
    ensures LegalRun(s, [a, b, c, e], crc) && Run(s, [a, b, c, e], crc) == Step(s3, e, crc)
  {
    assert [e][1..] == [];
    Then(s3, e, [], crc);
    Then(s2, c, [e], crc);
    Then(s1, b, [c] + [e], crc);
    Then(s, a, [b] + ([c] + [e]), crc);
    assert [a] + ([b] + ([c] + [e])) == [a, b, c, e] && [e] + [] == [e];
  }

  lemma Then(s: Device, e: Event, es: seq<Event>, crc: Checksum)
    requires |s.page| == PAGE && Legal(s, e) && LegalRun(Step(s, e, crc), es, crc)
    ensures LegalRun(s, [e] + es, crc) && Run(s, [e] + es, crc) == Run(Step(s, e, crc), es, crc)
  {
    assert ([e] + es)[0] == e && ([e] + es)[1..] == es;
  }

  // ---------------------------------------------------------------------------
  // The code
  // ---------------------------------------------------------------------------

  /** One build at work on the page: its .uninit, the staging array g_nvm_snap,
      the program counter and the restore status. */
  class Mirror {
    const crc: Checksum
    const page: array<u8>
    const uninit: array<u8>
    const snap: array<u8>
    var programs: nat
    var restored: Status
    ghost var faults: nat           // programs that failed
    ghost var attempts: nat         // programs, failed or not

    ghost predicate Valid()
      reads this
    {
      page.Length == PAGE && snap.Length == PAGE && page != uninit && page != snap && uninit != snap
    }

    constructor (crc: Checksum, page: array<u8>, uninit: array<u8>)
      requires page.Length == PAGE && page != uninit
      ensures Valid() && fresh(snap) && this.crc == crc && this.page == page && this.uninit == uninit && programs == 0
    {
      this.crc, this.page, this.uninit := crc, page, uninit;
      snap := new u8[PAGE](_ => 0);
      programs, restored, faults, attempts := 0, Virgin, 0, 0;
    }

    /** A 32-bit word of the page. */
    method Word(i: nat) returns (w: u32)
      requires Valid() && 4 * i + 4 <= PAGE
      ensures w == WordAt(page[..], i)
    {
      w := page[4 * i] as int + 0x100 * page[4 * i + 1] as int + 0x1_0000 * page[4 * i + 2] as int
           + 0x100_0000 * page[4 * i + 3] as int;
      LeValue4(page[..][4 * i..4 * i + 4]);
    }

    /** tiku_nvm_mirror_image: the length of the accepted image, or -1. */
    method MirrorImage() returns (len: int)
      requires Valid()
      ensures var img := Image(page[..], crc);
              if img.Some? then len == |img.value| <= ROOM && page[HDR..HDR + len] == img.value else len == -1
    {
      var magic := Word(0);
      var n := Word(2);
      var sum := Word(1);
      if magic != MAGIC_V2 || n > ROOM { return -1; }
      assert page[HDR..HDR + n] == page[..][HDR..HDR + n];
      if crc(page[HDR..HDR + n]) != sum { return -1; }
      len := n;
    }

    /** memcpy of the accepted image, and memset of what it does not reach. */
    method CopyImage(len: nat)
      requires Valid() && len <= ROOM
      modifies uninit
      ensures uninit[..] == Fit(page[HDR..HDR + len], uninit.Length)
    {
      var n := uninit.Length;
      ghost var img := page[HDR..HDR + len];
      forall i | 0 <= i < Min(n, len) { uninit[i] := page[HDR + i]; }
      forall i | len <= i < n { uninit[i] := 0; }
      forall i | 0 <= i < n ensures uninit[i] == Fit(img, n)[i] {
        assert i < len ==> uninit[i] == img[i];
      }
      assert page[HDR..HDR + len] == img && uninit[..] == Fit(img, n);
    }

    method CopyV1()
      requires Valid()
      modifies uninit
      ensures var n := Min(uninit.Length, PAGE - 4);
              uninit[..] == page[4..4 + n] + old(uninit[n..])
    {
      var n := uninit.Length;
      if n > PAGE - 4 { n := PAGE - 4; }
      ghost var was := uninit[..];
      forall i | 0 <= i < n { uninit[i] := page[4 + i]; }
      assert uninit[..n] == page[4..4 + n] && uninit[n..] == was[n..];
    }

    method Clear()
      modifies uninit
      ensures uninit[..] == Zeros(uninit.Length)
    {
      forall i | 0 <= i < uninit.Length { uninit[i] := 0; }
    }

    /** tiku_mem_arch_init. */
    method Init()
      requires Valid()
      modifies uninit, `restored
      ensures (uninit[..], restored) == Boot(page[..], old(uninit[..]), crc)
    {
      var len := MirrorImage();
      var magic := Word(0);
      if len >= 0 {
        CopyImage(len);
        restored := V2Ok;
      } else if magic == MAGIC_V1 {
        CopyV1();
        restored := V1;
      } else {
        Clear();
        restored := if magic == MAGIC_V2 then CrcFail else Virgin;
      }
    }

    /** Compose the image and its padding behind the header slot. */
    method Compose() returns (prog: nat)
      requires Valid() && uninit.Length <= ROOM
      modifies snap
      ensures prog == HDR + |Padded(uninit[..])| <= PAGE && snap[HDR..prog] == Padded(uninit[..])
    {
      var n := uninit.Length;
      ghost var img := Padded(uninit[..]);
      forall i | 0 <= i < n { snap[HDR + i] := uninit[i]; }
      var bytes := HDR + n;
      prog := (bytes + 15) / 16 * 16;
      RoundedUp(n);
      forall i | bytes <= i < prog { snap[i] := 0xFF; }
      forall i | 0 <= i < |img| ensures snap[HDR + i] == img[i] {
        assert i < n ==> img[i] == uninit[i];
      }
    }

    /** The dirty check. */
    method Dirty(prog: nat) returns (changed: bool)
      requires Valid() && uninit.Length <= ROOM
      requires prog == HDR + |Padded(uninit[..])| && snap[HDR..prog] == Padded(uninit[..])
      ensures changed == Changed(page[..], uninit[..])
    {
      var magic := Word(0);
      var len := Word(2);
      assert page[HDR..prog] == page[..][HDR..prog];
      changed := magic != MAGIC_V2 || len != uninit.Length || snap[HDR..prog] != page[HDR..prog];
    }

    method PutWord(i: nat, w: u32)
      requires Valid() && 4 * i + 4 <= PAGE
      modifies snap
      ensures snap[..] == old(snap[..4 * i]) + LeBytes(w) + old(snap[4 * i + 4..])
    {
      var b := ToBytes(w);
      snap[4 * i], snap[4 * i + 1], snap[4 * i + 2], snap[4 * i + 3] := b[0], b[1], b[2], b[3];
    }

    method FillHeader()
      requires Valid() && uninit.Length <= ROOM
      modifies snap
      ensures snap[..] == Header(uninit[..], crc) + old(snap[HDR..])
    {
      ghost var was := snap[..];
      PutWord(0, MAGIC_V2);
      PutWord(1, crc(uninit[..]));
      PutWord(2, uninit.Length);
      PutWord(3, 0xFFFF_FFFF);
    }

    /** The bootrom's program helper: it succeeds, or fails having written any part
        of the range. */
    method NvProgram(off: nat, size: nat) returns (ok: bool)
      requires Valid() && off + size <= PAGE && size <= PAGE
      modifies page, `faults, `attempts
      ensures faults == old(faults) + (if ok then 0 else 1) && attempts == old(attempts) + 1
      ensures page[..off] == old(page[..off]) && page[off + size..] == old(page[off + size..])
      ensures ok ==> page[off..off + size] == snap[..size]
    {
      ok :| true;
      var torn: nat -> u8 :| true;
      forall i | 0 <= i < size { page[off + i] := if ok then snap[i] else torn(i); }
      faults, attempts := faults + (if ok then 0 else 1), attempts + 1;
    }

    /** tiku_mem_arch_nvm_flush_status.  The image always fits once the size check
        has passed, so the second check on the padded size is not repeated. */
    method FlushStatus() returns (rc: int)
      requires Valid()
      modifies page, snap, `programs, `faults, `attempts
      ensures rc == 0 || (rc == -1 && (uninit.Length > ROOM || faults == old(faults) + 1))
      ensures uninit.Length > ROOM ==> rc == -1 && page[..] == old(page[..])
      ensures uninit.Length <= ROOM && rc == 0 ==> page[..] == Flushed(old(page[..]), uninit[..], crc)
      ensures uninit.Length <= ROOM && rc == -1 ==> page[..] == Torn(old(page[..]), uninit[..], page[..])
      ensures uninit.Length <= ROOM && !Changed(old(page[..]), uninit[..]) ==> rc == 0
      ensures programs == old(programs) +
                if uninit.Length <= ROOM && rc == 0 && Changed(old(page[..]), uninit[..]) then 1 else 0
    {
      if uninit.Length > ROOM { return -1; }
      ghost var was, ram := page[..], uninit[..];
      var prog := Compose();
      var changed := Dirty(prog);
      if !changed { return 0; }
      ghost var img := snap[HDR..prog];
      FillHeader();
      assert snap[..prog] == Header(ram, crc) + img;
      var ok := NvProgram(0, prog);
      rc := if ok then 0 else -1;
      assert page[prog..] == was[prog..];
      if ok {
        programs := programs + 1;
        assert page[..] == page[0..prog] + page[prog..] == Programmed(was, ram, crc);
      }
    }

    /** tiku_mem_arch_nvm_bench, with the patterns it programs left open. */
    method Bench(max: nat) returns (count: nat)
      requires Valid()
      modifies page, snap, `faults, `attempts
      ensures count == (if uninit.Length > BENCH_OFF - HDR then 0 else Min(max, 3))
      ensures attempts == old(attempts) + 4 * count
      ensures exists data: Bytes :: |data| <= BENCH_MAX && page[..] == Benched(old(page[..]), uninit.Length, data)
    {
      ghost var was := page[..];
      count := 0;
      ghost var none: Bytes := [];
      assert was[..BENCH_OFF] + none + was[BENCH_OFF + |none|..] == was;
      if max == 0 || uninit.Length > BENCH_OFF - HDR {
        assert page[..] == Benched(was, uninit.Length, none);
        return;
      }
      var sizes := [16, 256, 4096, 32768];
      var i := 0;
      while i < |sizes| && count < max
        invariant i <= |sizes| && count == Min(i, 3) && count <= max && OnlyUpper(was, page[..])
        invariant attempts == old(attempts) + 4 * count
        decreases |sizes| - i
      {
        if sizes[i] <= PAGE && sizes[i] <= PAGE - BENCH_OFF {
          BenchSize(sizes[i]);
          count := count + 1;
        }
        i := i + 1;
      }
      OnlyUpperIsBenched(was, page[..], uninit.Length);
    }

    /** One size: any pattern, programmed four times. */
    method BenchSize(size: nat)
      requires Valid() && size <= BENCH_MAX
      modifies page, snap, `faults, `attempts
      ensures OnlyUpper(old(page[..]), page[..]) && attempts == old(attempts) + 4
    {
      var pattern: nat -> u8 :| true;
      forall w | 0 <= w < size { snap[w] := pattern(w); }
      var r := 0;
      while r < 4
        invariant r <= 4 && OnlyUpper(old(page[..]), page[..]) && attempts == old(attempts) + r
      {
        ghost var was := page[..];
        var ok := NvProgram(BENCH_OFF, size);
        assert page[BENCH_OFF + BENCH_MAX..] == page[BENCH_OFF + size..][BENCH_MAX - size..];
        assert was[BENCH_OFF + BENCH_MAX..] == was[BENCH_OFF + size..][BENCH_MAX - size..];
        r := r + 1;
      }
    }
  }
}
