/**
 * The kernel tick on the STIMER (arch/ambiq/tiku_htimer_arch.c).
 *
 * The hardware counter is 32 bits wide and wraps.  The model keeps the true,
 * unbounded count beside it; the driver only ever sees the low word.  The pure
 * part is a step function over what the two compare interrupts and the tickless
 * hooks do; the class Timer at the end is the driver, each method of which
 * takes exactly one such step.
 */
module Stimer {
  import opened Words

  /**
   * The driver's statics with the ghost quantities they stand for.
   *
   *   anchor, last         s_tick_anchor and s_last_cmpr
   *   boundary             true count of the last accounted tick boundary
   *   lastRead, lastWrite  true counts of the read stored in `last` and of the
   *                        compare write it follows
   *   fireAt               true count at which compare-B matches
   *   pending              the COMPAREB flag, set by a match and cleared only
   *                        by the compare-B handler
   *   goal, aim            the tick number compare-B is aimed at and the true
   *                        count of that boundary
   */
  datatype Tick = Tick(now: nat, start: nat, period: u32,
                       anchor: u32, boundary: nat, credited: nat, stretched: bool,
                       last: u32, lastRead: nat, lastWrite: nat,
                       fireAt: nat, pending: bool, goal: nat, aim: nat)

  /** The times, in true counts, of one compare write: the poll that ended the
      spacing loop, the write, and the read back after it.  `spaced` is false
      when the loop gave up on a counter that did not move. */
  datatype Arming = Arming(poll: nat, write: nat, after: nat, spaced: bool)

  datatype Event =
    | CompareA(at: nat)
    | CompareB(clear: nat, at: nat, read: nat, arm: Arming)
    | Begin(ticks: u32, read: nat, arm: Arming)
    | End(at: nat, read: nat, arm: Arming)
    | OneShot(arm: Arming)                       // compare-A is scheduled

  // ---------------------------------------------------------------------------
  // The step function
  // ---------------------------------------------------------------------------

  /** The counts n ticks take up, one period at a time. */
  function Periods(n: nat, period: nat): nat {
    if n == 0 then 0 else period + Periods(n - 1, period)
  }

  /** The whole ticks in `into` counts. */
  function TicksIn(into: nat, period: nat): (n: nat)
    requires period > 0
    ensures Periods(n, period) <= into < Periods(n, period) + period
  {
    if into < period then 0 else 1 + TicksIn(into - period, period)
  }

  /** Counts since the anchor, as the driver computes them at true count t. */
  function Into(s: Tick, t: nat): u32 { Sub32(Low32(t), s.anchor) }

  /** Credit the whole ticks in `into` counts and move the anchor by them. */
  function Credit(s: Tick, into: u32): Tick
    requires s.period > 0
  {
    var n := TicksIn(into, s.period);
    var counts := Periods(n, s.period);
    s.(anchor := Low32(s.anchor + counts), boundary := s.boundary + counts,
       credited := s.credited + n)
  }

  /** stimer_tick_account with its counter read at true count `at`. */
  function Account(s: Tick, at: nat): Tick
    requires s.period > 0
  {
    Credit(s, Into(s, at)).(now := at)
  }

  /** stimer_arm on compare-A: no match time is tracked. */
  function ArmA(s: Tick, a: Arming): Tick {
    s.(now := a.after, last := Low32(a.after), lastRead := a.after, lastWrite := a.write)
  }

  /** stimer_arm on compare-B: the hardware adds the counter to `delta`.  A
      match of the old value before the write leaves the flag up, unless the
      handler, entered at `served`, has cleared the flag since. */
  function ArmB(s: Tick, a: Arming, delta: u32, served: int): Tick {
    ArmA(s, a).(fireAt := a.write + (if delta == 0 then 1 else delta),
                pending := s.pending || served < s.fireAt <= a.write)
  }

  /** stimer_tick_rearm_boundary with its own counter read at `read`. */
  function Rearm(s: Tick, read: nat, a: Arming, served: int): Tick {
    var into := Into(s, read);
    ArmB(s, a, if into >= s.period then 1 else s.period - into, served)
      .(goal := s.credited + 1, aim := s.boundary + s.period)
  }

  /** tiku_clock_tickless_begin once the counter was seen moving; `span` is the
      whole product whose low word the driver works with.  A product that
      overflows aims at no tick the caller asked for. */
  function StretchBy(s: Tick, ticks: u32, span: nat, read: nat, a: Arming): Tick {
    var into := Into(s, read);
    var armed := ArmB(s, a, if Low32(span) > into then Low32(span) - into else 1, -1).(stretched := true);
    if span < TWO32 then armed.(goal := s.credited + ticks, aim := s.boundary + span)
    else armed.(goal := s.credited, aim := s.boundary)
  }

  function Stretch(s: Tick, ticks: u32, read: nat, a: Arming): Tick {
    StretchBy(s, ticks, Periods(ticks, s.period), read, a)
  }

  /** Does this event credit ticks (rather than leave the clock alone)? */
  predicate Accounts(s: Tick, e: Event) {
    e.CompareB? || ((e.CompareA? || e.End?) && s.stretched)
  }

  /** Does this event write a compare register? */
  predicate Writes(s: Tick, e: Event) {
    e.CompareB? || e.Begin? || e.OneShot? || (e.End? && s.stretched)
  }

  /** The accounting half of an event. */
  function Settle(s: Tick, e: Event): Tick
    requires s.period > 0
  {
    match e
    case CompareA(at) => if s.stretched then Account(s, at) else s.(now := at)
    case CompareB(_, at, _, _) => Account(s.(pending := false), at).(stretched := false)
    case End(at, _, _) => if s.stretched then Account(s.(stretched := false), at) else s.(now := at)
    case _ => s
  }

  /** The half that writes a compare register. */
  function Program(s: Tick, e: Event): Tick
    requires !e.CompareA?
  {
    match e
    case CompareB(clear, _, read, arm) => Rearm(s, read, arm, clear)
    case Begin(ticks, read, arm) => Stretch(s, ticks, read, arm)
    case End(at, read, arm) => Rearm(s, read, arm, -1)
    case OneShot(arm) => ArmA(s, arm)
  }

  function Step(s: Tick, e: Event): Tick
    requires s.period > 0
  {
    if Writes(s, e) then Program(Settle(s, e), e) else Settle(s, e)
  }

  // ---------------------------------------------------------------------------
  // Runs
  // ---------------------------------------------------------------------------

  /** The spacing loop's exit test: the counter has passed the previous write. */
  predicate Passed(last: u32, count: nat) {
    Low32(count) != last && Low32(count) != Low32(last + 1)
  }

  predicate ArmLegal(s: Tick, from: nat, a: Arming) {
    from <= a.poll <= a.write <= a.after && a.spaced == Passed(s.last, a.poll)
  }

  /** Time only moves forward, and the compare-B handler runs only while its
      flag is up: still up from before, or raised by the match at `fireAt`. */
  predicate Legal(s: Tick, e: Event) {
    match e
    case CompareA(at) => s.now <= at
    case CompareB(clear, at, read, arm) =>
      s.now <= clear <= at <= read && ArmLegal(s, read, arm) && (s.pending || s.fireAt <= clear)
    case Begin(ticks, read, arm) => s.now <= read && ArmLegal(s, read, arm)
    case End(at, read, arm) => s.now <= at <= read && ArmLegal(s, read, arm)
    case OneShot(arm) => ArmLegal(s, s.now, arm)
  }

  predicate LegalRun(s: Tick, es: seq<Event>)
    requires s.period > 0
    decreases es
  {
    es == [] || (Legal(s, es[0]) && LegalRun(Step(s, es[0]), es[1..]))
  }

  function Run(s: Tick, es: seq<Event>): (r: Tick)
    requires s.period > 0
    ensures r.period == s.period && r.start == s.start
    decreases es
  {
    if es == [] then s else Run(Step(s, es[0]), es[1..])
  }

  /** The anchor is the low word of the last accounted boundary, and that
      boundary is not in the future. */
  predicate Anchored(s: Tick) {
    s.period > 0 && s.anchor == Low32(s.boundary) && s.boundary <= s.now
  }

  /** The boundary is the credited number of periods after the start. */
  predicate Counted(s: Tick) { s.boundary == s.start + Periods(s.credited, s.period) }

  predicate AimCounted(s: Tick) { s.aim == s.start + Periods(s.goal, s.period) }

  /** The clock is exact at true count t. */
  predicate Exact(s: Tick, t: nat)
    requires s.period > 0
  {
    s.start <= t && s.credited == (t - s.start) / s.period
  }

  /** The counter has not gone round since the last accounted boundary. */
  predicate Fresh(s: Tick, t: nat) { t - s.boundary < TWO32 }

  // ---------------------------------------------------------------------------
  // One accounting point
  // ---------------------------------------------------------------------------

  lemma {:induction false} PeriodsIsProduct(n: nat, period: nat)
    ensures Periods(n, period) == n * period
  {
    if n > 0 {
      PeriodsIsProduct(n - 1, period);
      Distribute(n - 1, 1, period);
    }
  }

  lemma {:induction false} PeriodsAdd(a: nat, b: nat, period: nat)
    ensures Periods(a + b, period) == Periods(a, period) + Periods(b, period)
  {
    if b > 0 {
      assert a + b - 1 == a + (b - 1);
      PeriodsAdd(a, b - 1, period);
    }
  }

  lemma {:induction false} PeriodsGrow(a: nat, b: nat, period: nat)
    requires a <= b
    ensures Periods(a, period) <= Periods(b, period)
  {
    assert b == a + (b - a);
    PeriodsAdd(a, b - a, period);
  }

  /** Counting ticks one at a time is the driver's quotient. */
  lemma TicksAreQuotient(into: nat, period: nat)
    requires period > 0
    ensures TicksIn(into, period) == into / period
  {
    var n := TicksIn(into, period);
    PeriodsIsProduct(n, period);
    DivUnique(into, period, n, into - n * period);
  }

  lemma IntoIsElapsed(s: Tick, t: nat)
    requires Anchored(s) && s.boundary <= t
    ensures Into(s, t) == Low32(t - s.boundary)
    ensures Into(s, t) == t - s.boundary <==> Fresh(s, t)
  {
    SubLow(t, s.boundary);
  }

  /** Taking the whole periods out of a low word leaves less than a period
      exactly when the count had not gone round. */
  lemma TurnRemains(elapsed: nat, d: nat, period: u32)
    requires d <= Low32(elapsed) < d + period
    ensures elapsed - d < period <==> elapsed < TWO32
    ensures elapsed >= TWO32 ==> elapsed - d >= TWO32
  {
  }

  lemma AccountKeepsAnchor(s: Tick, at: nat)
    requires Anchored(s) && s.now <= at
    ensures Anchored(Account(s, at))
    ensures at - Account(s, at).boundary < s.period <==> Fresh(s, at)
    ensures !Fresh(s, at) ==> !Fresh(Account(s, at), at)
  {
    IntoIsElapsed(s, at);
    var d := Periods(TicksIn(Into(s, at), s.period), s.period);
    AddLow(s.boundary, d);
    TurnRemains(at - s.boundary, d, s.period);
  }

  lemma CreditKeepsCounted(s: Tick, into: u32)
    requires s.period > 0 && Counted(s)
    ensures Counted(Credit(s, into))
  {
    PeriodsAdd(s.credited, TicksIn(into, s.period), s.period);
  }

  /** Exactness without the quotient: t falls in the tick after the boundary. */
  lemma ExactIsInTick(s: Tick, t: nat)
    requires s.period > 0 && Counted(s)
    ensures Exact(s, t) <==> s.boundary <= t < s.boundary + s.period
    ensures Exact(s, t) ==> (t - s.start) % s.period == t - s.boundary
  {
    PeriodsIsProduct(s.credited, s.period);
    if s.start <= t { InPeriod(s.start, s.credited, s.period, t); }
  }

  /**
   * An accounting point makes the clock exact if and only if the counter has
   * not wrapped past the last accounted boundary.
   */
  lemma AccountExactIffFresh(s: Tick, at: nat)
    requires Anchored(s) && Counted(s) && s.now <= at
    ensures Exact(Account(s, at), at) <==> Fresh(s, at)
  {
    AccountKeepsAnchor(s, at);
    CreditKeepsCounted(s, Into(s, at));
    ExactIsInTick(Account(s, at), at);
  }

  /**
   * Freshness in terms a caller can check: the counts since the last exact
   * accounting point plus the part of a tick then outstanding stay under 2^32.
   */
  lemma FreshIffGap(s: Tick, t0: nat, at: nat)
    requires Anchored(s) && Counted(s) && t0 <= at && Exact(s, t0)
    ensures Fresh(s, at) <==> (at - t0) + (t0 - s.start) % s.period < TWO32
  {
    ExactIsInTick(s, t0);
  }

  // ---------------------------------------------------------------------------
  // Whole runs
  // ---------------------------------------------------------------------------

  lemma SettleKeepsAnchor(s: Tick, e: Event)
    requires Anchored(s) && Counted(s) && Legal(s, e)
    ensures Anchored(Settle(s, e)) && Counted(Settle(s, e))
    ensures s.now <= Settle(s, e).now
    ensures Writes(s, e) && !e.OneShot? ==> Settle(s, e).now <= e.read
    ensures Settle(s, e).now <= if Writes(s, e) then e.arm.poll else e.at
  {
    if Accounts(s, e) {
      var t := match e
        case CompareA(_) => s
        case CompareB(_, _, _, _) => s.(pending := false)
        case End(_, _, _) => s.(stretched := false);
      AccountKeepsAnchor(t, e.at);
      CreditKeepsCounted(t, Into(t, e.at));
    }
  }

  lemma ProgramKeepsAnchor(s: Tick, e: Event)
    requires Anchored(s) && Counted(s) && !e.CompareA? && s.now <= e.arm.after
    ensures Anchored(Program(s, e)) && Counted(Program(s, e))
    ensures s.now <= Program(s, e).now
  {
  }

  lemma StepKeepsAnchor(s: Tick, e: Event)
    requires Anchored(s) && Counted(s) && Legal(s, e)
    ensures Anchored(Step(s, e)) && Counted(Step(s, e))
    ensures s.now <= Step(s, e).now
  {
    SettleKeepsAnchor(s, e);
    if Writes(s, e) { ProgramKeepsAnchor(Settle(s, e), e); }
  }

  /** The two states agree on everything the clock's exactness depends on. */
  predicate SameClock(s: Tick, t: Tick) {
    s.start == t.start && s.period == t.period && s.credited == t.credited && s.boundary == t.boundary
  }

  lemma StepIsAccount(s: Tick, e: Event)
    requires s.period > 0 && Accounts(s, e)
    ensures SameClock(Account(s, e.at), Step(s, e))
  {
  }

  lemma SameClockIsAsExact(s: Tick, t: Tick, at: nat)
    requires s.period > 0 && SameClock(s, t)
    ensures Exact(s, at) <==> Exact(t, at)
    ensures Fresh(s, at) <==> Fresh(t, at)
  {
  }

  lemma StepExactIffFresh(s: Tick, e: Event)
    requires Anchored(s) && Counted(s) && Legal(s, e) && Accounts(s, e)
    ensures Exact(Step(s, e), e.at) <==> Fresh(s, e.at)
    ensures !Fresh(s, e.at) ==> !Fresh(Step(s, e), e.at)
  {
    AccountExactIffFresh(s, e.at);
    AccountKeepsAnchor(s, e.at);
    StepIsAccount(s, e);
    SameClockIsAsExact(Account(s, e.at), Step(s, e), e.at);
  }

  /** Every accounting point of the run leaves an exact clock. */
  predicate AllExact(s: Tick, es: seq<Event>)
    requires s.period > 0
    decreases es
  {
    es == [] ||
    ((Accounts(s, es[0]) ==> Exact(Step(s, es[0]), es[0].at)) && AllExact(Step(s, es[0]), es[1..]))
  }

  /** No accounting point of the run comes a full counter turn after the last
      accounted boundary. */
  predicate AllFresh(s: Tick, es: seq<Event>)
    requires s.period > 0
    decreases es
  {
    es == [] ||
    ((Accounts(s, es[0]) ==> Fresh(s, es[0].at)) && AllFresh(Step(s, es[0]), es[1..]))
  }

  /**
   * Over every run, of any length and across any number of counter wraps, the
   * ticks credited at every accounting point are floor((count - start)/period)
   * exactly when no accounting point is a whole counter turn late.
   */
  lemma {:induction false} RunExactIffFresh(s: Tick, es: seq<Event>)
    requires Anchored(s) && Counted(s) && LegalRun(s, es)
    ensures AllExact(s, es) <==> AllFresh(s, es)
    ensures Anchored(Run(s, es)) && s.now <= Run(s, es).now
    decreases es
  {
    if es != [] {
      StepKeepsAnchor(s, es[0]);
      if Accounts(s, es[0]) { StepExactIffFresh(s, es[0]); }
      RunExactIffFresh(Step(s, es[0]), es[1..]);
    }
  }

  /** The counts from t to `at` and the part of a tick outstanding at t stay under
      2^32. */
  predicate ShortGap(s: Tick, t: nat, at: nat)
    requires s.period > 0
  {
    s.start <= t && (at - t) + (t - s.start) % s.period < TWO32
  }

  /** So do those between each accounting point of the run and the one before it,
      the first of them t. */
  predicate ShortGaps(s: Tick, es: seq<Event>, t: nat)
    requires s.period > 0
    decreases es
  {
    es == [] ||
    if Accounts(s, es[0]) then ShortGap(s, t, es[0].at) && ShortGaps(Step(s, es[0]), es[1..], es[0].at)
    else ShortGaps(Step(s, es[0]), es[1..], t)
  }

  /** A clock exact at t. */
  predicate ExactAt(s: Tick, t: nat) { Anchored(s) && Counted(s) && Exact(s, t) && t <= s.now }

  /** An event that is no accounting point leaves an exact clock as it was. */
  lemma StepKeepsClock(s: Tick, e: Event, t: nat)
    requires ExactAt(s, t) && Legal(s, e) && !Accounts(s, e)
    ensures ExactAt(Step(s, e), t)
  {
    StepKeepsAnchor(s, e);
    assert SameClock(s, Step(s, e));
  }

  /** An accounting point leaves one after a short gap, and only then. */
  lemma StepExactIffShortGap(s: Tick, e: Event, t: nat)
    requires ExactAt(s, t) && Legal(s, e) && Accounts(s, e)
    ensures ExactAt(Step(s, e), e.at) <==> ShortGap(s, t, e.at)
    ensures ExactAt(Step(s, e), e.at) <==> Exact(Step(s, e), e.at)
  {
    StepKeepsAnchor(s, e);
    FreshIffGap(s, t, e.at);
    StepExactIffFresh(s, e);
    AccountedAt(s, e);
  }

  lemma AccountedAt(s: Tick, e: Event)
    requires s.period > 0 && Legal(s, e) && Accounts(s, e)
    ensures s.now <= e.at <= Step(s, e).now
  {
  }

  /**
   * The same in the times of the events alone: over every run from a clock exact
   * at t, the clock is exact at every accounting point if and only if the gaps
   * between them are short.
   */
  lemma {:induction false} RunExactIffShortGaps(s: Tick, es: seq<Event>, t: nat)
    requires ExactAt(s, t) && LegalRun(s, es)
    ensures AllExact(s, es) <==> ShortGaps(s, es, t)
    decreases es
  {
    if es != [] {
      if Accounts(s, es[0]) {
        StepExactIffShortGap(s, es[0], t);
        if ExactAt(Step(s, es[0]), es[0].at) { RunExactIffShortGaps(Step(s, es[0]), es[1..], es[0].at); }
      } else {
        StepKeepsClock(s, es[0], t);
        RunExactIffShortGaps(Step(s, es[0]), es[1..], t);
      }
    }
  }

  /** A clock a whole turn behind at some time never becomes exact again. */
  lemma {:induction false} LostTurnIsNeverRecovered(s: Tick, es: seq<Event>, t: nat)
    requires Anchored(s) && Counted(s) && LegalRun(s, es) && !Fresh(s, s.now)
    requires t >= Run(s, es).now
    ensures !Exact(Run(s, es), t)
    decreases es
  {
    if es == [] {
      ExactIsInTick(s, t);
    } else {
      StepKeepsAnchor(s, es[0]);
      if Accounts(s, es[0]) { StepExactIffFresh(s, es[0]); }
      RunExactIffFresh(Step(s, es[0]), es[1..]);
      LostTurnIsNeverRecovered(Step(s, es[0]), es[1..], t);
    }
  }

  // ---------------------------------------------------------------------------
  // What compare-B is aimed at, and how far apart the compare writes are
  // ---------------------------------------------------------------------------

  /** Compare-B matches no earlier than the tick it is aimed at. */
  predicate Aimed(s: Tick) { s.aim <= s.fireAt }

  /** Outside a stretch the next tick is the aim. */
  predicate OnCadence(s: Tick) { !s.stretched ==> s.goal == s.credited + 1 }

  /** s_last_cmpr was read back after the last compare write. */
  predicate WriteRead(s: Tick) { s.last == Low32(s.lastRead) && s.lastWrite <= s.lastRead <= s.now }

  lemma RearmAims(s: Tick, read: nat, a: Arming, served: int)
    requires Anchored(s) && s.now <= read && ArmLegal(s, read, a)
    ensures Aimed(Rearm(s, read, a, served))
  {
    IntoIsElapsed(s, read);
  }

  lemma StretchAims(s: Tick, ticks: u32, span: nat, read: nat, a: Arming)
    requires Anchored(s) && s.now <= read && ArmLegal(s, read, a)
    ensures Aimed(StretchBy(s, ticks, span, read, a))
  {
    IntoIsElapsed(s, read);
  }

  lemma AimKeepsCounted(s: Tick, ticks: u32, read: nat, a: Arming, served: int)
    requires Counted(s)
    ensures AimCounted(Rearm(s, read, a, served)) && AimCounted(Stretch(s, ticks, read, a))
  {
    assert Periods(s.credited + 1, s.period) == s.period + Periods(s.credited, s.period);
    PeriodsAdd(s.credited, ticks, s.period);
  }

  /** The overflow guard is needed: a span of 2^32 counts or more, written with
      no delay, matches before the tick that was asked for. */
  lemma LongStretchFiresEarly(s: Tick, ticks: u32, span: nat, read: nat, a: Arming)
    requires Anchored(s) && s.now <= read && ArmLegal(s, read, a) && a.write == read
    requires span >= TWO32 && read - s.boundary < TWO32 - 1
    ensures StretchBy(s, ticks, span, read, a).fireAt < s.boundary + span
  {
    IntoIsElapsed(s, read);
  }

  /** Every invariant of the driver's state. */
  predicate Valid(s: Tick) {
    Anchored(s) && Counted(s) && AimCounted(s) && Aimed(s) && OnCadence(s) && WriteRead(s)
  }

  lemma SettleKeepsAim(s: Tick, e: Event)
    requires Valid(s) && Legal(s, e)
    ensures var t := Settle(s, e); AimCounted(t) && Aimed(t) && WriteRead(t)
    ensures !Writes(s, e) ==> OnCadence(Settle(s, e))
  {
  }

  lemma ProgramKeepsAim(s: Tick, e: Event)
    requires Anchored(s) && Counted(s) && AimCounted(s) && Aimed(s) && !e.CompareA?
    requires (!e.OneShot? ==> s.now <= e.read && ArmLegal(s, e.read, e.arm)) && ArmLegal(s, s.now, e.arm)
    requires e.OneShot? ==> OnCadence(s)
    ensures var t := Program(s, e); AimCounted(t) && Aimed(t) && OnCadence(t) && WriteRead(t)
  {
    match e
    case OneShot(arm) =>
    case Begin(ticks, read, arm) =>
      StretchAims(s, ticks, Periods(ticks, s.period), read, arm);
      AimKeepsCounted(s, ticks, read, arm, -1);
    case CompareB(clear, at, read, arm) =>
      RearmAims(s, read, arm, clear);
      AimKeepsCounted(s, 0, read, arm, clear);
    case End(at, read, arm) =>
      RearmAims(s, read, arm, -1);
      AimKeepsCounted(s, 0, read, arm, -1);
  }

  lemma StepKeepsValid(s: Tick, e: Event)
    requires Valid(s) && Legal(s, e)
    ensures Valid(Step(s, e))
  {
    SettleKeepsAnchor(s, e);
    SettleKeepsAim(s, e);
    if Writes(s, e) {
      ProgramKeepsAnchor(Settle(s, e), e);
      ProgramKeepsAim(Settle(s, e), e);
    }
  }

  /**
   * When the compare-B flag was clear at the last write, the handler brings the
   * clock at least to the tick the write aimed at: one more tick after a re-arm,
   * k more after a stretch of k.
   */
  lemma CompareBReachesGoal(s: Tick, e: Event)
    requires Valid(s) && Legal(s, e) && e.CompareB? && !s.pending && Fresh(s, e.at)
    ensures Step(s, e).credited >= s.goal
    ensures !s.stretched ==> Step(s, e).credited > s.credited
  {
    AccountKeepsAnchor(s, e.at);
    CreditKeepsCounted(s, Into(s, e.at));
    LaterBoundary(Account(s, e.at), s.goal, s.aim);
  }

  /** A boundary less than a period before another has at least its number. */
  lemma LaterBoundary(s: Tick, goal: nat, aim: nat)
    requires Counted(s) && s.period > 0
    requires aim == s.start + Periods(goal, s.period) && aim < s.boundary + s.period
    ensures goal <= s.credited
  {
    if goal > s.credited { PeriodsGrow(s.credited + 1, goal, s.period); }
  }

  /** A flag left over from before the write makes the handler run early, with
      nothing to credit. */
  lemma StaleFlagCreditsNothing(s: Tick, e: Event)
    requires Valid(s) && Legal(s, e) && e.CompareB? && e.at < s.boundary + s.period
    ensures s.pending || s.stretched
    ensures Step(s, e).credited == s.credited
  {
    IntoIsElapsed(s, e.at);
    if !s.stretched {
      assert Periods(s.goal, s.period) == s.period + Periods(s.credited, s.period);
    }
  }

  /** A compare-B write that comes at or after the match of the value it replaces,
      when that is not the match its own handler has just served. */
  predicate WritesTooLate(s: Tick, e: Event) {
    (e.CompareB? && e.clear < s.fireAt <= e.arm.write) ||
    ((e.Begin? || (e.End? && s.stretched)) && s.fireAt <= e.arm.write)
  }

  /** What the run has left behind at index i. */
  function At(s: Tick, es: seq<Event>, i: nat): Tick
    requires s.period > 0 && i <= |es|
  {
    Run(s, es[..i])
  }

  /** Some write of the run was too late, and no handler has run since. */
  predicate LeftOver(s: Tick, es: seq<Event>)
    requires s.period > 0
  {
    exists i :: 0 <= i < |es| && WritesTooLate(At(s, es, i), es[i]) && NoHandlerAfter(es, i)
  }

  predicate NoHandlerAfter(es: seq<Event>, i: nat) {
    forall k :: i < k < |es| ==> !es[k].CompareB?
  }

  lemma FlagAfterStep(s: Tick, e: Event)
    requires Valid(s) && Legal(s, e)
    ensures Step(s, e).pending <==> WritesTooLate(s, e) || (s.pending && !e.CompareB?)
  {
  }

  lemma {:induction false} RunLast(s: Tick, es: seq<Event>, e: Event)
    requires s.period > 0
    ensures LegalRun(s, es + [e]) <==> LegalRun(s, es) && Legal(Run(s, es), e)
    ensures Run(s, es + [e]) == Step(Run(s, es), e)
    decreases es
  {
    if es == [] {
      assert es + [e] == [e] && [e][1..] == [];
    } else {
      assert (es + [e])[0] == es[0] && (es + [e])[1..] == es[1..] + [e];
      RunLast(Step(s, es[0]), es[1..], e);
    }
  }

  /** One more event leaves the history before it as it was. */
  lemma SameHistory(s: Tick, es: seq<Event>, e: Event, i: nat)
    requires s.period > 0 && i < |es|
    ensures At(s, es + [e], i) == At(s, es, i) && (es + [e])[i] == es[i]
    ensures NoHandlerAfter(es + [e], i) <==> NoHandlerAfter(es, i) && !e.CompareB?
  {
    var more, n := es + [e], |es|;
    assert more[..i] == es[..i] && more[n] == e;
    if NoHandlerAfter(more, i) {
      assert forall k :: i < k < n ==> es[k] == more[k];
    }
  }

  lemma LeftOverOneMore(s: Tick, es: seq<Event>, e: Event)
    requires s.period > 0
    ensures LeftOver(s, es + [e]) <==> WritesTooLate(Run(s, es), e) || (LeftOver(s, es) && !e.CompareB?)
  {
    var more, n := es + [e], |es|;
    assert more[..n] == es && At(s, more, n) == Run(s, es) && NoHandlerAfter(more, n);
    forall i | 0 <= i < n
      ensures At(s, more, i) == At(s, es, i) && more[i] == es[i]
      ensures NoHandlerAfter(more, i) <==> NoHandlerAfter(es, i) && !e.CompareB?
    {
      SameHistory(s, es, e, i);
    }
    assert LeftOver(s, es) && !e.CompareB? ==> LeftOver(s, more);
  }

  /** Over every run from a clear flag: the flag is up exactly when a write of the
      run was too late and no handler has run since. */
  lemma {:induction false} FlagIsLeftOver(s: Tick, es: seq<Event>)
    requires Valid(s) && LegalRun(s, es) && !s.pending
    ensures Valid(Run(s, es)) && (Run(s, es).pending <==> LeftOver(s, es))
    decreases |es|
  {
    if es != [] {
      var n := |es| - 1;
      assert es == es[..n] + [es[n]];
      RunLast(s, es[..n], es[n]);
      FlagIsLeftOver(s, es[..n]);
      StepKeepsValid(Run(s, es[..n]), es[n]);
      FlagAfterStep(Run(s, es[..n]), es[n]);
      LeftOverOneMore(s, es[..n], es[n]);
    }
  }

  lemma CreditsNothingIff(s: Tick, e: Event)
    requires Valid(s) && Legal(s, e) && e.CompareB?
    ensures Step(s, e).credited == s.credited <==> Low32(e.at - s.boundary) < s.period
  {
    IntoIsElapsed(s, e.at);
  }

  lemma IdleHandler(s: Tick, e: Event)
    requires Valid(s) && Legal(s, e) && e.CompareB?
    ensures Step(s, e).credited == s.credited <==> Low32(e.at - s.boundary) < s.period
    ensures Step(s, e).credited == s.credited && Fresh(s, e.at) ==> s.stretched || s.pending
  {
    CreditsNothingIff(s, e);
    if Low32(e.at - s.boundary) < s.period && Fresh(s, e.at) {
      IntoIsElapsed(s, e.at);
      StaleFlagCreditsNothing(s, e);
    }
  }

  /**
   * Which compare-B handler runs credit nothing, over every run from a clear flag:
   * those that find less than a period, modulo 2^32, since the last boundary.
   * Outside a stretch, and within a turn of the counter, that takes a write
   * earlier in the run that was too late, with no handler between.
   */
  lemma IdleHandlerRuns(s: Tick, es: seq<Event>, t: Tick, e: Event)
    requires Valid(s) && !s.pending && LegalRun(s, es + [e]) && e.CompareB? && t == Run(s, es)
    ensures Step(t, e).credited == t.credited <==> Low32(e.at - t.boundary) < t.period
    ensures Step(t, e).credited == t.credited && Fresh(t, e.at) ==> t.stretched || LeftOver(s, es)
  {
    RunLast(s, es, e);
    FlagIsLeftOver(s, es);
    IdleHandler(t, e);
  }

  /**
   * And when there is one to come: outside a stretch a handler that credits nothing,
   * within a turn of the counter, can run next if and only if such a write is left
   * over and the next boundary is still ahead.
   */
  lemma IdleHandlerCanRunIff(s: Tick, es: seq<Event>, t: Tick)
    requires Valid(s) && !s.pending && LegalRun(s, es) && t == Run(s, es) && !t.stretched
    ensures (exists e: Event :: Legal(t, e) && IdleAt(t, e)) <==>
            LeftOver(s, es) && t.now < t.boundary + t.period
  {
    FlagIsLeftOver(s, es);
    if e: Event :| Legal(t, e) && IdleAt(t, e) {
      IdleHandler(t, e);
      IntoIsElapsed(t, e.at);
    }
    if t.pending && t.now < t.boundary + t.period { var e := IdleNow(t); }
  }

  /** A handler run that credits nothing, within a turn of the last boundary. */
  predicate IdleAt(s: Tick, e: Event)
    requires s.period > 0
  {
    e.CompareB? && Fresh(s, e.at) && Step(s, e).credited == s.credited
  }

  lemma IdleNow(s: Tick) returns (e: Event)
    requires Valid(s) && s.pending && s.now < s.boundary + s.period
    ensures Legal(s, e) && IdleAt(s, e)
  {
    e := CompareB(s.now, s.now, s.now, Arming(s.now, s.now, s.now, Passed(s.last, s.now)));
    IdleHandler(s, e);
    IntoIsElapsed(s, s.now);
  }

  /** Each compare write of the run falls two counts or more after the one before it,
      unless the counter was still within a count of that one's read-back when the
      spacing loop gave up. */
  predicate AllSpaced(s: Tick, es: seq<Event>)
    requires s.period > 0
    decreases es
  {
    es == [] ||
    ((Writes(s, es[0]) ==>
        es[0].arm.write >= s.lastWrite + 2 || (!es[0].arm.spaced && es[0].arm.poll <= s.lastRead + 1)) &&
     AllSpaced(Step(s, es[0]), es[1..]))
  }

  /** The loop's test passes two counts on, and fails before that or when the
      counter has gone round. */
  lemma PassedIsTwoLater(lastRead: nat, count: nat)
    requires lastRead <= count
    ensures Passed(Low32(lastRead), count) ==> count >= lastRead + 2
    ensures !Passed(Low32(lastRead), count) ==> count <= lastRead + 1 || count >= lastRead + TWO32
  {
    if Low32(count) == Low32(lastRead) && count > lastRead { WholeTurn(lastRead, count); }
    AddLow(lastRead, 1);
    if Low32(count) == Low32(lastRead + 1) && count > lastRead + 1 { WholeTurn(lastRead + 1, count); }
  }

  /** Over every run: the invariants hold throughout, and the compare writes,
      on either register, keep their distance. */
  lemma {:induction false} RunValidAndSpaced(s: Tick, es: seq<Event>)
    requires Valid(s) && LegalRun(s, es)
    ensures Valid(Run(s, es)) && AllSpaced(s, es)
    decreases es
  {
    if es != [] {
      if Writes(s, es[0]) { PassedIsTwoLater(s.lastRead, es[0].arm.poll); }
      StepKeepsValid(s, es[0]);
      RunValidAndSpaced(Step(s, es[0]), es[1..]);
    }
  }

  lemma WholeTurn(t0: nat, t: nat)
    requires t0 < t && Low32(t0) == Low32(t)
    ensures t >= t0 + TWO32
  {
  }

  /** Counts from a snapshot of the counter to the 16-bit target t. */
  function DeltaTo(t: u16, snap: u32): u32 {
    var delta := Low16(t - Low16(snap));
    if delta == 0 then 1 else delta
  }

  /** The same less the latencies and the counts since the snapshot. */
  function Adjusted(delta: u32, cur: u32, snap: u32): u32 {
    var adj := Low32(3 + Sub32(cur, snap));
    if delta > adj then delta - adj else 1
  }

  lemma DeltaHits(t: u16, at: nat)
    ensures var target := at + DeltaTo(t, Low32(at)); Low16(target) == t || Low16(target - 1) == t
  {
    Low16OfLow32(at);
    Forward16(t, at);
  }

  lemma AdjustedReaches(delta: u32, at: nat, poll: nat, write: nat)
    requires at <= poll <= write && poll - at < TWO32 - 3
    ensures var d := Adjusted(delta, Low32(poll), Low32(at));
            at + delta <= write + d + 3 && (write + d + 3 == at + delta + (write - poll) || d == 1)
  {
    SubLow(poll, at);
  }

  /** The state tick_start builds up, the anchor read at t, before it writes
      compare-B. */
  function Unarmed(period: u32, t: nat, last: nat): Tick {
    Tick(t, t, period, Low32(t), t, 0, false, Low32(last), last, last, 0, false, 1, t + Periods(1, period))
  }

  lemma StartedIsValid(period: u32, t: nat, last: nat, a: Arming)
    requires period > 0 && last <= t <= a.poll <= a.write <= a.after
    ensures Valid(ArmB(Unarmed(period, t, last), a, period, -1).(pending := false))
  {
    assert Periods(1, period) == period + Periods(0, period);
  }

  /** A stretch opens at true count `read`. */
  lemma StretchOpens(s: Tick, ticks: u32, read: nat) returns (e: Event)
    requires Valid(s) && s.now <= read
    ensures Legal(s, e) && e.Begin? && Valid(Step(s, e))
    ensures var t := Step(s, e); t.stretched && t.now == read && t.fireAt < read + TWO32 && SameClock(s, t)
  {
    e := Begin(ticks, read, Arming(read, read, read, Passed(s.last, read)));
    StepKeepsValid(s, e);
  }

  /** In it a one-shot accounts. */
  lemma OneShotAccounts(s: Tick, at: nat)
    requires Valid(s) && s.stretched && s.now <= at && Fresh(s, at)
    ensures var t := Step(s, CompareA(at));
            && Legal(s, CompareA(at)) && Accounts(s, CompareA(at)) && Valid(t) && Exact(t, at)
            && t.now == at && t.fireAt == s.fireAt && t.start == s.start && t.period == s.period
  {
    StepKeepsValid(s, CompareA(at));
    StepExactIffFresh(s, CompareA(at));
  }

  /** The compare-B handler runs any time after the match. */
  lemma HandlerRuns(s: Tick, at: nat) returns (e: Event)
    requires Valid(s) && s.now <= at && s.fireAt <= at
    ensures Legal(s, e) && e.CompareB? && e.at == at
    ensures Exact(Step(s, e), at) <==> Fresh(s, at)
  {
    e := CompareB(at, at, at, Arming(at, at, at, Passed(s.last, at)));
    StepExactIffFresh(s, e);
  }

  lemma ThreeSteps(s: Tick, a: Event, s1: Tick, b: Event, s2: Tick, c: Event)
    requires s.period > 0 && s1.period > 0 && s2.period > 0
    requires Legal(s, a) && s1 == Step(s, a) && Legal(s1, b) && s2 == Step(s1, b) && Legal(s2, c)
    ensures var es := [a, b, c];
            LegalRun(s, es) && At(s, es, 1) == s1 && At(s, es, 2) == s2 && At(s, es, 3) == Step(s2, c)
  {
    assert [a, b, c][..1] == [] + [a] && [a, b, c][..2] == [a] + [b] && [a, b, c][..3] == [a, b] + [c];
    assert [a, b, c] == [a, b] + [c];
    RunLast(s, [], a);
    RunLast(s, [a], b);
    RunLast(s, [a, b], c);
  }

  /** A count late in its tick, after the first few. */
  lemma LateInTick(period: u32) returns (t: nat)
    requires period >= 2
    ensures 4 <= t < TWO32 && t % period == period - 1
  {
    t := if period >= 6 then period - 1 else 5 * period - 1;
    DivUnique(t, period, if period >= 6 then 0 else 4, period - 1);
  }

  /** A clock just started. */
  lemma JustStarted(period: u32) returns (s: Tick)
    requires period > 0
    ensures Valid(s) && s.start == 0 && s.boundary == 0 && s.period == period && s.now <= 4
  {
    s := StartedClock(period);
  }

  lemma StartedClock(period: u32) returns (s: Tick)
    requires period > 0
    ensures Valid(s) && s.start == 0 && s.boundary == 0 && s.period == period && s.now <= 4
    ensures s.credited == 0 && !s.pending && !s.stretched && s.fireAt == 2 + period
  {
    var a := Arming(2, 2, 2, true);
    StartedIsValid(period, 0, 0, a);
    s := ArmB(Unarmed(period, 0, 0), a, period, -1).(pending := false);
  }

  /** A stretch of one tick that opens in the first tick matches at its end. */
  lemma MatchesAtBoundary(s: Tick, period: u32) returns (e: Event)
    requires Valid(s) && s.now <= 4 && s.start == 0 && s.boundary == 0 && s.credited == 0 && !s.pending
    requires s.period == period >= 8 && s.fireAt > 4
    ensures Legal(s, e) && e.Begin? && Valid(Step(s, e))
    ensures var t := Step(s, e);
            && t.stretched && t.now == 4 && t.fireAt == period && !t.pending
            && t.start == 0 && t.boundary == 0 && t.credited == 0 && t.period == period
  {
    e := Begin(1, 4, Arming(4, 4, 4, Passed(s.last, 4)));
    StepKeepsValid(s, e);
    PeriodsIsProduct(1, period);
    IntoIsElapsed(s, 4);
  }

  /** Its end, four counts after the match, credits the tick and re-arms too late to
      cancel the flag. */
  lemma EndsAfterMatch(s: Tick, period: u32) returns (e: Event)
    requires Valid(s) && s.stretched && s.now == 4 && s.fireAt == s.period == period && 8 <= period < TWO32 - 4 && !s.pending
    requires s.start == 0 && s.boundary == 0 && s.credited == 0
    ensures Legal(s, e) && e.End? && Valid(Step(s, e))
    ensures var t := Step(s, e); !t.stretched && t.pending && t.now == period + 4 && t.credited == 1
    ensures var t := Step(s, e); t.boundary == period && t.period == period
  {
    var at := period + 4;
    e := End(at, at, Arming(at, at, at, Passed(s.last, at)));
    StepKeepsValid(s, e);
    AccountKeepsAnchor(s.(stretched := false), at);
    StepExactIffFresh(s, e);
    ExactIsInTick(Step(s, e), at);
    DivUnique(at, period, 1, 4);
    PeriodsIsProduct(1, period);
  }

  /**
   * An ordinary tickless end does it, for every period from 8 to 2^32 - 5: a clock just
   * started opens a stretch of one tick, the wake comes four counts after the match,
   * and the compare-B handler then runs with nothing to credit.
   */
  lemma TicklessEndLeavesIdleRun(period: u32) returns (s: Tick, es: seq<Event>)
    requires 8 <= period < TWO32 - 4
    ensures Valid(s) && !s.pending && LegalRun(s, es) && |es| == 3 && s.period == period
    ensures es[0].Begin? && es[1].End? && es[2].CompareB?
    ensures At(s, es, 2).credited == At(s, es, 3).credited == s.credited + 1 && !At(s, es, 2).stretched
  {
    s := StartedClock(period);
    var a := MatchesAtBoundary(s, period);
    var b := EndsAfterMatch(Step(s, a), period);
    var c := IdleNow(Step(Step(s, a), b));
    es := [a, b, c];
    ThreeSteps(s, a, Step(s, a), b, Step(Step(s, a), b), c);
  }

  /**
   * Accounting points less than 2^32 counts apart are not enough, for any period
   * but 1: a clock just started opens a stretch, a one-shot accounts late in a
   * tick, and the compare-B handler runs 2^32 - 1 counts later and loses a whole
   * turn of the counter.
   */
  lemma ShortGapCanLose(period: u32) returns (s: Tick, es: seq<Event>)
    requires period >= 2
    ensures Valid(s) && LegalRun(s, es) && |es| == 3 && s.period == period
    ensures Accounts(At(s, es, 1), es[1]) && Exact(At(s, es, 2), es[1].at)
    ensures Accounts(At(s, es, 2), es[2]) && es[2].at - es[1].at == TWO32 - 1
    ensures !Exact(At(s, es, 3), es[2].at)
  {
    var t, a, s1, s2;
    s, t, a, s1, s2 := LateOneShot(period);
    var c := HandlerRuns(s2, t + (TWO32 - 1));
    FreshIffGap(s2, t, t + (TWO32 - 1));
    es := [a, CompareA(t), c];
    ThreeSteps(s, a, s1, CompareA(t), s2, c);
  }

  /** Its first two steps. */
  lemma LateOneShot(period: u32) returns (s: Tick, t: nat, a: Event, s1: Tick, s2: Tick)
    requires period >= 2
    ensures Valid(s) && s.period == s1.period == s2.period == period && Legal(s, a) && s1 == Step(s, a)
    ensures Legal(s1, CompareA(t)) && Accounts(s1, CompareA(t)) && s2 == Step(s1, CompareA(t)) && Valid(s2)
    ensures Exact(s2, t) && s2.start == 0 && s2.now == t && t % period == period - 1 && s2.fireAt < 4 + TWO32 <= t + TWO32
  {
    s := JustStarted(period);
    t := LateInTick(period);
    a := StretchOpens(s, 2, 4);
    s1 := Step(s, a);
    OneShotAccounts(s1, t);
    s2 := Step(s1, CompareA(t));
  }

  // ---------------------------------------------------------------------------
  // The driver
  // ---------------------------------------------------------------------------

  /**
   * The driver's statics beside the hardware it drives.  `hw` is the true count,
   * of which a register read shows the low word; it only grows, by any amount,
   * between two accesses.  A compare register is the true count it matches at:
   * the hardware adds the counter to the delta written.  `ticks` is the kernel
   * clock.  The ghost `s` is the state of the step function.
   */
  class Timer {
    var hw: nat
    var cmprA: nat
    var cmprB: nat
    var ticks: nat

    var s_tick_anchor: u32
    var s_tick_period: u32
    var s_tick_rate_hz: u32
    var s_last_cmpr: u32
    var s_stretched: bool

    ghost var s: Tick
    ghost var ticks0: nat           // the kernel clock when the tick was started
    ghost var votes: nat            // votes taken on the counter

    /** The statics are the words of the step function's state. */
    ghost predicate Coupled()
      reads this
    {
      && s.now <= hw && s.period > 0
      && s_tick_anchor == s.anchor && s_tick_period == s.period
      && s_last_cmpr == s.last && s_stretched == s.stretched
      && cmprB == s.fireAt && ticks == ticks0 + s.credited
    }

    constructor (count: nat)
      ensures hw == count
    {
      hw, cmprA, cmprB, ticks := count, 0, 0, 0;
      s_tick_anchor, s_tick_period, s_tick_rate_hz, s_last_cmpr, s_stretched := 0, 0, 128, 0, false;
      s := Tick(0, 0, 0, 0, 0, 0, false, 0, 0, 0, 0, false, 0, 0);
    }

    method Elapse()
      modifies `hw
      ensures old(hw) <= hw
    {
      var d: nat :| true;
      hw := hw + d;
    }

    /**
     * stimer_counter.  At most one of the three reads is caught in the ripple
     * of a count and returns junk; reads one and two straddle no other count
     * when it is the third.  The vote returns the count at some time t within
     * the call.
     */
    method StimerCounter() returns (v: u32, ghost t: nat)
      modifies `hw, `votes
      ensures old(hw) <= t <= hw && v == Low32(t) && votes == old(votes) + 1
    {
      votes := votes + 1;
      var caught: nat, junk: u32 :| true;
      Elapse();
      var v0 := if caught == 0 then junk else Low32(hw);
      ghost var t0 := hw;
      if caught != 2 { Elapse(); }
      var v1 := if caught == 1 then junk else Low32(hw);
      ghost var t1 := hw;
      Elapse();
      var v2 := if caught == 2 then junk else Low32(hw);
      v := if v0 == v1 then v0 else v2;
      t := if v0 != v1 then hw else if caught == 0 then t1 else t0;
    }

    /** The spacing loop of stimer_arm: poll until the counter has passed the
        previous compare write, a million times at most. */
    method Space() returns (cur: u32, ghost poll: nat)
      modifies `hw, `votes
      ensures old(hw) <= poll <= hw && cur == Low32(poll)
      ensures Passed(s_last_cmpr, poll) || votes == old(votes) + 1_000_000
    {
      cur, poll := StimerCounter();
      var guard := 1_000_000;
      while (cur == s_last_cmpr || cur == Low32(s_last_cmpr + 1)) && guard > 1
        invariant old(hw) <= poll <= hw && cur == Low32(poll)
        invariant guard > 0 && votes + guard == old(votes) + 1_000_001
        decreases guard
      {
        cur, poll := StimerCounter();
        guard := guard - 1;
      }
    }

    /** stimer_arm on compare-B, its only use. */
    method StimerArm(delta0: u32) returns (ghost a: Arming)
      requires s.now <= hw && s_last_cmpr == s.last
      modifies `hw, `votes, `s_last_cmpr, `cmprB
      ensures ArmLegal(s, old(hw), a) && a.after <= hw && s_last_cmpr == Low32(a.after)
      ensures cmprB == a.write + (if delta0 == 0 then 1 else delta0)
      ensures a.spaced || votes == old(votes) + 1_000_001
    {
      var delta := if delta0 == 0 then 1 else delta0;
      var cur, poll := Space();
      Elapse();
      ghost var write := hw;
      cmprB := hw + delta;
      ghost var after;
      s_last_cmpr, after := StimerCounter();
      a := Arming(poll, write, after, Passed(s.last, poll));
    }

    method RateOf(period: u32) returns (hz: u32)
      requires period > 0
      ensures hz == if period > 32768 then 1 else 32768 / period
    {
      hz := 32768 / period;
      if hz == 0 { hz := 1; }
    }

    /** tiku_ambiq_stimer_tick_start. */
    method TickStart(periodCounts: u32)
      modifies this
      ensures Coupled() && Valid(s) && old(hw) <= s.start && s.credited == 0 && !s_stretched && ticks == old(ticks)
      ensures s_tick_period == if periodCounts == 0 then 1 else periodCounts
      ensures s_tick_rate_hz == if s_tick_period > 32768 then 1 else 32768 / s_tick_period
    {
      s_tick_period := if periodCounts == 0 then 1 else periodCounts;
      s_tick_rate_hz := RateOf(s_tick_period);
      ghost var t, t0;
      s_last_cmpr, t := StimerCounter();
      s_tick_anchor, t0 := StimerCounter();
      s_stretched := false;
      ticks0 := ticks;
      s := Unarmed(s_tick_period, t0, t);
      ghost var a := StimerArm(s_tick_period);
      s := ArmB(s, a, s_tick_period, -1).(pending := false);
      StartedIsValid(s_tick_period, t0, t, a);
    }

    /** stimer_tick_account. */
    method TickAccount() returns (ghost at: nat)
      requires Coupled()
      modifies `hw, `votes, `s_tick_anchor, `ticks, `s
      ensures old(hw) <= at <= hw && s == Account(old(s), at) && Coupled()
    {
      var c;
      c, at := StimerCounter();
      var elapsed := Sub32(c, s_tick_anchor);
      var n := elapsed / s_tick_period;
      TicksAreQuotient(elapsed, s_tick_period);
      PeriodsIsProduct(n, s_tick_period);
      s := Account(s, at);
      if n != 0 {
        s_tick_anchor := Low32(s_tick_anchor + n * s_tick_period);
        ticks := ticks + n;
      }
    }

    /** stimer_tick_rearm_boundary. */
    method RearmBoundary(ghost served: int) returns (ghost read: nat, ghost a: Arming)
      requires Coupled()
      modifies `hw, `votes, `s_last_cmpr, `cmprB, `s
      ensures old(hw) <= read && ArmLegal(old(s), read, a)
      ensures s == Rearm(old(s), read, a, served) && Coupled()
    {
      var c;
      c, read := StimerCounter();
      var into := Sub32(c, s_tick_anchor);
      var delta := if into >= s_tick_period then 1 else s_tick_period - into;
      a := StimerArm(delta);
      s := Rearm(s, read, a, served);
    }

    /** tiku_ambiq_stimer_cmpr0_isr, up to the one-shot callback it runs. */
    method Cmpr0Isr() returns (ghost e: Event)
      requires Coupled() && Valid(s)
      modifies `hw, `votes, `s_tick_anchor, `ticks, `s
      ensures Legal(old(s), e) && e.CompareA? && s == Step(old(s), e) && Coupled() && Valid(s)
    {
      ghost var at := s.now;
      if s_stretched { at := TickAccount(); }
      e := CompareA(at);
      StepKeepsValid(old(s), e);
    }

    /** tiku_ambiq_stimer_cmpr1_isr, entered because its flag is up. */
    method Cmpr1Isr() returns (ghost e: Event)
      requires Coupled() && Valid(s) && (s.pending || s.fireAt <= hw)
      modifies `hw, `votes, `s_tick_anchor, `ticks, `s_stretched, `s_last_cmpr, `cmprB, `s
      ensures Legal(old(s), e) && e.CompareB? && s == Step(old(s), e) && Coupled() && Valid(s)
    {
      ghost var clear := hw;
      s := s.(pending := false);
      ghost var at := TickAccount();
      s_stretched, s := false, s.(stretched := false);
      ghost var read, a := RearmBoundary(clear);
      e := CompareB(clear, at, read, a);
      StepKeepsValid(old(s), e);
    }

    /** stimer_verify_counting.  It says yes only to a counter that moved, and no
        only when four million looks saw it in place (or it went a whole turn). */
    method VerifyCounting() returns (moving: bool)
      modifies `hw, `votes
      ensures old(hw) <= hw && (moving ==> old(hw) < hw)
      ensures moving || votes == old(votes) + 4_000_002 || hw >= old(hw) + TWO32
    {
      var c0, t0 := StimerCounter();
      var c := c0;
      ghost var t := t0;
      var spin := 4_000_000;
      while c == c0 && spin > 0
        invariant old(hw) <= t0 <= t <= hw && c == Low32(t)
        invariant votes + spin == old(votes) + 4_000_001
        decreases spin
      {
        c, t := StimerCounter();
        spin := spin - 1;
      }
      ghost var t1 := t;
      c, t := StimerCounter();
      moving := c != c0;
      if Low32(t1) != c0 && !moving { WholeTurn(t0, t); }
    }

    method Span(ticks: u32) returns (span: u32)
      ensures span == Low32(Periods(ticks, s_tick_period))
    {
      PeriodsIsProduct(ticks, s_tick_period);
      span := Low32(ticks * s_tick_period);
    }

    /** tiku_clock_tickless_begin; a refusal leaves the tick alone. */
    method TicklessBegin(ticks: u32) returns (ok: bool, ghost e: Event)
      requires Coupled() && Valid(s)
      modifies `hw, `votes, `s_stretched, `s_last_cmpr, `cmprB, `s
      ensures Coupled() && Valid(s)
      ensures ok ==> Legal(old(s), e) && e.Begin? && e.ticks == ticks && s == Step(old(s), e)
      ensures ok ==> old(hw) < hw
      ensures !ok ==> s == old(s)
      ensures ok || votes == old(votes) + 4_000_002 || hw >= old(hw) + TWO32
    {
      e := CompareA(0);
      ok := VerifyCounting();
      if ok { e := BeginStretch(ticks); }
    }

    /** The stretched compare's delta. */
    method StretchDelta(ticks: u32) returns (delta: u32, ghost read: nat)
      requires Coupled()
      modifies `hw, `votes
      ensures old(hw) <= read <= hw
      ensures var span := Low32(Periods(ticks, s.period));
              delta == if span > Into(s, read) then span - Into(s, read) else 1
    {
      var count;
      count, read := StimerCounter();
      var into := Sub32(count, s_tick_anchor);
      var span := Span(ticks);
      delta := if span > into then span - into else 1;
    }

    method BeginStretch(ticks: u32) returns (ghost e: Event)
      requires Coupled() && Valid(s)
      modifies `hw, `votes, `s_stretched, `s_last_cmpr, `cmprB, `s
      ensures Coupled() && Valid(s) && Legal(old(s), e) && e.Begin? && e.ticks == ticks && s == Step(old(s), e)
      ensures old(hw) <= hw
    {
      var delta;
      ghost var read;
      delta, read := StretchDelta(ticks);
      s_stretched := true;
      ghost var a := StimerArm(delta);
      s := Stretch(s, ticks, read, a);
      e := Begin(ticks, read, a);
      StepKeepsValid(old(s), e);
    }

    /** tiku_clock_tickless_end. */
    method TicklessEnd() returns (ghost e: Event)
      requires Coupled() && Valid(s)
      modifies `hw, `votes, `s_tick_anchor, `ticks, `s_stretched, `s_last_cmpr, `cmprB, `s
      ensures Legal(old(s), e) && e.End? && s == Step(old(s), e) && Coupled() && Valid(s)
    {
      if !s_stretched {
        e := End(s.now, s.now, Arming(s.now, s.now, s.now, Passed(s.last, s.now)));
        return;
      }
      s_stretched, s := false, s.(stretched := false);
      ghost var at := TickAccount();
      ghost var read, a := RearmBoundary(-1);
      e := End(at, read, a);
      StepKeepsValid(old(s), e);
    }

    /** The snapshot, and the counts from it to the target. */
    method Aim(t: u16) returns (snap: u32, delta: u32, ghost at: nat, ghost target: nat)
      modifies `hw, `votes
      ensures old(hw) <= at <= hw && snap == Low32(at) && delta == DeltaTo(t, snap) && target == at + delta
      ensures Low16(target) == t || Low16(target - 1) == t
    {
      snap, at := StimerCounter();
      delta := DeltaTo(t, snap);
      target := at + delta;
      DeltaHits(t, at);
    }

    /** The compare-A write and its read-back, after the last poll. */
    method WriteA(delta: nat, ghost poll: nat) returns (ghost a: Arming)
      requires s.now <= poll <= hw && s_last_cmpr == s.last
      modifies `hw, `votes, `s_last_cmpr, `cmprA
      ensures ArmLegal(s, poll, a) && a.poll == poll && a.after <= hw && s_last_cmpr == Low32(a.after)
      ensures cmprA == a.write + delta
    {
      Elapse();
      ghost var write, after := hw, hw;
      cmprA := hw + delta;
      s_last_cmpr, after := StimerCounter();
      a := Arming(poll, write, after, Passed(s.last, poll));
    }

    /**
     * tiku_htimer_arch_schedule: compare-A for the 16-bit target t.  The match
     * at `fire` never comes more than the three counts of latency the driver
     * subtracts before the target, which is the first count after the call that
     * ends in t (one later when t is the current count); it is later than that
     * only by the counts from the last poll to the write, or when the target is
     * too near and the delta is the least there is.
     */
    method Schedule(t: u16) returns (ghost e: Event, ghost target: nat, ghost fire: nat)
      requires Coupled() && Valid(s)
      modifies `hw, `votes, `s_last_cmpr, `cmprA, `s
      ensures Legal(old(s), e) && e.OneShot? && s == Step(old(s), e) && Coupled() && Valid(s)
      ensures old(hw) < target && (Low16(target) == t || Low16(target - 1) == t)
      ensures cmprA == fire
      ensures e.arm.poll - old(hw) < TWO32 - 3 ==>
                target <= fire + 3 && (fire + 3 == target + (e.arm.write - e.arm.poll) || fire == e.arm.write + 1)
    {
      var snap, delta;
      ghost var at;
      snap, delta, at, target := Aim(t);
      var cur, poll := Space();
      delta := Adjusted(delta, cur, snap);
      ghost var a := WriteA(delta, poll);
      fire := cmprA;
      if poll - at < TWO32 - 3 { AdjustedReaches(DeltaTo(t, snap), at, poll, a.write); }
      s, e := ArmA(s, a), OneShot(a);
      StepKeepsValid(old(s), e);
    }
  }
}
