/**
 * Core frequency and voltage sequencing (arch/ambiq/tiku_cpu_freq_boot_arch.c).
 *
 * Between any two register writes the hardware may move: the buck may come up,
 * the oscillator may become ready, and a perf mode switch under way may
 * progress.  Every write and every move is recorded, and every record is safe.
 */
module CpuFreq {
  import opened Words

  const VDDF_MIN: nat := 0x08
  const VDDF_MAX: nat := 0x7F
  const ERASED: u32 := 0xFFFF_FFFF
  const SPINS: nat := 100_000

  // ---------------------------------------------------------------------------
  // Factory trims
  // ---------------------------------------------------------------------------

  /** The INFO1 words the sequence reads, and the chip revision. */
  datatype Info = Info(rev: u8, ps5: u32, ps7: u32, ps13: u32, ltrim: u32, etrim: u32,
                       pgm: u32, trimRev: u32, defaultTon: u32, vddcLvAdj: u32, memLdoCfg: u32)

  // The fields of a POWERSTATE word.
  function Vddf(w: u32): nat { w % 0x80 }
  function CoreLdo(w: u32): nat { w / 0x80 % 0x400 }
  function Tempco(w: u32): nat { w / 0x2_0000 % 0x10 }
  function Vddc(w: u32): nat { w / 0x20_0000 % 0x80 }

  /** hp_tvrgf_clamp. */
  function Clamp(code: int): (r: nat)
    ensures VDDF_MIN <= r <= VDDF_MAX && (VDDF_MIN <= code <= VDDF_MAX ==> r == code)
  {
    if code < VDDF_MIN then VDDF_MIN else if code > VDDF_MAX then VDDF_MAX else code
  }

  predicate Blank(w: u32) { w == 0 || w == ERASED }

  datatype Refusal = OldSilicon | Unprogrammed | OtherRailsDiffer | NoBoostTrims | HpBelowLp

  /** VDDF codes for LP, HP and the state the buck wakes in. */
  datatype Trims = Trims(lp: nat, hp: nat, ps7: nat)

  datatype Plan = Refused(why: Refusal) | Usable(t: Trims)

  /** Does the part carry the TrimSubRev that needs the VDDF boost? */
  predicate Boosted(i: Info) { i.pgm % 0x100 == 0x5F }

  function SiliconOk(i: Info): bool {
    (i.rev == 0x23 && i.trimRev >= 2 && i.trimRev != ERASED) || 0x23 < i.rev < 0xF0
  }

  /** The checks of hp_trims_load, in its order, and its trims; `mv` is the boost
      the floating-point formula gives on a part that needs one. */
  function PlanOf(i: Info, mv: nat): Plan {
    var boost := if Boosted(i) then mv else 0;
    if !SiliconOk(i) then Refused(OldSilicon)
    else if Blank(i.ps5) || Blank(i.ps13) || Blank(i.ps7) || Blank(i.defaultTon) || i.memLdoCfg == ERASED then
      Refused(Unprogrammed)
    else if Vddc(i.ps5) != Vddc(i.ps13) || CoreLdo(i.ps5) != CoreLdo(i.ps13) || Tempco(i.ps5) != Tempco(i.ps13) then
      Refused(OtherRailsDiffer)
    else if Boosted(i) && (Blank(i.ltrim) || Blank(i.etrim)) then Refused(NoBoostTrims)
    else if Clamp(Vddf(i.ps13) + boost) < Clamp(Vddf(i.ps5) + boost) then Refused(HpBelowLp)
    else Usable(Trims(Clamp(Vddf(i.ps5) + boost), Clamp(Vddf(i.ps13) + boost), Clamp(Vddf(i.ps7) + boost)))
  }

  /** Any plan that is not refused has its trims in the register's range and does
      not lower VDDF for HP. */
  lemma PlanIsUsable(i: Info, mv: nat)
    requires PlanOf(i, mv).Usable?
    ensures var p := PlanOf(i, mv).t;
            VDDF_MIN <= p.lp <= p.hp <= VDDF_MAX && VDDF_MIN <= p.ps7 <= VDDF_MAX
  {
  }

  /**
   * When the last check refuses: the raw HP trim is below the LP one, and the
   * clamp does not hide it, which it does when both boosted codes pass the same
   * end of the range.
   */
  lemma HpBelowLpIff(i: Info, mv: nat)
    ensures var boost := if Boosted(i) then mv else 0;
            var l, h := Vddf(i.ps5) + boost, Vddf(i.ps13) + boost;
            Clamp(h) < Clamp(l) <==> Vddf(i.ps13) < Vddf(i.ps5) && l > VDDF_MIN && h < VDDF_MAX
  {
  }

  /** The double boost: the sum does not wrap, its clamped code is never under the
      HP target, and it overshoots unless there is no step or no room. */
  lemma BoostCoversTarget(p: Trims)
    requires VDDF_MIN <= p.lp <= p.hp <= VDDF_MAX
    ensures 0 <= 2 * p.hp - p.lp && p.hp <= Clamp(2 * p.hp - p.lp)
    ensures Clamp(2 * p.hp - p.lp) == p.hp <==> p.hp == p.lp || p.hp == VDDF_MAX
  {
  }

  lemma PartIsUsable(i: Info)
    requires i == Info(0x24, 0x20, 0x40, 0x30, 0, 0, 0, 0, 1, 0, 1)
    ensures PlanOf(i, 0) == Usable(Trims(0x20, 0x30, 0x40))
  {
  }

  // ---------------------------------------------------------------------------
  // What must hold at every step
  // ---------------------------------------------------------------------------

  datatype Perf = LP | HP | Between

  /** One instant: the perf mode, whether the buck is active, the VDDF trim, and
      whether the buck on-times are the HP ones. */
  datatype Snap = Snap(mode: Perf, buck: bool, vddf: nat, tonHigh: bool)

  /** HP only on the active buck, with at least the HP trim and the HP on-times;
      and any VDDF trim but the boot one within the register's window. */
  predicate Safe(s: Snap, hp: nat, bootTrim: nat) {
    && (s.mode == HP ==> s.buck && s.vddf >= hp && s.tonHigh)
    && (s.vddf == bootTrim || VDDF_MIN <= s.vddf <= VDDF_MAX)
  }

  predicate InWindow(codes: seq<nat>) { forall c <- codes :: VDDF_MIN <= c <= VDDF_MAX }

  datatype Outcome = AlreadyHp | NoTrims | NoBuck | NotSwitched | Switched

  class Core {
    const info: Info
    const mv: nat
    const lpBuck: bool              // TIKU_AMBIQ_LP_BUCK
    const infoInOtp: bool
    const tonCHigh: nat             // factory active-high on-times
    const tonFHigh: nat
    const bootTrim: nat             // the VDDF trim at boot
    const deadBuck: bool            // hardware whose buck never becomes active
    // hardware
    var mode: Perf
    var want: Perf                  // the perf mode last requested
    var settling: bool              // a request may still take effect
    var ack: bool
    var buckEn: bool
    var buck: bool                  // SIMOBUCKST reads ACT
    var vddf: nat
    var tonC: nat
    var tonF: nat
    var tonLv: nat
    var vddc: nat
    var vddcLv: nat
    var forced: bool                // FRCHFRC2
    var ready: bool                 // HFRC2READY
    var otpOn: bool
    // statics
    var trimsOk: bool
    var tempSet: bool
    var plan: Trims                 // s_hp's VDDF trims, meaningful once trimsOk
    var coreHz: nat
    ghost var log: seq<Snap>
    ghost var written: seq<nat>     // VDDF trims written, in order
    ghost var asked: nat            // mode switches requested
    ghost var skipped: nat          // and given up for want of the oscillator

    ghost function HpTrim(): nat
    {
      var p := PlanOf(info, mv);
      if p.Usable? then p.t.hp else 0
    }

    ghost function Now(): Snap
      reads this
    {
      Snap(mode, buck, vddf, tonC == tonCHigh && tonF == tonFHigh)
    }

    /** May the core be, or come to be, in HP? */
    ghost predicate Exposed()
      reads this
    {
      mode == HP || (settling && want == HP)
    }

    ghost predicate Valid()
      reads this
    {
      && (trimsOk ==> PlanOf(info, mv) == Usable(plan))
      && (Exposed() ==> trimsOk && buck && vddf >= plan.hp && tonC == tonCHigh && tonF == tonFHigh)
      && (forall s <- log :: Safe(s, HpTrim(), bootTrim))
      && (vddf == bootTrim || VDDF_MIN <= vddf <= VDDF_MAX)
      && InWindow(written)
    }

    /** Between calls: nothing settling, HP at its own trim, the recorded clock
        that of the mode. */
    ghost predicate Idle()
      reads this
    {
      && Valid() && !settling
      && (mode == HP ==> vddf == plan.hp)
      && coreHz == (if mode == HP then 250_000_000 else 96_000_000)
    }

    /** The boot state: LP on the LDOs or the buck, any trims. */
    constructor (i: Info, boost: nat, useBuck: bool, inOtp: bool, onBuck: bool, trim: nat, cHigh: nat, fHigh: nat,
                 dead: bool)
      ensures Idle() && info == i && mv == boost && mode == LP && bootTrim == vddf == trim
      ensures lpBuck == useBuck && infoInOtp == inOtp && buck == onBuck && deadBuck == dead
      ensures !trimsOk && log == []
    {
      info, mv, lpBuck, infoInOtp, tonCHigh, tonFHigh := i, boost, useBuck, inOtp, cHigh, fHigh;
      bootTrim, deadBuck := trim, dead;
      mode, want, settling, ack, buckEn, buck := LP, LP, false, false, onBuck, onBuck;
      vddf, tonC, tonF, tonLv, vddc, vddcLv := trim, 0, 0, 0, 0, 0;
      forced, ready, otpOn, trimsOk, tempSet := false, false, false, false, false;
      plan, coreHz, log, written, asked, skipped := Trims(0, 0, 0), 96_000_000, [], [], 0, 0;
    }

    // -------------------------------------------------------------------------
    // The hardware
    // -------------------------------------------------------------------------

    /** From mode m, buck b and record l, the hardware has only moved as it may:
        the buck stays up, a mode changes only towards the one requested. */
    ghost predicate Since(m: Perf, b: bool, l: seq<Snap>)
      reads this
    {
      && Valid() && l <= log && (b ==> buck) && (deadBuck && !b ==> !buck)
      && (!settling ==> mode == m)
      && (want != HP && m != HP ==> mode != HP)
    }

    /** A requested switch may progress. */
    method PerfMoves()
      requires Valid()
      modifies `mode
      ensures Valid() && (!settling ==> mode == old(mode)) && (want != HP && old(mode) != HP ==> mode != HP)
    {
      var moves: bool, to: Perf :| true;
      if settling && moves && (to == want || to == Between) { mode := to; }
    }

    /** An enabled buck may come up; the other status bits take any value. */
    method StatusMoves()
      requires Valid()
      modifies `ack, `buck, `ready, `otpOn
      ensures Valid() && (old(buck) ==> buck) && (deadBuck && !old(buck) ==> !buck)
    {
      var comesUp: bool, a: bool, r: bool, o: bool :| true;
      if buckEn && comesUp && !deadBuck { buck := true; }
      ack, ready, otpOn := a, r, o;
    }

    /** Any amount of hardware progress, on the record before and after. */
    method Hardware()
      requires Valid()
      modifies `mode, `ack, `buck, `ready, `otpOn, `log
      ensures Since(old(mode), old(buck), old(log))
    {
      Record();
      PerfMoves();
      StatusMoves();
      Record();
    }

    ghost method Record()
      requires Valid()
      modifies `log
      ensures Valid() && log == old(log) + [Now()]
    {
      log := log + [Now()];
    }

    method SetVddf(code: nat)
      requires Valid() && VDDF_MIN <= code <= VDDF_MAX && (Exposed() ==> code >= plan.hp)
      modifies `vddf, `written, `mode, `ack, `buck, `ready, `otpOn, `log
      ensures Since(old(mode), old(buck), old(log)) && vddf == code && written == old(written) + [code]
    {
      vddf, written := code, written + [code];
      Hardware();
    }

    method SetTonC(c: nat)
      requires Valid() && (Exposed() ==> c == tonCHigh)
      modifies `tonC, `mode, `ack, `buck, `ready, `otpOn, `log
      ensures Since(old(mode), old(buck), old(log)) && tonC == c
    {
      tonC := c;
      Hardware();
    }

    method SetTonF(f: nat)
      requires Valid() && (Exposed() ==> f == tonFHigh)
      modifies `tonF, `mode, `ack, `buck, `ready, `otpOn, `log
      ensures Since(old(mode), old(buck), old(log)) && tonF == f
    {
      tonF := f;
      Hardware();
    }

    method Poll()
      requires Valid()
      modifies `mode, `ack, `buck, `ready, `otpOn, `log
      ensures Since(old(mode), old(buck), old(log))
    {
      var spin := SPINS;
      Hardware();
      while spin > 0 && !ack
        invariant Since(old(mode), old(buck), old(log))
        decreases spin
        modifies `mode, `ack, `buck, `ready, `otpOn, `log
      {
        spin := spin - 1;
        Hardware();
      }
    }

    /** Request a perf mode and poll for its acknowledgement; the acknowledgement
        itself is not looked at. */
    method Request(m: Perf)
      requires Valid() && m != Between
      requires m == HP ==> trimsOk && buck && vddf >= plan.hp && tonC == tonCHigh && tonF == tonFHigh
      modifies `want, `settling, `asked, `mode, `ack, `buck, `ready, `otpOn, `log
      ensures Valid() && old(log) <= log && (old(buck) ==> buck) && settling && want == m && asked == old(asked) + 1
      ensures (m != HP && old(mode) != HP ==> mode != HP) && (deadBuck && !old(buck) ==> !buck)
    {
      want, settling, asked := m, true, asked + 1;
      Poll();
    }

    /** The status read after the poll, taken as final. */
    method FinalStatus() returns (m: Perf)
      requires Valid()
      modifies `settling
      ensures Valid() && !settling && m == mode
    {
      settling := false;
      m := mode;
    }

    // -------------------------------------------------------------------------
    // The code
    // -------------------------------------------------------------------------

    /** hp_trims_load.  The plan is computed once; a timeout leaves the OTP powered
        and refuses too. */
    method TrimsLoad() returns (rc: int)
      requires Valid()
      modifies `trimsOk, `plan, `mode, `ack, `buck, `ready, `otpOn, `log
      ensures Since(old(mode), old(buck), old(log))
      ensures rc == 0 <==> trimsOk
      ensures rc == 0 || rc == -1
      ensures old(trimsOk) ==> trimsOk && plan == old(plan)
      ensures rc == 0 ==> PlanOf(info, mv).Usable?
      ensures PlanOf(info, mv).Usable? && !infoInOtp ==> rc == 0
    {
      if trimsOk { return 0; }
      if infoInOtp && !otpOn {
        var spin := SPINS;
        Hardware();
        while !otpOn
          invariant Since(old(mode), old(buck), old(log))
          decreases spin
          modifies `mode, `ack, `buck, `ready, `otpOn, `log
        {
          if spin == 0 { return -1; }
          spin := spin - 1;
          Hardware();
        }
      }
      var p := PlanOf(info, mv);
      if p.Refused? { return -1; }
      plan, trimsOk := p.t, true;
      rc := 0;
    }

    /** The references the buck is to wake at. */
    method Preload()
      requires Valid() && trimsOk && !buck
      modifies `vddf, `written, `vddc, `tonLv, `mode, `ack, `buck, `ready, `otpOn, `log
      ensures Since(old(mode), old(buck), old(log))
      ensures vddf == plan.ps7 && vddc == Vddc(info.ps7) && tonLv == 4 && written == old(written) + [plan.ps7]
    {
      PlanIsUsable(info, mv);
      tonLv := 4;
      SetVddf(plan.ps7);
      vddc := Vddc(info.ps7);
      Hardware();
    }

    /** The references, then the buck's enable. */
    method StartBuck()
      requires Valid() && trimsOk && !buck
      modifies `vddf, `written, `vddc, `tonLv, `buckEn, `mode, `ack, `buck, `ready, `otpOn, `log
      ensures Since(old(mode), old(buck), old(log)) && buckEn
      ensures vddf == plan.ps7 && vddc == Vddc(info.ps7) && tonLv == 4 && written == old(written) + [plan.ps7]
    {
      Preload();
      buckEn := true;
      Hardware();
    }

    method AwaitBuck()
      requires Valid()
      modifies `mode, `ack, `buck, `ready, `otpOn, `log
      ensures Since(old(mode), old(buck), old(log))
    {
      var spin := SPINS;
      while !buck && spin > 0
        invariant Since(old(mode), old(buck), old(log))
        decreases spin
        modifies `mode, `ack, `buck, `ready, `otpOn, `log
      {
        spin := spin - 1;
        Hardware();
      }
    }

    /** hp_simobuck_enable: the state-7 trim is preloaded while the core is not in
        HP, and it stays whether or not the buck comes up. */
    method SimobuckEnable() returns (rc: int)
      requires Valid() && trimsOk
      modifies `vddf, `written, `vddc, `tonLv, `buckEn, `mode, `ack, `buck, `ready, `otpOn, `log
      ensures Since(old(mode), old(buck), old(log))
      ensures rc == (if buck then 0 else -1)
      ensures old(buck) ==> vddf == old(vddf) && written == old(written)
      ensures !old(buck) ==> written == old(written) + [plan.ps7]
      ensures !old(buck) ==> buckEn && vddf == plan.ps7 && vddc == Vddc(info.ps7) && tonLv == 4
    {
      if buck { return 0; }
      StartBuck();
      AwaitBuck();
      rc := if buck then 0 else -1;
    }

    /** The buck on-times of HP. */
    method RaiseOnTimes()
      requires Valid() && trimsOk && buck && !Exposed() && !settling
      modifies `tonC, `tonF, `tonLv, `mode, `ack, `buck, `ready, `otpOn, `log
      ensures Since(old(mode), old(buck), old(log))
      ensures tonC == tonCHigh && tonF == tonFHigh && tonLv == 4
    {
      SetTonC(tonCHigh);
      SetTonF(tonFHigh);
      tonLv := 4;
    }

    /** Raise the buck on-times, then VDDF through its double boost. */
    method RaiseVoltage()
      requires Valid() && trimsOk && buck && !Exposed() && !settling
      modifies `vddf, `written, `tonC, `tonF, `tonLv, `mode, `ack, `buck, `ready, `otpOn, `log
      ensures Since(old(mode), old(buck), old(log))
      ensures vddf == plan.hp && tonC == tonCHigh && tonF == tonFHigh && tonLv == 4
      ensures written == old(written) + [Clamp(2 * plan.hp - plan.lp), plan.hp]
    {
      PlanIsUsable(info, mv);
      BoostCoversTarget(plan);
      RaiseOnTimes();
      SetVddf(Clamp(2 * plan.hp - plan.lp));
      SetVddf(plan.hp);
    }

    /** SEQ_6: back to the LP trim and the default on-times. */
    method LowerVoltage()
      requires Valid() && trimsOk && mode != HP && !settling
      modifies `vddf, `written, `tonC, `tonF, `tonLv, `mode, `ack, `buck, `ready, `otpOn, `log
      ensures Since(old(mode), old(buck), old(log))
      ensures vddf == plan.lp && tonC == info.defaultTon % 0x20 && tonF == info.defaultTon / 0x400 % 0x20
      ensures tonLv == 4 && written == old(written) + [plan.lp]
    {
      PlanIsUsable(info, mv);
      SetVddf(plan.lp);
      SetTonC(info.defaultTon % 0x20);
      SetTonF(info.defaultTon / 0x400 % 0x20);
      tonLv := 4;
    }

    /** Force HFRC2 on unless something else holds it, and wait for it. */
    method ForceHfrc2() returns (forcedHere: bool)
      requires Valid()
      modifies `forced, `mode, `ack, `buck, `ready, `otpOn, `log
      ensures Since(old(mode), old(buck), old(log)) && forced && forcedHere == !old(forced)
    {
      forcedHere := !forced;
      if forced { return; }
      forced := true;
      var spin := SPINS;
      Hardware();
      while !ready && spin > 0
        invariant Since(old(mode), old(buck), old(log))
        decreases spin
        modifies `mode, `ack, `buck, `ready, `otpOn, `log
      {
        spin := spin - 1;
        Hardware();
      }
    }

    /** The switch itself, if the oscillator is ready, and what came of it. */
    method Switch() returns (status: Perf)
      requires Valid() && trimsOk && buck && vddf == plan.hp && tonC == tonCHigh && tonF == tonFHigh
      modifies `want, `settling, `asked, `skipped, `mode, `ack, `buck, `ready, `otpOn, `log
      ensures Valid() && old(log) <= log && buck && !settling && status == mode
      ensures asked + skipped == old(asked + skipped) + 1 && (old(ready) <==> asked > old(asked))
    {
      if ready { Request(HP); } else { skipped := skipped + 1; }
      status := FinalStatus();
    }

    /** Voltage, oscillator, switch. */
    method Climb() returns (status: Perf, forcedHere: bool)
      requires Valid() && trimsOk && buck && mode != HP && !settling
      modifies `vddf, `written, `tonC, `tonF, `tonLv, `forced, `want, `settling, `asked, `skipped,
               `mode, `ack, `buck, `ready, `otpOn, `log
      ensures Valid() && old(log) <= log && buck && !settling && status == mode
      ensures forced && forcedHere == !old(forced) && asked + skipped == old(asked + skipped) + 1
      ensures vddf == plan.hp && tonC == tonCHigh && tonF == tonFHigh
      ensures written == old(written) + [Clamp(2 * plan.hp - plan.lp), plan.hp]
    {
      RaiseVoltage();
      forcedHere := ForceHfrc2();
      status := Switch();
    }

    /** hp_enter. */
    method HpEnter() returns (rc: int)
      requires Valid() && trimsOk && buck && mode != HP && !settling
      modifies `vddf, `written, `tonC, `tonF, `tonLv, `forced, `want, `settling, `asked, `skipped, `coreHz,
               `mode, `ack, `buck, `ready, `otpOn, `log
      ensures Idle() && old(log) <= log && forced == old(forced)
      ensures (rc == 0 <==> mode == HP) && (rc == 0 || rc == -1)
      ensures asked + skipped == old(asked + skipped) + 1
      ensures written == old(written) + [Clamp(2 * plan.hp - plan.lp), plan.hp] + (if rc == 0 then [] else [plan.lp])
      ensures rc == 0 ==> vddf == plan.hp && tonC == tonCHigh && tonF == tonFHigh && buck
      ensures rc == -1 ==> vddf == plan.lp && tonC == info.defaultTon % 0x20 && tonF == info.defaultTon / 0x400 % 0x20
    {
      var status, forcedHere := Climb();
      rc := 0;
      if status != HP {
        LowerVoltage();
        rc := -1;
      }
      if forcedHere { forced := false; }
      coreHz := CoreHz();
    }

    function CoreHz(): nat
      reads this
    {
      if mode == HP then 250_000_000 else 96_000_000
    }

    /** hp_exit: VDDF comes down only once the core is seen back in LP. */
    method HpExit()
      requires Idle() && mode == HP
      modifies this
      ensures Idle() && old(log) <= log && trimsOk && plan == old(plan) && asked == old(asked) + 1
      ensures mode == LP ==> vddf == plan.lp && tonC == info.defaultTon % 0x20 && tonF == info.defaultTon / 0x400 % 0x20
      ensures written == old(written) + (if mode == LP then [plan.lp] else [])
      ensures mode != LP ==> vddf == old(vddf) && tonC == tonCHigh && tonF == tonFHigh
    {
      Request(LP);
      var status := FinalStatus();
      if status == LP { LowerVoltage(); }
      coreHz := CoreHz();
    }

    /** hp_temp_set_room, once. */
    method TempSetRoom()
      requires Valid()
      modifies `tempSet, `vddcLv
      ensures Valid() && tempSet
      ensures vddcLv == if old(tempSet) then old(vddcLv) else info.vddcLvAdj / 0x80 % 0x80
    {
      if tempSet { return; }
      vddcLv := info.vddcLvAdj / 0x80 % 0x80;
      tempSet := true;
    }

    /** Will the trims be there for a request, whatever the OTP does? */
    ghost predicate LoadsTrims()
      reads this
    {
      trimsOk || (PlanOf(info, mv).Usable? && !infoInOtp)
    }

    /** The buck's preload, and nothing else, was written since. */
    ghost predicate Tried(was: seq<nat>)
      reads this
    {
      written == was + [plan.ps7]
    }

    /**
     * Does a request that comes to nothing leave VDDF at an LP trim?  It does when
     * the buck is active already, when the plan is refused, and when the trim the
     * buck wakes at is the LP trim or the one in place.
     */
    ghost predicate RefusalKeepsLp()
      reads this
    {
      var p := PlanOf(info, mv);
      buck || p.Refused? || p.t.ps7 == p.t.lp || p.t.ps7 == vddf
    }

    /** VDDF at the LP trim, or where it was. */
    ghost predicate AtLp(was: nat)
      reads this
    {
      vddf == was || (trimsOk && vddf == plan.lp)
    }

    /** tiku_cpu_freq_ambiq_simobuck_enable. */
    method BuckEnable() returns (rc: int)
      requires Valid()
      modifies `trimsOk, `plan, `vddf, `written, `vddc, `tonLv, `buckEn, `mode, `ack, `buck, `ready, `otpOn, `log
      ensures Since(old(mode), old(buck), old(log))
      ensures (rc == 0 ==> buck) && (rc != 0 ==> rc == -1 && (!buck || !trimsOk))
      ensures old(buck) ==> vddf == old(vddf)
      ensures !old(buck) && old(trimsOk) ==> vddf == plan.ps7
      ensures trimsOk ==> buck || buckEn
      ensures if Tried(old(written)) then !old(buck) && trimsOk && vddf == plan.ps7 else vddf == old(vddf) && written == old(written)
      ensures !buck && trimsOk ==> Tried(old(written))
      ensures old(LoadsTrims()) && !buck ==> trimsOk
      ensures old(trimsOk) ==> trimsOk && plan == old(plan)
    {
      if buck { return 0; }
      if !trimsOk {
        var ok := TrimsLoad();
        if ok != 0 { return -1; }
      }
      rc := SimobuckEnable();
    }

    /**
     * A request above 96 MHz.  A request that is refused "leaves the core in LP at LP
     * voltages": out of HP always; but VDDF, at an LP trim exactly when the refusal
     * is not the buck's or the trim the buck was to wake at is one.  Before the call
     * that is RefusalKeepsLp; without it, a buck that stays down ends the request
     * off the LP trim.
     */
    method RequestHp() returns (o: Outcome)
      requires Idle()
      modifies this
      ensures Idle() && old(log) <= log
      ensures o == AlreadyHp <==> old(mode) == HP
      ensures o == AlreadyHp ==> mode == HP && vddf == old(vddf)
      ensures o == NoTrims ==> !trimsOk && mode == old(mode) && vddf == old(vddf)
      ensures o == NoBuck ==> trimsOk && !buck && mode == old(mode) && vddf == plan.ps7
      ensures o == NotSwitched ==> mode != HP && vddf == plan.lp
      ensures o == NotSwitched || o == Switched ==> asked + skipped == old(asked + skipped) + 1
      ensures o == Switched ==> mode == HP && vddf == plan.hp && coreHz == 250_000_000
      ensures old(buck) ==> o != NoBuck
      ensures o == NoBuck ==> (vddf == plan.lp <==> plan.ps7 == plan.lp)
      ensures o != AlreadyHp && o != Switched ==>
                (AtLp(old(vddf)) <==> o != NoBuck || plan.ps7 == plan.lp || plan.ps7 == old(vddf))
      ensures mode != HP && old(RefusalKeepsLp()) ==> AtLp(old(vddf))
      ensures deadBuck && old(!buck && mode != HP && LoadsTrims()) ==> o == NoBuck
      ensures deadBuck && old(mode != HP && LoadsTrims() && !RefusalKeepsLp()) ==> mode != HP && !AtLp(old(vddf))
    {
      if mode == HP {
        coreHz := CoreHz();
        return AlreadyHp;
      }
      var rc := TrimsLoad();
      if rc != 0 { return NoTrims; }
      rc := SimobuckEnable();
      if rc != 0 { return NoBuck; }
      o := TrySwitch();
    }

    /** The end of that request, on the active buck. */
    method TrySwitch() returns (o: Outcome)
      requires Valid() && trimsOk && buck && mode != HP && !settling
      modifies this
      ensures Idle() && old(log) <= log && asked + skipped == old(asked + skipped) + 1 && tempSet && trimsOk
      ensures o == (if mode == HP then Switched else NotSwitched) && vddf == (if mode == HP then plan.hp else plan.lp)
    {
      TempSetRoom();
      var rc := HpEnter();
      o := if rc == 0 then Switched else NotSwitched;
    }

    /**
     * A request of at most 96 MHz.  Out of HP, VDDF changes only where the build
     * wants the buck, the buck is not active and the trims load: then to the trim the
     * buck is to wake at, whether it does or not.
     */
    method RequestLp()
      requires Idle()
      modifies this
      ensures Idle() && old(log) <= log
      ensures old(mode) != LP ==> asked == old(asked) + 1
      ensures old(mode) == HP ==> vddf == if mode == LP then plan.lp else old(vddf)
      ensures old(mode) != HP ==>
                && mode != HP && (lpBuck && trimsOk ==> buck || buckEn)
                && if Tried(old(written)) then lpBuck && !old(buck) && trimsOk && vddf == plan.ps7
                   else vddf == old(vddf) && written == old(written)
      ensures old(mode) != HP && lpBuck && trimsOk && !buck ==> Tried(old(written))
      ensures old(mode) != HP && (!lpBuck || old(RefusalKeepsLp())) ==> AtLp(old(vddf))
      ensures deadBuck && lpBuck && old(!buck && mode != HP && LoadsTrims()) ==> trimsOk && vddf == plan.ps7
      ensures deadBuck && lpBuck && old(mode != HP && LoadsTrims() && !RefusalKeepsLp()) ==> !AtLp(old(vddf))
    {
      if mode == HP {
        if trimsOk { HpExit(); }
        return;
      }
      StayLow();
    }

    method StayLow()
      requires Idle() && mode != HP
      modifies this
      ensures Idle() && old(log) <= log && mode != HP
      ensures old(mode) != LP ==> asked == old(asked) + 1
      ensures lpBuck && trimsOk ==> buck || buckEn
      ensures if Tried(old(written)) then lpBuck && !old(buck) && trimsOk && vddf == plan.ps7
              else vddf == old(vddf) && written == old(written)
      ensures lpBuck && trimsOk && !buck ==> Tried(old(written))
      ensures !lpBuck || old(RefusalKeepsLp()) ==> AtLp(old(vddf))
      ensures deadBuck && lpBuck && old(!buck && LoadsTrims()) ==> trimsOk && vddf == plan.ps7 && !buck
    {
      if mode != LP { Request(LP); }
      if lpBuck { var rc := BuckEnable(); }
      var status := FinalStatus();
      coreHz := CoreHz();
    }

    /** tiku_cpu_freq_ambiq_init. */
    method FreqInit(mhz: nat)
      requires Idle()
      modifies this
      ensures Idle() && old(log) <= log && (mhz <= 96 && old(mode) != HP ==> mode != HP)
      ensures mhz > 96 && old(mode) == HP ==> mode == HP
      ensures mode != HP && old(mode) != HP && ((mhz <= 96 && !lpBuck) || old(RefusalKeepsLp())) ==> AtLp(old(vddf))
      ensures deadBuck && old(!buck && mode != HP && LoadsTrims()) && (mhz > 96 || lpBuck) ==>
                mode != HP && trimsOk && vddf == plan.ps7
      ensures mhz > 96 && trimsOk && buck ==> mode == HP || asked + skipped == old(asked + skipped) + 1
    {
      if mhz > 96 { var o := RequestHp(); } else { RequestLp(); }
    }

    /** A part whose plan is usable and whose state-7 trim, 0x40, is not its LP trim,
        0x20: with a buck that stays down, requests of either kind leave VDDF there. */
    static method RefusedOffLp(high: bool) returns (c: Core)
      ensures c.mode != HP && c.trimsOk && c.plan == Trims(0x20, 0x30, 0x40) && c.bootTrim == 0x20 && c.vddf == 0x40
    {
      var part := Info(0x24, 0x20, 0x40, 0x30, 0, 0, 0, 0, 1, 0, 1);
      PartIsUsable(part);
      c := new Core(part, 0, true, false, false, 0x20, 0, 0, true);
      c.FreqInit(if high then 250 else 96);
    }

    /** Any sequence of frequency requests (some MHz) and buck enables (0), from
        any state between calls: every instant of it is safe. */
    method Drive(calls: seq<nat>)
      requires Idle()
      modifies this
      ensures Idle() && old(log) <= log && InWindow(written)
      ensures forall s <- log :: Safe(s, HpTrim(), bootTrim)
    {
      var i := 0;
      while i < |calls|
        invariant i <= |calls| && Idle() && old(log) <= log
      {
        if calls[i] == 0 { var rc := BuckEnable(); } else { FreqInit(calls[i]); }
        i := i + 1;
      }
    }
  }
}
