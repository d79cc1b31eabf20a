/**
 * The eMMC driver against the card's state machine (arch/ambiq/tiku_emmc_arch.c;
 * section 6.11 of JESD84-B51).
 *
 * Every command the driver sends and every step the card takes on its own is
 * recorded; the record is always one the card's transition table allows.
 */
module EmmcCard {
  import opened Words

  // ---------------------------------------------------------------------------
  // The card
  // ---------------------------------------------------------------------------

  datatype Card = Off | Idle | Ready | Ident | Stby | Tran | Data | Rcv | Prg | Slp

  /** The commands by their function: CMD0, CMD1 with the card's answer, CMD2,
      CMD3, CMD9, CMD7 with the card's address and with 0, CMD16, CMD8, CMD6,
      CMD13, CMD5 in its two directions, CMD17/18, CMD24/25. */
  datatype Cmd =
    | GoIdle | SendOpCond(done: bool) | AllSendCid | SetRca | SendCsd | Select | Deselect
    | SetBlockLen | SendExtCsd | Switch | SendStatus | Sleep | Awake | Read | Write

  /** The device state transition table: where a command takes the card, or None
      where it is illegal. */
  function After(s: Card, c: Cmd): Option<Card> {
    match c
    case GoIdle => if s == Off then None else Some(Idle)
    case SendOpCond(done) => if s == Idle then Some(if done then Ready else Idle) else None
    case AllSendCid => if s == Ready then Some(Ident) else None
    case SetRca => if s == Ident then Some(Stby) else None
    case SendCsd => if s == Stby then Some(Stby) else None
    case Select => if s == Stby then Some(Tran) else None
    case Deselect => if s == Tran || s == Data then Some(Stby) else None
    case SetBlockLen => if s == Tran then Some(Tran) else None
    case SendExtCsd => if s == Tran then Some(Data) else None
    case Switch => if s == Tran then Some(Prg) else None
    case SendStatus => if s == Stby || s == Tran || s == Data || s == Rcv || s == Prg then Some(s) else None
    case Sleep => if s == Stby then Some(Slp) else None
    case Awake => if s == Slp then Some(Stby) else None
    case Read => if s == Tran then Some(Data) else None
    case Write => if s == Tran then Some(Rcv) else None
  }

  /** What happens on the bus: a command, the reset line, the end of a data phase,
      the end of programming, loss of power. */
  datatype Move = Sent(c: Cmd) | ResetLine | DataDone | ProgramDone | PowerOff

  function Next(s: Card, m: Move): Option<Card> {
    match m
    case Sent(c) => After(s, c)
    case ResetLine => Some(Idle)
    case DataDone => if s == Data then Some(Tran) else if s == Rcv then Some(Prg) else None
    case ProgramDone => if s == Prg then Some(Tran) else None
    case PowerOff => Some(Off)
  }

  /** The card after a record of moves, None if one of them was illegal. */
  function Replay(s: Card, ms: seq<Move>): Option<Card> {
    if ms == [] then Some(s)
    else
      var n := Replay(s, ms[..|ms| - 1]);
      if n.Some? then Next(n.value, ms[|ms| - 1]) else None
  }

  lemma ReplayMore(s: Card, ms: seq<Move>, m: Move)
    ensures Replay(s, ms + [m]) == if Replay(s, ms).Some? then Next(Replay(s, ms).value, m) else None
  {
    assert (ms + [m])[..|ms|] == ms && (ms + [m])[|ms|] == m;
  }

  lemma {:induction false} ReplayPrefix(s: Card, ms: seq<Move>, k: nat)
    requires Replay(s, ms).Some? && k <= |ms|
    ensures Replay(s, ms[..k]).Some?
  {
    if k < |ms| {
      assert ms[..|ms| - 1][..k] == ms[..k];
      ReplayPrefix(s, ms[..|ms| - 1], k);
    } else {
      assert ms[..k] == ms;
    }
  }

  /** The state a command went out in. */
  function StateAt(s: Card, ms: seq<Move>, k: nat): Card
    requires Replay(s, ms).Some? && k <= |ms|
  {
    ReplayPrefix(s, ms, k);
    Replay(s, ms[..k]).value
  }

  /** What an allowed record means for its commands. */
  lemma LegalRecord(s: Card, ms: seq<Move>, k: nat)
    requires Replay(s, ms).Some? && k < |ms| && ms[k].Sent?
    ensures var at := StateAt(s, ms, k);
            && (ms[k].c.Read? || ms[k].c.Write? || ms[k].c.SendExtCsd? || ms[k].c.Switch? ==> at == Tran)
            && (ms[k].c.Sleep? ==> at == Stby)
            && (ms[k].c.Awake? ==> at == Slp)
            && (at == Slp ==> ms[k].c.Awake? || ms[k].c.GoIdle?)
  {
    ReplayPrefix(s, ms, k);
    ReplayPrefix(s, ms, k + 1);
    assert ms[..k + 1][..k] == ms[..k] && ms[..k + 1][k] == ms[k];
  }

  // ---------------------------------------------------------------------------
  // The driver
  // ---------------------------------------------------------------------------

  datatype Error = Ok | ErrPower | ErrTimeout | ErrClock | ErrState | ErrArg | ErrCmd

  /**
   * How far the host comes: Working up to its 400 kHz clock; without Power it fails
   * before its software reset; Stuck it fails behind that, when the reset has already
   * cleared the bus power bit.
   */
  datatype Host = Working | NoPower | Stuck

  datatype Call =
    | Init(width: nat, hz: nat, host: Host)
    | SleepCall
    | WakeCall
    | ReadCall(lba: u32, n: u32)
    | WriteCall(lba: u32, n: u32, force: bool)
    | Deinit

  /** What the driver's statics are to say about the card between calls. */
  predicate Agrees(up: bool, asleep: bool, card: Card) {
    up ==> (card == Tran || card == Slp) && (asleep <==> card == Slp)
  }

  /** Data commands for n blocks. */
  function Chunks(n: nat, max: nat): nat
    requires max > 0
  {
    if n == 0 then 0 else if n <= max then 1 else 1 + Chunks(n - max, max)
  }

  /** The range check, its sum wrapping. */
  predicate InRange(count: u32, lba: u32, n: u32) { count == 0 || Low32(lba + n) <= count }

  /** It tells the ranges on the card from the others, on a card of known size,
      exactly when the sum does not wrap, or wraps to a number beyond the card. */
  lemma RangeCheckExactIff(count: u32, lba: u32, n: u32)
    requires count != 0
    ensures (InRange(count, lba, n) <==> lba + n <= count) <==> lba + n < TWO32 || lba + n - TWO32 > count
  {
  }

  predicate EndsWith(ms: seq<Move>, last: seq<Move>) {
    |last| <= |ms| && ms[|ms| - |last|..] == last
  }

  lemma EndsWithMore(ms: seq<Move>, last: seq<Move>, more: seq<Move>)
    requires EndsWith(ms, last)
    ensures EndsWith(ms + more, last + more)
  {
    assert (ms + more)[|ms| - |last|..] == ms[|ms| - |last|..] + more;
  }

  const SCRATCH_BLOCKS: nat := 1024

  class Emmc {
    var card: Card
    var s_up: bool
    var s_asleep: bool
    var s_sec_count: u32
    ghost var record: seq<Move>
    ghost var switches: nat         // CMD6, CMD8 and data commands sent
    ghost var extCsds: nat
    ghost var transfers: nat
    ghost var faults: nat           // refused switches, unsettled clocks, CMD1 never answered

    ghost predicate Valid()
      reads this
    {
      Replay(Off, record) == Some(card)
    }

    constructor ()
      ensures Valid() && !s_up && !s_asleep && record == []
    {
      card, s_up, s_asleep, s_sec_count, record := Off, false, false, 0, [];
      switches, extCsds, transfers, faults := 0, 0, 0, 0;
    }

    // -------------------------------------------------------------------------
    // Commands and waits
    // -------------------------------------------------------------------------

    method Happens(m: Move)
      requires Valid() && Next(card, m).Some?
      modifies `card, `record, `switches, `extCsds, `transfers
      ensures Valid() && card == Next(old(card), m).value && record == old(record) + [m]
      ensures switches == old(switches) + (if m == Sent(Switch) then 1 else 0)
      ensures extCsds == old(extCsds) + (if m == Sent(SendExtCsd) then 1 else 0)
      ensures transfers == old(transfers) + (if m == Sent(Read) || m == Sent(Write) then 1 else 0)
    {
      ReplayMore(Off, record, m);
      card := Next(card, m).value;
      record := record + [m];
      Tally(m);
    }

    ghost method Tally(m: Move)
      modifies `switches, `extCsds, `transfers
      ensures switches == old(switches) + (if m == Sent(Switch) then 1 else 0)
      ensures extCsds == old(extCsds) + (if m == Sent(SendExtCsd) then 1 else 0)
      ensures transfers == old(transfers) + (if m == Sent(Read) || m == Sent(Write) then 1 else 0)
    {
      if m == Sent(Switch) { switches := switches + 1; }
      if m == Sent(SendExtCsd) { extCsds := extCsds + 1; }
      if m == Sent(Read) || m == Sent(Write) { transfers := transfers + 1; }
    }

    /** How many of them were sent. */
    ghost predicate Counted(sw: nat, ext: nat, tr: nat)
      reads this
    {
      switches == sw && extCsds == ext && transfers == tr
    }

    /** Programming may end at any time. */
    method CardWorks()
      requires Valid()
      modifies `card, `record, `switches, `extCsds, `transfers
      ensures Valid() && (card == old(card) || (old(card) == Prg && card == Tran))
      ensures old(record) <= record && (old(card) != Prg ==> record == old(record))
      ensures Counted(old(switches), old(extCsds), old(transfers))
    {
      var done: bool :| true;
      if done && card == Prg { Happens(ProgramDone); }
    }

    /** A command without data: it waits for the command line only. */
    method Command(c: Cmd)
      requires Valid() && After(card, c).Some?
      requires card == Prg ==> After(Tran, c) == Some(Tran)
      modifies `card, `record, `switches, `extCsds, `transfers
      ensures Valid() && old(record) <= record && EndsWith(record, [Sent(c)])
      ensures old(card) != Prg ==> card == After(old(card), c).value && record == old(record) + [Sent(c)]
      ensures old(card) == Prg ==> card == Prg || card == Tran
      ensures Counted(old(switches) + (if c == Switch then 1 else 0), old(extCsds) + (if c == SendExtCsd then 1 else 0),
                      old(transfers) + (if c == Read || c == Write then 1 else 0))
    {
      CardWorks();
      Happens(Sent(c));
    }

    /** A data command also waits for the data lines: no data phase and no
        programming is under way when it goes out. */
    method DataCommand(c: Cmd)
      requires Valid() && (card == Tran || card == Prg) && After(Tran, c).Some?
      modifies `card, `record, `switches, `extCsds, `transfers
      ensures Valid() && card == After(Tran, c).value
      ensures old(record) <= record && EndsWith(record, [Sent(c)])
      ensures Counted(old(switches) + (if c == Switch then 1 else 0), old(extCsds) + (if c == SendExtCsd then 1 else 0),
                      old(transfers) + (if c == Read || c == Write then 1 else 0))
    {
      if card == Prg { Happens(ProgramDone); }
      Happens(Sent(c));
    }

    /** emmc_wait_xfer: the data phase ends; after a write the card programs. */
    method WaitXfer()
      requires Valid() && (card == Data || card == Rcv)
      modifies `card, `record, `switches, `extCsds, `transfers
      ensures Valid() && (old(card) == Data ==> card == Tran) && (old(card) == Rcv ==> card == Prg)
      ensures record == old(record) + [DataDone] && Counted(old(switches), old(extCsds), old(transfers))
    {
      Happens(DataDone);
    }

    /** emmc_wait_ready: CMD13 until the card is back in TRAN.  A switch the card
        refused shows in the status then. */
    method WaitReady(refused: bool) returns (rc: Error)
      requires Valid() && (card == Tran || card == Prg)
      modifies `card, `record, `switches, `extCsds, `transfers
      ensures Valid() && card == Tran && rc == (if refused then ErrCmd else Ok)
      ensures old(record) <= record && EndsWith(record, [Sent(SendStatus)])
      ensures Counted(old(switches), old(extCsds), old(transfers))
    {
      var polls: nat :| true;
      while polls > 0
        invariant Valid() && (card == Tran || card == Prg) && old(record) <= record
        invariant Counted(old(switches), old(extCsds), old(transfers))
        decreases polls
      {
        Command(SendStatus);
        polls := polls - 1;
      }
      if card == Prg { Happens(ProgramDone); }
      Command(SendStatus);
      rc := if refused then ErrCmd else Ok;
    }

    // -------------------------------------------------------------------------
    // Initialisation
    // -------------------------------------------------------------------------

    method ReadExtCsd()
      requires Valid() && (card == Tran || card == Prg)
      modifies `card, `record, `switches, `extCsds, `transfers
      ensures Valid() && card == Tran
      ensures old(record) <= record && EndsWith(record, [Sent(SendExtCsd), DataDone])
      ensures Counted(old(switches), old(extCsds) + 1, old(transfers))
    {
      DataCommand(SendExtCsd);
      WaitXfer();
    }

    /** emmc_switch, which the card may refuse. */
    method SwitchByte() returns (rc: Error)
      requires Valid() && card == Tran
      modifies `card, `record, `switches, `extCsds, `transfers, `faults
      ensures Valid() && card == Tran && (rc == Ok || rc == ErrCmd)
      ensures faults == old(faults) + (if rc == Ok then 0 else 1)
      ensures Counted(old(switches) + 1, old(extCsds), old(transfers))
    {
      var refused: bool :| true;
      Command(Switch);
      rc := WaitReady(refused);
      if refused { faults := faults + 1; }
    }

    method SetBusWidth(width: nat) returns (rc: Error)
      requires Valid() && card == Tran
      modifies `card, `record, `switches, `extCsds, `transfers, `faults
      ensures Valid() && card == Tran
      ensures if width == 1 || width == 4 || width == 8
              then faults == old(faults) + (if rc == Ok then 0 else 1) && switches == old(switches) + 1
              else rc == ErrArg && record == old(record) && switches == old(switches)
      ensures extCsds == old(extCsds)
    {
      if width != 1 && width != 4 && width != 8 { return ErrArg; }
      rc := SwitchByte();
    }

    /** emmc_set_high_speed: a card without a high-speed mode only gets the clock,
        which may fail to settle. */
    method SetHighSpeed() returns (rc: Error)
      requires Valid() && card == Tran
      modifies `card, `record, `switches, `extCsds, `transfers, `faults
      ensures Valid() && card == Tran && faults == old(faults) + (if rc == Ok then 0 else 1)
      ensures switches >= old(switches) && extCsds == old(extCsds)
    {
      var capable: bool, clockOk: bool :| true;
      if capable {
        rc := SwitchByte();
        if rc != Ok { return; }
      }
      rc := if clockOk then Ok else ErrClock;
      if !clockOk { faults := faults + 1; }
    }

    /** emmc_fallback_slow: its two switches go out whatever they return. */
    method FallbackSlow()
      requires Valid() && card == Tran
      modifies `card, `record, `switches, `extCsds, `transfers, `faults
      ensures Valid() && card == Tran && faults >= old(faults)
      ensures Counted(old(switches) + 2, old(extCsds), old(transfers))
    {
      var rc := SwitchByte();
      rc := SwitchByte();
    }

    /** CMD1 until the card is out of its own initialisation, a thousand times at
        most. */
    method PollOpCond() returns (ok: bool)
      requires Valid() && card == Idle
      modifies `card, `record, `switches, `extCsds, `transfers, `faults
      ensures Valid() && (ok ==> card == Ready) && faults == old(faults) + (if ok then 0 else 1)
      ensures old(record) <= record && (ok || |record| == |old(record)| + 1000)
    {
      var tries := 1000;
      while true
        invariant Valid() && card == Idle && tries > 0 && faults == old(faults)
        invariant old(record) <= record && |record| + tries == |old(record)| + 1000
        decreases tries
      {
        var done: bool :| true;
        Command(SendOpCond(done));
        if done { return true; }
        tries := tries - 1;
        if tries == 0 {
          faults := faults + 1;
          return false;
        }
      }
    }

    /** The reset line, then CMD0. */
    method ResetCard()
      requires Valid()
      modifies `card, `record, `switches, `extCsds, `transfers
      ensures Valid() && card == Idle && record == old(record) + [ResetLine, Sent(GoIdle)]
    {
      Happens(ResetLine);
      Command(GoIdle);
    }

    /** From the reset line to the transfer state. */
    method Ladder() returns (ok: bool)
      requires Valid()
      modifies `card, `record, `switches, `extCsds, `transfers, `faults
      ensures Valid() && old(record) + [ResetLine, Sent(GoIdle)] <= record
      ensures (ok ==> card == Tran) && faults == old(faults) + (if ok then 0 else 1)
    {
      ResetCard();
      ok := PollOpCond();
      if ok { Admit(); }
    }

    /** Identification and the capacity. */
    method Admit()
      requires Valid() && card == Ready
      modifies `card, `record, `switches, `extCsds, `transfers
      ensures Valid() && card == Tran && old(record) <= record && extCsds == old(extCsds) + 1
    {
      Identify();
      ReadExtCsd();
    }

    method Identify()
      requires Valid() && card == Ready
      modifies `card, `record, `switches, `extCsds, `transfers
      ensures Valid() && card == Tran
      ensures record == old(record) +
                        [Sent(AllSendCid), Sent(SetRca), Sent(SendCsd), Sent(Select), Sent(SetBlockLen)]
      ensures extCsds == old(extCsds)
    {
      Command(AllSendCid);
      Command(SetRca);
      Command(SendCsd);
      Command(Select);
      Command(SetBlockLen);
    }

    /** The optional upgrade, with its check and its way back. */
    method Upgrade(width: nat, hz: nat) returns (rc: Error)
      requires Valid() && card == Tran
      modifies `card, `record, `switches, `extCsds, `transfers, `faults
      ensures Valid() && card == Tran
      ensures if rc == Ok then faults == old(faults)
              else faults > old(faults) || (width != 1 && width != 4 && width != 8 && rc == ErrArg)
      ensures if width <= 1 && hz <= 400_000 then rc == Ok && record == old(record)
              else if rc == Ok then switches > old(switches) && extCsds == old(extCsds) + 1
              else switches >= old(switches) + 2 && EndsWith(record, [Sent(SendExtCsd), DataDone])
    {
      rc := Ok;
      if width <= 1 && hz <= 400_000 { return; }
      rc := SetBusWidth(width);
      if rc == Ok { rc := SetHighSpeed(); }
      if rc == Ok {
        ReadExtCsd();
        var took: bool :| true;
        if !took {
          rc := ErrState;
          faults := faults + 1;
        }
      }
      if rc != Ok {
        FallbackSlow();
        ReadExtCsd();
      }
    }

    /**
     * tiku_emmc_init_at.  When the host does not come up the call returns before it
     * touches s_up, but after it has cleared s_asleep; without bus power the card is
     * off, as after a deinit.
     */
    method InitAt(width: nat, hz: nat, host: Host) returns (rc: Error)
      requires Valid()
      modifies `card, `record, `switches, `extCsds, `transfers, `faults, `s_up, `s_sec_count, `s_asleep
      ensures Valid() && !s_asleep
      ensures !host.Working? ==> rc != Ok && s_up == old(s_up) && s_sec_count == old(s_sec_count)
      ensures host.NoPower? ==> card == old(card) && record == old(record)
      ensures host.Stuck? ==> card == Off && record == old(record) + [PowerOff]
      ensures host.Working? ==> s_up ==> card == Tran
      ensures rc == Ok ==> s_up
      ensures host.Working? && rc != Ok ==> faults > old(faults) || (width != 1 && width != 4 && width != 8 && s_up)
    {
      s_asleep := false;
      if host.Working? { rc := BringUp(width, hz); } else { rc := GiveUp(host); }
    }

    /** There is no power; or behind the reset that takes the bus power away, it does
        not end, or there is no base clock or bus clock. */
    method GiveUp(host: Host) returns (rc: Error)
      requires Valid() && !host.Working?
      modifies `card, `record, `switches, `extCsds, `transfers
      ensures Valid() && rc != Ok
      ensures if host.Stuck? then card == Off && record == old(record) + [PowerOff]
              else card == old(card) && record == old(record)
    {
      if host.NoPower? { return ErrPower; }
      Happens(PowerOff);
      rc :| rc == ErrTimeout || rc == ErrClock;
    }

    /** It does: the ladder, then the upgrade. */
    method BringUp(width: nat, hz: nat) returns (rc: Error)
      requires Valid()
      modifies `card, `record, `switches, `extCsds, `transfers, `faults, `s_up, `s_sec_count
      ensures Valid() && (s_up ==> card == Tran) && (rc == Ok ==> s_up)
      ensures rc != Ok ==> faults > old(faults) || (width != 1 && width != 4 && width != 8 && s_up)
    {
      s_up := true;
      var ok := Ladder();
      if ok {
        rc := Finish(width, hz);
      } else {
        s_up := false;
        rc := ErrTimeout;
      }
    }

    /** The card's size, and the upgrade. */
    method Finish(width: nat, hz: nat) returns (rc: Error)
      requires Valid() && card == Tran
      modifies `card, `record, `switches, `extCsds, `transfers, `faults, `s_sec_count
      ensures Valid() && card == Tran
      ensures rc != Ok ==> faults > old(faults) || (width != 1 && width != 4 && width != 8)
    {
      var count: u32 :| true;
      s_sec_count := count;
      rc := Upgrade(width, hz);
    }

    // -------------------------------------------------------------------------
    // Sleep and wake
    // -------------------------------------------------------------------------

    ghost predicate Synced()
      reads this
    {
      Valid() && Agrees(s_up, s_asleep, card)
    }

    method PutToSleep()
      requires Valid() && card == Tran
      modifies `card, `record, `switches, `extCsds, `transfers
      ensures Valid() && card == Slp && record == old(record) + [Sent(Deselect), Sent(Cmd.Sleep)]
    {
      Command(Deselect);
      Command(Cmd.Sleep);
    }

    method PutAwake()
      requires Valid() && card == Slp
      modifies `card, `record, `switches, `extCsds, `transfers
      ensures Valid() && card == Tran && record == old(record) + [Sent(Awake), Sent(Select)]
    {
      Command(Awake);
      Command(Select);
    }

    /** tiku_emmc_sleep: deselect, then CMD5 sleep. */
    method SleepCard() returns (rc: Error)
      requires Synced()
      modifies `card, `record, `switches, `extCsds, `transfers, `s_asleep
      ensures Synced() && rc == (if s_up then Ok else ErrPower)
      ensures s_up ==> card == Slp && s_asleep
      ensures s_up && !old(s_asleep) ==> EndsWith(record, [Sent(SendStatus)] + [Sent(Deselect), Sent(Cmd.Sleep)])
      ensures old(s_asleep) || !s_up ==> record == old(record)
    {
      if !s_up { return ErrPower; }
      if s_asleep { return Ok; }
      rc := WaitReady(false);
      EndsWithMore(record, [Sent(SendStatus)], [Sent(Deselect), Sent(Cmd.Sleep)]);
      PutToSleep();
      s_asleep := true;
    }

    /** tiku_emmc_wake: CMD5 awake, then select. */
    method WakeCard() returns (rc: Error)
      requires Synced()
      modifies `card, `record, `switches, `extCsds, `transfers, `s_asleep
      ensures Synced() && rc == (if s_up then Ok else ErrPower)
      ensures s_up ==> card == Tran && !s_asleep
      ensures s_up && old(s_asleep) ==> old(record) + [Sent(Awake), Sent(Select)] <= record
      ensures !old(s_asleep) || !s_up ==> record == old(record)
    {
      if !s_up { return ErrPower; }
      if !s_asleep { return Ok; }
      PutAwake();
      s_asleep := false;
      rc := WaitReady(false);
    }

    // -------------------------------------------------------------------------
    // Block I/O
    // -------------------------------------------------------------------------

    /** The checks before a transfer, in their order. */
    function Refusal(lba: u32, n: u32): Error
      reads this
    {
      if !s_up then ErrPower
      else if s_asleep then ErrState
      else if n == 0 then ErrArg
      else if InRange(s_sec_count, lba, n) then Ok
      else ErrArg
    }

    function ScratchLba(): u32
      reads this
    {
      if s_sec_count > SCRATCH_BLOCKS then s_sec_count - SCRATCH_BLOCKS else 0
    }

    method MoveChunk(write: bool)
      requires Valid() && (card == Tran || (write && card == Prg))
      modifies `card, `record, `switches, `extCsds, `transfers
      ensures Valid() && card == (if write then Prg else Tran) && transfers == old(transfers) + 1
      ensures EndsWith(record, [Sent(if write then Write else Read), DataDone])
    {
      var c := if write then Write else Read;
      DataCommand(c);
      EndsWithMore(record, [Sent(c)], [DataDone]);
      WaitXfer();
      assert [Sent(c)] + [DataDone] == [Sent(c), DataDone];
    }

    /** emmc_xfer: one data command per chunk.  The second chunk of a write is sent
        while the card may still be programming the first; it waits for the data
        lines. */
    method Xfer(n: u32, write: bool, maxChunk: nat)
      requires Valid() && card == Tran && 0 < maxChunk
      modifies `card, `record, `switches, `extCsds, `transfers
      ensures Valid() && (card == Tran || (write && card == Prg))
      ensures n != 0 ==> EndsWith(record, [Sent(if write then Write else Read), DataDone])
      ensures transfers == old(transfers) + Chunks(n, maxChunk)
    {
      var left: nat := n;
      while left != 0
        invariant Valid() && (card == Tran || (write && card == Prg))
        invariant transfers + Chunks(left, maxChunk) == old(transfers) + Chunks(n, maxChunk)
        invariant left != n ==> EndsWith(record, [Sent(if write then Write else Read), DataDone])
        decreases left
      {
        var chunk := if left > maxChunk then maxChunk else left;
        MoveChunk(write);
        left := left - chunk;
      }
    }

    /** tiku_emmc_read_blocks. */
    method ReadBlocks(lba: u32, n: u32, maxChunk: nat) returns (rc: Error)
      requires Synced() && 0 < maxChunk
      modifies `card, `record, `switches, `extCsds, `transfers
      ensures Synced() && rc == old(Refusal(lba, n))
      ensures rc == Ok ==> transfers == old(transfers) + Chunks(n, maxChunk)
      ensures rc != Ok ==> record == old(record)
    {
      rc := Refusal(lba, n);
      if rc != Ok { return; }
      Xfer(n, false, maxChunk);
    }

    /** tiku_emmc_write_blocks: without `force` only the scratch region at the end
        of the card; it returns once the card is back in TRAN. */
    method WriteBlocks(lba: u32, n: u32, force: bool, maxChunk: nat) returns (rc: Error)
      requires Synced() && 0 < maxChunk
      modifies `card, `record, `switches, `extCsds, `transfers
      ensures Synced()
      ensures rc == Ok ==> transfers == old(transfers) + Chunks(n, maxChunk)
      ensures rc == old(if Refusal(lba, n) == Ok && !force && lba < ScratchLba() then ErrArg else Refusal(lba, n))
      ensures rc != Ok ==> record == old(record)
    {
      rc := Refusal(lba, n);
      if rc != Ok { return; }
      if !force && lba < ScratchLba() { return ErrArg; }
      Xfer(n, true, maxChunk);
      rc := WaitReady(false);
    }

    /** tiku_emmc_deinit: the clock and the power go. */
    method Shutdown()
      requires Valid()
      modifies this
      ensures Synced() && !s_up && !s_asleep && card == Off
    {
      Happens(PowerOff);
      s_up, s_asleep := false, false;
    }

    // -------------------------------------------------------------------------
    // Any sequence of calls
    // -------------------------------------------------------------------------

    /** Does the call initialise a card that is up again, on a host without power while
        it sleeps, or on one that gets stuck? */
    predicate Desyncs(c: Call)
      reads this
    {
      c.Init? && s_up && (c.host.Stuck? || (c.host.NoPower? && s_asleep))
    }

    /** One call. */
    method Make(c: Call, maxChunk: nat)
      requires Synced() && 0 < maxChunk
      modifies this
      ensures Valid() && (Synced() <==> !old(Desyncs(c)))
    {
      var rc;
      match c {
      case Init(width, hz, host) => rc := InitAt(width, hz, host);
      case SleepCall => rc := SleepCard();
      case WakeCall => rc := WakeCard();
      case ReadCall(lba, n) => rc := ReadBlocks(lba, n, maxChunk);
      case WriteCall(lba, n, force) => rc := WriteBlocks(lba, n, force, maxChunk);
      case Deinit => Shutdown();
      }
    }

    /**
     * Over any sequence of calls, whatever the host does, up to the first that
     * desyncs: the record stays legal and the driver's flags say what the card is
     * doing.
     */
    method Drive(calls: seq<Call>, maxChunk: nat) returns (made: nat)
      requires Synced() && 0 < maxChunk
      modifies this
      ensures Synced() && Replay(Off, record) == Some(card)
      ensures made <= |calls| && (made < |calls| ==> Desyncs(calls[made]))
    {
      made := 0;
      while made < |calls| && !Desyncs(calls[made])
        invariant made <= |calls| && Synced()
      {
        Make(calls[made], maxChunk);
        made := made + 1;
      }
    }

    /**
     * After such a call every transfer on the card is let through, and its first
     * command is one the card, asleep or off, cannot take.
     */
    method ReinitOnDeadHost(c: Call)
      requires Synced() && Desyncs(c)
      modifies this
      ensures Valid() && !Synced() && card == (if c.host.Stuck? then Off else Slp) && s_up && !s_asleep
      ensures forall lba: u32, n: u32 :: n > 0 && InRange(s_sec_count, lba, n) ==> Refusal(lba, n) == Ok
      ensures forall cmd: Cmd :: cmd.Read? || cmd.Write? || cmd.SendStatus? ==> Replay(Off, record + [Sent(cmd)]) == None
    {
      var rc := InitAt(c.width, c.hz, c.host);
      forall cmd: Cmd | cmd.Read? || cmd.Write? || cmd.SendStatus? ensures Replay(Off, record + [Sent(cmd)]) == None {
        ReplayMore(Off, record, Sent(cmd));
      }
    }
  }
}
