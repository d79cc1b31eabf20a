/**
 * Nested atomic sections against interrupts (hal/tiku_cpu.c).
 *
 * The machine below runs a thread and the ISRs that interrupt it one memory or
 * register access at a time, in every order the interrupt enable allows.  The
 * class after it is the code itself, with interrupts free to arrive wherever
 * they are enabled.
 */
module Atomic {

  /** How a port reads and clears the enable bit, and enters an ISR: the Cortex-M
      ports take an ISR with interrupts still enabled, so a higher priority one
      may nest; the MSP430 disables them until the ISR returns; the ESP32-C61 does
      that too, and reads and disables in one instruction. */
  datatype Port = CortexM | Msp430 | Esp32

  /** Where a context stands between two accesses.  The first four lead through
      tiku_atomic_enter, the last through tiku_atomic_exit. */
  datatype Pc = Idle | HasRead | Off | Recorded | Loaded(n: nat) | Left(enable: bool)

  /**
   * A context: the thread or an ISR.
   *   bit     the local copy of the enable bit
   *   depth   its open sections
   *   outer   the bit as read by the enter of its outermost open section
   */
  datatype Frame = Frame(pc: Pc, bit: bool, depth: nat, outer: bool)

  /** An outermost exit: the bit its enter read, and the bit it left. */
  datatype Exit = Exit(read: bool, restored: bool)

  /** `below` are the interrupted contexts, the thread first. */
  datatype Machine = Machine(port: Port, ie: bool, nesting: nat, saved: bool,
                             top: Frame, below: seq<Frame>, exits: seq<Exit>)

  datatype Access =
    | Read | Disable | Record | Load | Store      // tiku_atomic_enter
    | ReadDisable                                 // its first two as one instruction
    | Decrement | Enable                          // tiku_atomic_exit
    | SetIrq(on: bool)                            // the thread's own switch, between sections
    | Interrupt | Return

  predicate Legal(m: Machine, a: Access) {
    var f := m.top;
    match a
    case Read => f.pc == Idle && m.port != Esp32
    case ReadDisable => f.pc == Idle && m.port == Esp32
    case Disable => f.pc == HasRead
    case Record => f.pc == Off
    case Load => f.pc == Recorded
    case Store => f.pc.Loaded?
    case Decrement => f.pc == Idle && f.depth > 0
    case Enable => f.pc.Left?
    case SetIrq(_) => f.pc == Idle && f.depth == 0 && m.below == []
    case Interrupt => m.ie
    case Return => m.below != [] && f.pc == Idle && f.depth == 0
  }

  function Started(m: Machine, f: Frame, pc: Pc): Frame {
    f.(pc := pc, bit := m.ie, outer := if f.depth == 0 then m.ie else f.outer)
  }

  function Step(m: Machine, a: Access): Machine
    requires Legal(m, a)
  {
    var f := m.top;
    match a
    case Read => m.(top := Started(m, f, HasRead))
    case ReadDisable => m.(top := Started(m, f, Off), ie := false)
    case Disable => m.(top := f.(pc := Off), ie := false)
    case Record => m.(top := f.(pc := Recorded), saved := if m.nesting == 0 then f.bit else m.saved)
    case Load => m.(top := f.(pc := Loaded(m.nesting)))
    case Store => m.(top := f.(pc := Idle, depth := f.depth + 1), nesting := f.pc.n + 1)
    case Decrement =>
      var n := if m.nesting > 0 then m.nesting - 1 else 0;
      m.(top := f.(pc := Left(n == 0 && m.saved), depth := f.depth - 1), nesting := n)
    case Enable =>
      var on := m.ie || f.pc.enable;
      m.(top := f.(pc := Idle), ie := on,
         exits := if f.depth == 0 then m.exits + [Exit(f.outer, on)] else m.exits)
    case SetIrq(on) => m.(ie := on)
    case Interrupt =>
      m.(ie := m.port == CortexM, below := m.below + [f], top := Frame(Idle, false, 0, false))
    case Return =>
      m.(ie := m.ie || m.port != CortexM, top := m.below[|m.below| - 1], below := m.below[..|m.below| - 1])
  }

  // ---------------------------------------------------------------------------
  // What every access keeps
  // ---------------------------------------------------------------------------

  /** An interrupted context is outside every section, at most between the read
      and the disable, and then it read "enabled". */
  predicate Paused(f: Frame) {
    f.depth == 0 && (f.pc == Idle || (f.pc == HasRead && f.bit && f.outer))
  }

  /** Inside a section, or on the way into or out of one with interrupts off. */
  predicate Masked(f: Frame) { f.depth > 0 || !(f.pc == Idle || f.pc == HasRead) }

  /** The saved bit or the local copy, whichever holds what the outermost enter
      read. */
  predicate Remembers(m: Machine) {
    var f := m.top;
    match f.pc
    case Idle => f.depth > 0 ==> m.saved == f.outer
    case HasRead => f.bit == m.ie && (if f.depth == 0 then f.bit == f.outer else m.saved == f.outer)
    case Off => if f.depth == 0 then f.bit == f.outer else m.saved == f.outer
    case Recorded => m.saved == f.outer
    case Loaded(n) => n == m.nesting && m.saved == f.outer
    case Left(enable) => if f.depth == 0 then enable == f.outer else m.saved == f.outer && !enable
  }

  /** Inside an ISR the bit between sections is the one it was entered with, so
      that ISRs nest on a Cortex-M only. */
  predicate IsrBit(m: Machine) {
    var f := m.top;
    && (|m.below| > 1 ==> m.port == CortexM) &&
    (m.below != [] ==>
      && (!Masked(f) ==> m.ie == (m.port == CortexM))
      && (Masked(f) || f.pc == HasRead ==> f.outer == (m.port == CortexM)))
  }

  predicate Inv(m: Machine) {
    && (forall g <- m.below :: Paused(g))
    && m.nesting == m.top.depth
    && (Masked(m.top) ==> !m.ie)
    && Remembers(m)
    && IsrBit(m)
    && (forall x <- m.exits :: x.read == x.restored)
  }

  predicate Initial(m: Machine) {
    m.nesting == 0 && m.top == Frame(Idle, false, 0, false) && m.below == [] && m.exits == []
  }

  lemma InterruptKeepsInv(m: Machine)
    requires Inv(m) && m.ie
    ensures Paused(m.top) && Inv(Step(m, Interrupt))
  {
    var b := Step(m, Interrupt).below;
    forall g | g in b ensures Paused(g) {
      assert g in m.below || g == m.top;
    }
  }

  lemma ReturnKeepsInv(m: Machine)
    requires Inv(m) && Legal(m, Return)
    ensures Inv(Step(m, Return)) && Step(m, Return).ie
  {
    var g := m.below[|m.below| - 1];
    assert g in m.below;
  }

  lemma StepKeepsInv(m: Machine, a: Access)
    requires Inv(m) && Legal(m, a)
    ensures Inv(Step(m, a))
  {
    match a
    case Interrupt => InterruptKeepsInv(m);
    case Return => ReturnKeepsInv(m);
    case Enable =>
    case Read =>
    case Disable =>
    case Record =>
    case Load =>
    case Store =>
    case ReadDisable =>
    case Decrement =>
    case SetIrq(on) =>
  }

  // ---------------------------------------------------------------------------
  // Whole runs
  // ---------------------------------------------------------------------------

  predicate LegalRun(m: Machine, xs: seq<Access>)
    decreases xs
  {
    xs == [] || (Legal(m, xs[0]) && LegalRun(Step(m, xs[0]), xs[1..]))
  }

  function Run(m: Machine, xs: seq<Access>): Machine
    requires LegalRun(m, xs)
    decreases xs
  {
    if xs == [] then m else Run(Step(m, xs[0]), xs[1..])
  }

  lemma {:induction false} RunKeepsInv(m: Machine, xs: seq<Access>)
    requires Inv(m) && LegalRun(m, xs)
    ensures Inv(Run(m, xs))
    decreases xs
  {
    if xs != [] {
      StepKeepsInv(m, xs[0]);
      RunKeepsInv(Step(m, xs[0]), xs[1..]);
    }
  }

  /**
   * In every interleaving, from either enable state: interrupts are off whenever
   * the count is above zero, and every outermost exit so far, of the thread or
   * of any ISR, left the enable state its own enter read.
   */
  lemma SectionsAreAtomic(m: Machine, xs: seq<Access>)
    requires Initial(m) && LegalRun(m, xs)
    ensures var t := Run(m, xs);
            && (t.nesting > 0 ==> !t.ie)
            && (forall x <- t.exits :: x.restored == x.read)
  {
    RunKeepsInv(m, xs);
  }

  /** A run during which no context below the k-th returns. */
  predicate StaysAbove(m: Machine, xs: seq<Access>, k: nat)
    requires LegalRun(m, xs)
    decreases xs
  {
    k <= |m.below| && (xs != [] ==> StaysAbove(Step(m, xs[0]), xs[1..], k))
  }

  lemma {:induction false} StackIsKept(m: Machine, xs: seq<Access>, k: nat)
    requires LegalRun(m, xs) && StaysAbove(m, xs, k)
    ensures k <= |m.below| && k <= |Run(m, xs).below|
    ensures Run(m, xs).below[..k] == m.below[..k] && Run(m, xs).port == m.port
    decreases xs
  {
    if xs != [] {
      StackIsKept(Step(m, xs[0]), xs[1..], k);
    }
  }

  /**
   * Wherever an ISR comes, between the read and the disable as much as anywhere
   * else, and whatever it and the ISRs nested in it do, its return finds
   * everything the interrupted code relies on as it was: only the saved bit, and
   * the record of exits, may differ.
   */
  lemma IsrIsTransparent(m: Machine, xs: seq<Access>)
    requires Inv(m) && Legal(m, Interrupt)
    requires var n := Step(m, Interrupt);
             LegalRun(n, xs) && StaysAbove(n, xs, |m.below| + 1) && |Run(n, xs).below| == |m.below| + 1
    requires Legal(Run(Step(m, Interrupt), xs), Return)
    ensures var t := Step(Run(Step(m, Interrupt), xs), Return);
            t == m.(saved := t.saved, exits := t.exits)
  {
    var n := Step(m, Interrupt);
    StepKeepsInv(m, Interrupt);
    RunKeepsInv(n, xs);
    StackIsKept(n, xs, |m.below| + 1);
    Returned(m, Run(n, xs));
  }

  /** A return to the interrupted context, its stack kept. */
  lemma Returned(m: Machine, t: Machine)
    requires Inv(m) && m.ie && Inv(t) && Legal(t, Return) && t.port == m.port && |t.below| == |m.below| + 1
    requires t.below[..|m.below| + 1] == Step(m, Interrupt).below[..|m.below| + 1]
    ensures Step(t, Return) == m.(saved := Step(t, Return).saved, exits := Step(t, Return).exits)
  {
    assert t.below == t.below[..|m.below| + 1] == m.below + [m.top];
    ReturnKeepsInv(t);
    assert Step(t, Return).top == m.top && Step(t, Return).below == m.below;
  }

  lemma Then(m: Machine, a: Access, xs: seq<Access>)
    requires Legal(m, a) && LegalRun(Step(m, a), xs)
    ensures LegalRun(m, [a] + xs) && Run(m, [a] + xs) == Run(Step(m, a), xs)
  {
    assert ([a] + xs)[0] == a && ([a] + xs)[1..] == xs;
  }

  /** A section run without interruption, between sections of its context. */
  lemma SectionRuns(m: Machine)
    requires m.port != Esp32 && m.nesting == 0 && m.top.pc == Idle && m.top.depth == 0
    ensures var xs := [Read, Disable, Record, Load, Store, Decrement, Enable];
            && LegalRun(m, xs)
            && Run(m, xs) == m.(saved := m.ie, top := Frame(Idle, m.ie, 0, m.ie),
                                exits := m.exits + [Exit(m.ie, m.ie)])
  {
    var m2 := Step(m, Read);
    var m3 := Step(m2, Disable);
    var m4 := Step(m3, Record);
    var m5 := Step(m4, Load);
    var m6 := Step(m5, Store);
    var m7 := Step(m6, Decrement);
    Then(m7, Enable, []);
    Then(m6, Decrement, [Enable]);
    Then(m5, Store, [Decrement, Enable]);
    Then(m4, Load, [Store, Decrement, Enable]);
    Then(m3, Record, [Load, Store, Decrement, Enable]);
    Then(m2, Disable, [Record, Load, Store, Decrement, Enable]);
    Then(m, Read, [Disable, Record, Load, Store, Decrement, Enable]);
  }

  /**
   * Why the enter keeps the bit in a local copy and saves it only with interrupts
   * off: an ISR with a section of its own overwrites the saved bit, and on a port
   * that masks interrupts in ISRs it does so with "disabled", whatever the
   * interrupted code had read.
   */
  lemma IsrOverwritesSavedBit(m: Machine) returns (xs: seq<Access>)
    requires Inv(m) && Legal(m, Interrupt) && m.port == Msp430
    ensures var n := Step(m, Interrupt);
            && LegalRun(n, xs) && Legal(Run(n, xs), Return)
            && var t := Step(Run(n, xs), Return); t.top == m.top && t.below == m.below && t.ie && !t.saved
  {
    xs := [Read, Disable, Record, Load, Store, Decrement, Enable];
    InterruptKeepsInv(m);
    SectionRuns(Step(m, Interrupt));
  }

  // ---------------------------------------------------------------------------
  // The code
  // ---------------------------------------------------------------------------

  /**
   * The two statics and the enable bit.  `fuel` bounds how deep ISRs nest; it is
   * arbitrary, so every finite behaviour is covered.  Interrupts arrive at every
   * point between two accesses that can find them enabled.
   */
  class Cpu {
    const port: Port
    var ie: bool
    var nesting: nat              // tiku_atomic_nesting
    var saved: bool               // tiku_atomic_gie_saved

    constructor (p: Port, enabled: bool)
      ensures port == p && ie == enabled && nesting == 0
    {
      port, ie, nesting, saved := p, enabled, 0, false;
    }

    ghost predicate Valid()
      reads this
    {
      nesting > 0 ==> !ie
    }

    /** tiku_atomic_enter.  Whatever ran between the read and the disable, the
        saved bit of an outermost enter is the bit at its start. */
    method AtomicEnter(fuel: nat)
      requires Valid()
      modifies this
      ensures Valid() && !ie && nesting == old(nesting) + 1
      ensures saved == if old(nesting) == 0 then old(ie) else old(saved)
      decreases fuel, 0, 1
    {
      var sr := ie;
      if port == Esp32 {
        ie := false;
      } else {
        Interrupts(fuel);
        ie := false;
      }
      Interrupts(fuel);
      if nesting == 0 { saved := sr; }
      Interrupts(fuel);
      nesting := nesting + 1;
    }

    /** tiku_atomic_exit: the outermost one restores what its enter saved. */
    method AtomicExit(fuel: nat)
      requires Valid() && nesting > 0
      modifies this
      ensures Valid() && nesting == old(nesting) - 1 && saved == old(saved)
      ensures ie == (nesting == 0 && saved)
      decreases fuel, 0, 1
    {
      nesting := nesting - 1;
      Interrupts(fuel);
      if nesting == 0 && saved { ie := true; }
    }

    /** A section with anything inside: it leaves the enable bit, the count and an
        enclosing section's saved bit as they were. */
    method Section(fuel: nat, work: nat)
      requires Valid()
      modifies this
      ensures Valid() && ie == old(ie) && nesting == old(nesting)
      ensures nesting > 0 ==> saved == old(saved)
      decreases fuel, work + 1, 1
    {
      AtomicEnter(fuel);
      Code(fuel, work);
      AtomicExit(fuel);
    }

    /** Any code that opens and closes sections. */
    method Code(fuel: nat, work: nat)
      requires Valid()
      modifies this
      ensures Valid() && ie == old(ie) && nesting == old(nesting)
      ensures nesting > 0 ==> saved == old(saved)
      decreases fuel, work + 1, 0
    {
      var left := work;
      while left > 0
        invariant Valid() && ie == old(ie) && nesting == old(nesting) && left <= work
        invariant nesting > 0 ==> saved == old(saved)
        decreases left
      {
        left := left - 1;
        Interrupts(fuel);
        Section(fuel, left);
      }
    }

    /** Interrupts, where they are enabled; each ISR runs any code. */
    method Interrupts(fuel: nat)
      requires Valid()
      modifies this
      ensures Valid() && ie == old(ie) && nesting == old(nesting)
      ensures !ie ==> saved == old(saved)
      decreases fuel, 0, 0
    {
      var count: nat :| true;
      var left := if fuel == 0 then 0 else count;
      while left > 0 && ie
        invariant Valid() && ie == old(ie) && nesting == old(nesting)
        invariant left > 0 ==> fuel > 0
        invariant !ie ==> saved == old(saved)
        decreases left
      {
        left := left - 1;
        if port != CortexM { ie := false; }
        var work: nat :| true;
        Code(fuel - 1, work);
        ie := true;
      }
    }
  }
}
