/**
 * Reassembly of HCI packets from the radio's byte stream
 * (bleuart_slurp and bleuart_stream_extract in arch/ambiq/tiku_ble_uart.c).
 *
 * The radio hands over its bytes in frames that ignore packet boundaries.  The
 * host appends them to a 560-byte buffer and takes packets off its front by the
 * length in their HCI header (section 5.4 of Vol 4 Part E of the Bluetooth Core
 * Specification).
 */
module BleStream {
  import opened Words

  const STREAM_CAP: nat := 560
  const PACKET_CAP: nat := 260
  const FRAME_MAX: nat := 255

  const ACL: u8 := 0x02
  const EVENT: u8 := 0x04

  // ---------------------------------------------------------------------------
  // What the code does to the buffer
  // ---------------------------------------------------------------------------

  predicate Typed(s: Bytes) { s != [] && (s[0] == EVENT || s[0] == ACL) }

  /** Header bytes needed before the length is known. */
  function Header(s: Bytes): nat
    requires Typed(s)
  {
    if s[0] == EVENT then 3 else 5
  }

  /** The packet length the header announces. */
  function Announced(s: Bytes): nat
    requires Typed(s) && |s| >= Header(s)
  {
    if s[0] == EVENT then 3 + s[2] as int else 5 + s[3] as int + 0x100 * s[4] as int
  }

  /** The same as the code computes it, in 16 bits. */
  function Need(s: Bytes): u16
    requires Typed(s) && |s| >= Header(s)
  {
    Low16(Announced(s))
  }

  /** bleuart_stream_extract: the bytes given to the caller (none when it returns
      0) and the buffer it leaves. */
  function Extract(s: Bytes, cap: nat): (r: (Bytes, Bytes))
    ensures |r.0| <= cap && |r.0| + |r.1| <= |s|
    decreases |s|
  {
    if s == [] then ([], s)
    else if !Typed(s) then Extract(s[1..], cap)
    else if |s| < Header(s) then ([], s)
    else if Need(s) > STREAM_CAP then ([], [])
    else if |s| < Need(s) then ([], s)
    else (s[..Min(Need(s), cap)], s[Need(s)..])
  }

  /** What an extraction gives is an event with its full length, or starts like
      an ACL packet. */
  lemma {:induction false} ExtractIsTyped(s: Bytes, cap: nat)
    requires cap >= PACKET_CAP
    ensures var out := Extract(s, cap).0; out != [] ==> Typed(out) && (out[0] == EVENT ==> Whole(out))
    decreases |s|
  {
    if s != [] && !Typed(s) { ExtractIsTyped(s[1..], cap); }
  }

  // ---------------------------------------------------------------------------
  // Packets
  // ---------------------------------------------------------------------------

  /** A whole event or ACL packet, of any length its header can announce. */
  predicate Whole(p: Bytes) { Typed(p) && |p| >= Header(p) && |p| == Announced(p) }

  predicate AllFit(ps: seq<Bytes>) { forall p <- ps :: Whole(p) && |p| <= STREAM_CAP }

  function Cut(p: Bytes): Bytes { p[..Min(|p|, PACKET_CAP)] }

  function CutAll(ps: seq<Bytes>): (r: seq<Bytes>)
    ensures |r| == |ps|
  {
    if ps == [] then [] else [Cut(ps[0])] + CutAll(ps[1..])
  }

  lemma {:induction false} CutAllAppend(ps: seq<Bytes>, p: Bytes)
    ensures CutAll(ps + [p]) == CutAll(ps) + [Cut(p)]
  {
    if ps == [] {
      assert ps + [p] == [p];
    } else {
      assert (ps + [p])[1..] == ps[1..] + [p];
      CutAllAppend(ps[1..], p);
    }
  }

  /** What is buffered starts with the head of the first undelivered packet. */
  lemma HeadOf(ps: seq<Bytes>, s: Bytes, wire: Bytes)
    requires ps != [] && s + wire == Concat(ps)
    ensures forall i :: 0 <= i < |s| && i < |ps[0]| ==> s[i] == ps[0][i]
    ensures |s| >= |ps[0]| ==> s[..|ps[0]|] == ps[0] && s[|ps[0]|..] + wire == Concat(ps[1..])
  {
    var p := ps[0];
    assert Concat(ps) == p + Concat(ps[1..]);
    forall i | 0 <= i < |s| && i < |p| ensures s[i] == p[i] {
      assert (s + wire)[i] == (p + Concat(ps[1..]))[i];
    }
    if |s| >= |p| {
      assert (s + wire)[|p|..] == s[|p|..] + wire;
      assert (p + Concat(ps[1..]))[|p|..] == Concat(ps[1..]);
    }
  }

  /**
   * One extraction, whatever the cut: it gives the first undelivered packet, cut
   * to the caller's buffer, exactly when all of it is buffered, and otherwise
   * leaves the buffer alone.
   */
  lemma ExtractFirst(ps: seq<Bytes>, s: Bytes, wire: Bytes, cap: nat)
    requires AllFit(ps) && s + wire == Concat(ps)
    ensures Extract(s, cap) ==
            if ps != [] && |s| >= |ps[0]| then (ps[0][..Min(|ps[0]|, cap)], s[|ps[0]|..]) else ([], s)
  {
    if ps == [] || s == [] {
      assert |s| <= |Concat(ps)|;
    } else {
      var p := ps[0];
      HeadOf(ps, s, wire);
      assert Whole(p) && s[0] == p[0];
      if |s| >= Header(s) {
        assert Need(s) == |p|;
      }
      if |s| >= |p| {
        assert s[..Min(|p|, cap)] == p[..Min(|p|, cap)];
      }
    }
  }

  /**
   * The 560-byte bound is exact.  A longer packet is never delivered: up to
   * 65535 bytes its header clears the buffer, and above that the length wraps,
   * so that at most four bytes of header come out, or none and the buffer
   * stays as it is.
   */
  lemma LongPacketIsNotDelivered(p: Bytes, s: Bytes, cap: nat)
    requires Whole(p) && |p| > STREAM_CAP && 5 <= |s| <= STREAM_CAP && s == p[..|s|]
    ensures |p| <= 0xFFFF ==> Extract(s, cap) == ([], [])
    ensures |p| > 0xFFFF ==>
              |p| - 0x1_0000 <= 4 &&
              Extract(s, cap) == (s[..Min(|p| - 0x1_0000, cap)], s[|p| - 0x1_0000..])
    ensures |p| == 0x1_0000 ==> Extract(s, cap) == ([], s)
  {
    assert s[0] == p[0] && s[2] == p[2] && s[3] == p[3] && s[4] == p[4];
    assert Announced(s) == |p|;
  }

  // ---------------------------------------------------------------------------
  // Any schedule of frames and extractions
  // ---------------------------------------------------------------------------

  /** Packets the radio has produced, packets the host was given, the buffer,
      and the radio's bytes not read yet. */
  datatype Link = Link(sent: seq<Bytes>, got: seq<Bytes>, stream: Bytes, wire: Bytes)

  datatype Move =
    | Produce(p: Bytes)      // the radio queues one more packet
    | Frame(n: nat)          // one framed read of n bytes
    | Take                   // one extraction into the 260-byte packet buffer

  /** A frame's size is an 8-bit count, cut to the room left in the buffer. */
  predicate MoveLegal(l: Link, m: Move) {
    match m
    case Produce(p) => Whole(p) && |p| <= STREAM_CAP
    case Frame(n) => 1 <= n <= FRAME_MAX && n <= STREAM_CAP - |l.stream| && n <= |l.wire|
    case Take => true
  }

  function MoveStep(l: Link, m: Move): Link
    requires MoveLegal(l, m)
  {
    match m
    case Produce(p) => l.(sent := l.sent + [p], wire := l.wire + p)
    case Frame(n) => l.(stream := l.stream + l.wire[..n], wire := l.wire[n..])
    case Take =>
      var (out, rest) := Extract(l.stream, PACKET_CAP);
      if out == [] then l.(stream := rest) else l.(got := l.got + [out], stream := rest)
  }

  /** The packets given to the host are the first ones produced, cut to 260
      bytes, and the buffer and the radio hold exactly the bytes of the others. */
  predicate InStep(l: Link) {
    && |l.got| <= |l.sent|
    && AllFit(l.sent)
    && |l.stream| <= STREAM_CAP
    && l.got == CutAll(l.sent[..|l.got|])
    && l.stream + l.wire == Concat(l.sent[|l.got|..])
  }

  /** Handing over the first undelivered packet. */
  lemma DeliverKeepsInStep(l: Link)
    requires InStep(l) && |l.got| < |l.sent| && |l.sent[|l.got|]| <= |l.stream|
    ensures var p := l.sent[|l.got|];
            InStep(Link(l.sent, l.got + [Cut(p)], l.stream[|p|..], l.wire))
  {
    var k := |l.got|;
    var ps := l.sent[k..];
    HeadOf(ps, l.stream, l.wire);
    assert ps[1..] == l.sent[k + 1..];
    assert l.sent[..k + 1] == l.sent[..k] + [l.sent[k]];
    CutAllAppend(l.sent[..k], l.sent[k]);
  }

  /** What taking does: the first undelivered packet comes out when all of it is
      buffered, and otherwise nothing changes. */
  lemma TakeDelivers(l: Link)
    requires InStep(l)
    ensures MoveStep(l, Take) ==
            if |l.got| < |l.sent| && |l.sent[|l.got|]| <= |l.stream|
            then var p := l.sent[|l.got|]; Link(l.sent, l.got + [Cut(p)], l.stream[|p|..], l.wire)
            else l
  {
    var ps := l.sent[|l.got|..];
    assert AllFit(ps);
    ExtractFirst(ps, l.stream, l.wire, PACKET_CAP);
    assert ps != [] ==> Cut(ps[0]) != [];
  }

  lemma TakeKeepsInStep(l: Link)
    requires InStep(l)
    ensures InStep(MoveStep(l, Take))
  {
    TakeDelivers(l);
    if |l.got| < |l.sent| && |l.sent[|l.got|]| <= |l.stream| { DeliverKeepsInStep(l); }
  }

  lemma ProduceKeepsInStep(l: Link, p: Bytes)
    requires InStep(l) && Whole(p) && |p| <= STREAM_CAP
    ensures InStep(MoveStep(l, Produce(p)))
  {
    var k := |l.got|;
    assert (l.sent + [p])[..k] == l.sent[..k];
    assert (l.sent + [p])[k..] == l.sent[k..] + [p];
    ConcatOne(l.sent[k..], p);
    assert l.stream + (l.wire + p) == (l.stream + l.wire) + p;
  }

  lemma MoveKeepsInStep(l: Link, m: Move)
    requires InStep(l) && MoveLegal(l, m)
    ensures InStep(MoveStep(l, m))
  {
    match m
    case Produce(p) => ProduceKeepsInStep(l, p);
    case Frame(n) => assert (l.stream + l.wire[..n]) + l.wire[n..] == l.stream + l.wire;
    case Take => TakeKeepsInStep(l);
  }

  predicate MovesLegal(l: Link, ms: seq<Move>)
    decreases ms
  {
    ms == [] || (MoveLegal(l, ms[0]) && MovesLegal(MoveStep(l, ms[0]), ms[1..]))
  }

  function MovesRun(l: Link, ms: seq<Move>): Link
    requires MovesLegal(l, ms)
    decreases ms
  {
    if ms == [] then l else MovesRun(MoveStep(l, ms[0]), ms[1..])
  }

  /** Reassembly does not depend on framing: under every schedule the packets
      come out in order, whole up to the cut, with no byte lost or repeated. */
  lemma {:induction false} ReassemblyIgnoresFraming(l: Link, ms: seq<Move>)
    requires InStep(l) && MovesLegal(l, ms)
    ensures InStep(MovesRun(l, ms))
    decreases ms
  {
    if ms != [] {
      MoveKeepsInStep(l, ms[0]);
      ReassemblyIgnoresFraming(MoveStep(l, ms[0]), ms[1..]);
    }
  }

  /** A full buffer never wedges: it holds a whole packet.  So does a buffer that
      has taken in everything the radio has. */
  lemma NeverWedges(l: Link)
    requires InStep(l) && |l.got| < |l.sent|
    requires |l.stream| == STREAM_CAP || l.wire == []
    ensures MoveStep(l, Take).got == l.got + [Cut(l.sent[|l.got|])]
  {
    var ps := l.sent[|l.got|..];
    ExtractFirst(ps, l.stream, l.wire, PACKET_CAP);
    assert Concat(ps) == ps[0] + Concat(ps[1..]);
    assert Cut(ps[0]) != [];
  }

  /** The moves that fill the buffer as far as it goes. */
  function Fill(l: Link): (ms: seq<Move>)
    requires |l.stream| <= STREAM_CAP
    ensures MovesLegal(l, ms) && forall m <- ms :: m.Frame?
    ensures var r := MovesRun(l, ms); r.sent == l.sent && r.got == l.got && (|r.stream| == STREAM_CAP || r.wire == [])
    decreases |l.wire|
  {
    var n := Min(FRAME_MAX, Min(STREAM_CAP - |l.stream|, |l.wire|));
    if n == 0 then [] else [Frame(n)] + Fill(MoveStep(l, Frame(n)))
  }

  lemma {:induction false} MovesAppend(l: Link, a: seq<Move>, b: seq<Move>)
    requires MovesLegal(l, a) && MovesLegal(MovesRun(l, a), b)
    ensures MovesLegal(l, a + b) && MovesRun(l, a + b) == MovesRun(MovesRun(l, a), b)
    decreases a
  {
    if a == [] {
      assert a + b == b;
    } else {
      assert (a + b)[0] == a[0] && (a + b)[1..] == a[1..] + b;
      MovesAppend(MoveStep(l, a[0]), a[1..], b);
    }
  }

  /** From every reachable state the host can bring in all that was produced. */
  lemma {:induction false} EverythingArrives(l: Link) returns (ms: seq<Move>)
    requires InStep(l)
    ensures MovesLegal(l, ms) && MovesRun(l, ms).got == CutAll(l.sent)
    decreases |l.sent| - |l.got|
  {
    if |l.got| == |l.sent| {
      assert l.sent[..|l.got|] == l.sent;
      ms := [];
    } else {
      var fill := Fill(l);
      ReassemblyIgnoresFraming(l, fill);
      var full := MovesRun(l, fill);
      NeverWedges(full);
      MoveKeepsInStep(full, Take);
      var rest := EverythingArrives(MoveStep(full, Take));
      assert MovesRun(full, [Take] + rest) == MovesRun(MoveStep(full, Take), rest) by {
        assert ([Take] + rest)[1..] == rest;
      }
      MovesAppend(l, fill, [Take] + rest);
      ms := fill + ([Take] + rest);
    }
  }
}
