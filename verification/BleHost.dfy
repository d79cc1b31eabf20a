/**
 * The BLE UART host's flow control and notification queue
 * (arch/ambiq/tiku_ble_uart.c), beside the controller it talks to.
 *
 * A step function says what one call does to the host's statics; the controller
 * is a second party that queues packets, holds the ACL packets it was handed and
 * acknowledges each at most once (sections 4.1 and 7.7.19 of Vol 4 Part E of the
 * Bluetooth Core Specification).  What follows from it holds over every run, in
 * every order of the two parties' steps.
 */
module BleHost {
  import opened Words
  import opened BleStream

  const NO_HANDLE: u16 := 0xFFFF
  const SERVER_MTU: u16 := 247
  const TX_CAP: nat := 1024
  const RX_CAP: nat := 255                // the 256-byte ring keeps one slot free

  /**
   *   link                 reassembly: packets produced and received, bytes buffered
   *   pkt                  s_pkt, the last packet with what older ones left behind it
   *   handle .. rx         the statics of the same names
   *   held                 ACL packets in the controller's buffers
   *   lost                 ACL packets the controller had no buffer for
   *   owed                 an ATT response is to be sent before anything else
   *   alive                no Disconnection Complete has been handled
   *   accepted             every byte putc stored
   *   since, notified      since the queue was last dropped: where in `accepted`
   *                        that was, and the payloads notified after it
   */
  datatype Host = Host(link: Link, pkt: Bytes, handle: u16, mtu: u16, cccd: u16,
                       inflight: nat, credits: nat, pktLen: u16, llOctets: u16,
                       tx: Bytes, rx: Bytes,
                       held: nat, lost: nat, owed: bool, alive: bool,
                       accepted: Bytes, since: nat, notified: Bytes)

  /** `ok` is the transport's result for an ACL packet sent in the step, `kept`
      whether the controller had a buffer for it. */
  datatype Event =
    | Radio(p: Bytes)
    | Frame(n: nat)
    | Receive
    | Respond(ok: bool, kept: bool)
    | Flush(ok: bool, kept: bool)
    | Put(c: u8)
    | Get

  /** The state tiku_ble_uart_start leaves, with the buffer count and ACL length the
      controller reported. */
  function StartState(credits: nat, pktLen: u16, pkt: Bytes): Host {
    Host(Link([], [], [], []), pkt, NO_HANDLE, 23, 0, 0, credits, pktLen, 27, [], [], 0, 0, false, true, [], 0, [])
  }

  predicate Up(h: Host) { h.handle != NO_HANDLE }

  /** A link is up and its central has switched notifications on. */
  predicate Subscribed(h: Host) { Up(h) && h.cccd % 2 == 1 }

  function Rd16(b: Bytes, i: nat): u16
    requires i + 1 < |b|
  {
    b[i] as int + 0x100 * b[i + 1] as int
  }

  // ---------------------------------------------------------------------------
  // Sending
  // ---------------------------------------------------------------------------

  /** bleuart_l2cap_send: nothing without a link or when the transport fails. */
  function SendAcl(h: Host, ok: bool, kept: bool): Host {
    if Up(h) && ok then
      h.(inflight := h.inflight + 1, held := h.held + (if kept then 1 else 0),
         lost := h.lost + (if kept then 0 else 1))
    else h
  }

  function DropQueue(h: Host): Host {
    h.(tx := [], since := |h.accepted|, notified := [])
  }

  /** The payload limit of one notification. */
  function Limit(h: Host): int {
    var lim := h.mtu - 3;
    var lim' := if h.pktLen > 7 then Min(lim, h.pktLen - 7) else lim;
    if h.llOctets > 7 then Min(lim', h.llOctets - 7) else lim'
  }

  function NoteSize(h: Host): int { Min(|h.tx|, Limit(h)) }

  /** Does a flush get as far as handing over a notification? */
  predicate Notifies(h: Host) { h.tx != [] && Subscribed(h) && h.inflight < h.credits }

  /** tiku_ble_uart_flush. */
  function FlushStep(h: Host, ok: bool, kept: bool): Host
    requires 3 <= h.mtu
  {
    if h.tx == [] then h
    else if !Subscribed(h) then DropQueue(h)
    else if h.inflight >= h.credits then h
    else if !ok then h
    else
      var n := NoteSize(h);
      SendAcl(h, ok, kept).(tx := h.tx[n..], notified := h.notified + h.tx[..n])
  }

  // ---------------------------------------------------------------------------
  // Receiving
  // ---------------------------------------------------------------------------

  /** The counts of a Number Of Completed Packets event from entry i on, leaving
      out entries cut off by the packet's end. */
  function AckSum(p: Bytes, i: nat, n: nat): nat
    decreases n - i
  {
    if i >= n then 0
    else (if 4 * i + 7 < |p| then Rd16(p, 4 * i + 6) else 0) + AckSum(p, i + 1, n)
  }

  /** The loop of bleuart_on_event: each count comes off, never below zero. */
  function AckLoop(inflight: nat, p: Bytes, i: nat, n: nat): nat
    decreases n - i
  {
    if i >= n then inflight
    else
      var cnt := if 4 * i + 7 < |p| then Rd16(p, 4 * i + 6) else 0;
      AckLoop(if cnt > inflight then 0 else inflight - cnt, p, i + 1, n)
  }

  predicate IsAck(p: Bytes) { |p| >= 4 && p[0] == EVENT && p[1] == 0x13 }

  /** The ACL packets a packet acknowledges. */
  function Acks(p: Bytes): nat { if IsAck(p) then AckSum(p, 0, p[3]) else 0 }

  function AcksIn(ps: seq<Bytes>): nat {
    if ps == [] then 0 else Acks(ps[0]) + AcksIn(ps[1..])
  }

  predicate IsDisconnect(p: Bytes) { |p| >= 6 && p[0] == EVENT && p[1] == 0x05 }

  /** What a Disconnection Complete event does. */
  function Unlink(h: Host): Host {
    DropQueue(h).(handle := NO_HANDLE, mtu := 23, cccd := 0, rx := [], inflight := 0,
                  link := h.link.(stream := []), llOctets := 27, alive := false)
  }

  /** What an LE Meta event does: a Data Length Change of at least 27 octets sets
      the link layer's limit, a successful connection its handle. */
  function OnMeta(h: Host, p: Bytes): Host
    requires |p| >= 4
  {
    if p[3] == 0x07 && |p| >= 8 then
      (if Rd16(p, 6) >= 27 then h.(llOctets := Rd16(p, 6)) else h)
    else if (p[3] == 0x01 || p[3] == 0x0A) && |p| >= 15 && p[4] == 0 then
      h.(handle := Rd16(p, 5) % 0x1000)
    else h
  }

  /** bleuart_on_event on the packet p. */
  function OnEvent(h: Host, p: Bytes): Host {
    if |p| < 4 then h
    else if p[1] == 0x13 then h.(inflight := AckLoop(h.inflight, p, 0, p[3]))
    else if p[1] == 0x05 && |p| >= 6 then Unlink(h)
    else if p[1] == 0x3E then OnMeta(h, p)
    else h
  }

  /** bleuart_rx_push: what does not fit is dropped. */
  function RxPush(rx: Bytes, d: Bytes): Bytes
    requires |rx| <= RX_CAP
  {
    rx + d[..Min(|d|, RX_CAP - |rx|)]
  }

  /**
   * bleuart_att_handle on the `len` bytes at offset 9 of the packet buffer: the
   * new state, and whether a response is sent.  A CCCD write shorter than its
   * two-byte value takes the missing bytes from what the buffer held before.
   */
  function OnAtt(h: Host, len: nat): (Host, bool)
    requires |h.pkt| == PACKET_CAP && 9 + len <= PACKET_CAP && |h.rx| <= RX_CAP
  {
    if len < 1 then (h, false)
    else
      var op := h.pkt[9];
      if op == 0x02 then
        var cli := if len >= 3 then Rd16(h.pkt, 10) else 23;
        var mtu := if cli < SERVER_MTU then cli else SERVER_MTU;
        (h.(mtu := if mtu < 23 then 23 else mtu), true)
      else if (op == 0x12 || op == 0x52) && len >= 3 then
        var target := Rd16(h.pkt, 10);
        if target == 6 then
          (h.(cccd := if len >= 4 then Rd16(h.pkt, 12) else h.pkt[12]), op == 0x12)
        else if target == 3 then
          (h.(rx := RxPush(h.rx, h.pkt[12..9 + len])), op == 0x12)
        else (h, op == 0x12)
      else (h, true)
  }

  /** bleuart_on_acl on the first len bytes of the packet buffer. */
  function OnAcl(h: Host, len: nat): Host
    requires |h.pkt| == PACKET_CAP && len <= PACKET_CAP && |h.rx| <= RX_CAP
  {
    if len < 5 then h
    else
      var h1 := if Up(h) then h else h.(handle := Rd16(h.pkt, 1) % 0x1000);
      if len < 9 || Rd16(h.pkt, 7) != 4 then h1
      else
        var (h2, responds) := OnAtt(h1, Min(len - 9, Rd16(h.pkt, 5)));
        h2.(owed := responds)
  }

  /** One extraction into the packet buffer. */
  function Taken(h: Host): Host
    requires |h.pkt| == PACKET_CAP
  {
    var out := Extract(h.link.stream, PACKET_CAP).0;
    var h1 := h.(link := MoveStep(h.link, Take));
    if out == [] then h1 else h1.(pkt := out + h.pkt[|out|..])
  }

  /** tiku_ble_uart_poll after its slurp: one packet taken and dispatched, up to
      the sending of its response. */
  function ReceiveStep(h: Host): Host
    requires |h.pkt| == PACKET_CAP && |h.rx| <= RX_CAP
  {
    var out := Extract(h.link.stream, PACKET_CAP).0;
    if out == [] then Taken(h)
    else if out[0] == EVENT then OnEvent(Taken(h), out)
    else OnAcl(Taken(h), |out|)
  }

  // ---------------------------------------------------------------------------
  // The two parties' steps
  // ---------------------------------------------------------------------------

  /**
   * The controller produces whole packets and acknowledges only packets it
   * holds; with a buffer free it keeps what it is handed.  putc stores a byte
   * only when the queue has room.
   */
  predicate Legal(h: Host, e: Event) {
    match e
    case Radio(p) => MoveLegal(h.link, Produce(p)) && Acks(p) <= h.held
    case Frame(n) => MoveLegal(h.link, Move.Frame(n))
    case Receive => !h.owed
    case Respond(ok, kept) => h.owed && (h.held < h.credits ==> kept)
    case Flush(ok, kept) => !h.owed && (h.held < h.credits ==> kept)
    case Put(c) => !h.owed && |h.tx| < TX_CAP
    case Get => !h.owed && h.rx != []
  }

  function Step(h: Host, e: Event): Host
    requires Sane(h) && Legal(h, e)
  {
    match e
    case Radio(p) => h.(link := MoveStep(h.link, Produce(p)), held := h.held - Acks(p))
    case Frame(n) => h.(link := MoveStep(h.link, Move.Frame(n)))
    case Receive => ReceiveStep(h)
    case Respond(ok, kept) => SendAcl(h, ok, kept).(owed := false)
    case Flush(ok, kept) => FlushStep(h, ok, kept)
    case Put(c) => h.(tx := h.tx + [c], accepted := h.accepted + [c])
    case Get => h.(rx := h.rx[1..])
  }

  /** Bounds the statics keep, whatever arrives. */
  predicate Sane(h: Host) {
    && |h.pkt| == PACKET_CAP && |h.link.stream| <= STREAM_CAP
    && 23 <= h.mtu <= SERVER_MTU && h.pktLen >= 27 && h.llOctets >= 27
    && |h.tx| <= TX_CAP && |h.rx| <= RX_CAP
  }

  /** The packets not received yet. */
  function Pending(h: Host): seq<Bytes>
    requires |h.link.got| <= |h.link.sent|
  {
    h.link.sent[|h.link.got|..]
  }

  /**
   * Conservation of credits: every packet counted in flight is held by the
   * controller, or has its acknowledgement on the way, or was never kept.
   */
  predicate Balanced(h: Host) {
    h.alive ==> InStep(h.link) && h.inflight == h.held + AcksIn(Pending(h)) + h.lost
  }

  /** What putc stored since the last drop is what was notified, then the queue. */
  predicate InOrder(h: Host) {
    h.since <= |h.accepted| && h.accepted[h.since..] == h.notified + h.tx
  }

  predicate Inv(h: Host) { Sane(h) && Balanced(h) && InOrder(h) }

  // ---------------------------------------------------------------------------
  // Every step keeps the invariant
  // ---------------------------------------------------------------------------

  /** As long as the counter covers the counts, the clamp at zero never acts. */
  lemma {:induction false} AckLoopSubtracts(inflight: nat, p: Bytes, i: nat, n: nat)
    requires inflight >= AckSum(p, i, n)
    ensures AckLoop(inflight, p, i, n) == inflight - AckSum(p, i, n)
    decreases n - i
  {
    if i < n {
      var cnt := if 4 * i + 7 < |p| then Rd16(p, 4 * i + 6) else 0;
      AckLoopSubtracts(inflight - cnt, p, i + 1, n);
    }
  }

  lemma {:induction false} AcksInAppend(ps: seq<Bytes>, p: Bytes)
    ensures AcksIn(ps + [p]) == AcksIn(ps) + Acks(p)
  {
    if ps == [] {
      assert ps + [p] == [p];
    } else {
      assert (ps + [p])[1..] == ps[1..] + [p];
      AcksInAppend(ps[1..], p);
    }
  }

  lemma RadioKeepsBalance(h: Host, p: Bytes)
    requires Inv(h) && Legal(h, Radio(p)) && h.alive
    ensures Balanced(Step(h, Radio(p)))
  {
    ProduceKeepsInStep(h.link, p);
    assert (h.link.sent + [p])[|h.link.got|..] == Pending(h) + [p];
    AcksInAppend(Pending(h), p);
  }

  lemma SuffixFits(ps: seq<Bytes>, j: nat)
    requires AllFit(ps) && j <= |ps|
    ensures AllFit(ps[j..])
  {
  }

  /** Taking a packet removes its acknowledgements from those on the way. */
  lemma TakeSettles(h: Host)
    requires Sane(h) && InStep(h.link)
    ensures var (out, _) := Extract(h.link.stream, PACKET_CAP);
            var h1 := h.(link := MoveStep(h.link, Take));
            && InStep(h1.link)
            && (out == [] ==> h1 == h)
            && (out != [] ==> Typed(out) && AcksIn(Pending(h)) == Acks(out) + AcksIn(Pending(h1)))
            && (out != [] && out[0] == EVENT ==> Whole(out))
  {
    TakeKeepsInStep(h.link);
    var ps := Pending(h);
    SuffixFits(h.link.sent, |h.link.got|);
    ExtractFirst(ps, h.link.stream, h.link.wire, PACKET_CAP);
    var (out, rest) := Extract(h.link.stream, PACKET_CAP);
    if out != [] {
      assert ps[1..] == h.link.sent[|h.link.got| + 1..];
      assert Whole(ps[0]);
      if ps[0][0] == EVENT { assert out == ps[0]; }
    }
  }

  /** Between taking an ACL packet and dispatching it the invariant holds too. */
  lemma TakeKeepsInv(h: Host)
    requires Inv(h)
    ensures var out := Extract(h.link.stream, PACKET_CAP).0;
            out == [] || out[0] != EVENT ==> Inv(Taken(h))
  {
    if h.alive { TakeSettles(h); }
  }

  /** t has the queue, its history and the stream of h. */
  predicate QueueKept(h: Host, t: Host) {
    && t.tx == h.tx && t.accepted == h.accepted && t.since == h.since && t.notified == h.notified
    && t.link == h.link && t.alive == h.alive && t.credits == h.credits
  }

  lemma OnAttKeeps(h: Host, len: nat)
    requires Sane(h) && 9 + len <= PACKET_CAP
    ensures var (t, _) := OnAtt(h, len);
            Sane(t) && QueueKept(h, t) && t.inflight == h.inflight && t.held == h.held && t.lost == h.lost
  {
  }

  lemma OnAclKeeps(h: Host, len: nat)
    requires Sane(h) && len <= PACKET_CAP
    ensures var t := OnAcl(h, len);
            Sane(t) && QueueKept(h, t) && t.inflight == h.inflight && t.held == h.held && t.lost == h.lost
  {
    if len >= 9 {
      var h1 := if Up(h) then h else h.(handle := Rd16(h.pkt, 1) % 0x1000);
      OnAttKeeps(h1, Min(len - 9, Rd16(h.pkt, 5)));
    }
  }

  lemma OnEventKeeps(h: Host, p: Bytes)
    requires Sane(h) && InOrder(h) && Whole(p) && p[0] == EVENT
    ensures var t := OnEvent(h, p);
            && Sane(t) && InOrder(t) && t.held == h.held && t.lost == h.lost
            && t.alive == (h.alive && !IsDisconnect(p))
            && (!IsDisconnect(p) ==> QueueKept(h, t))
            && (!IsDisconnect(p) && h.inflight >= Acks(p) ==> t.inflight == h.inflight - Acks(p))
  {
    if IsAck(p) && h.inflight >= Acks(p) {
      AckLoopSubtracts(h.inflight, p, 0, p[3]);
    }
  }

  lemma ReceiveKeepsInv(h: Host)
    requires Inv(h)
    ensures Inv(ReceiveStep(h))
  {
    var out := Extract(h.link.stream, PACKET_CAP).0;
    var h2 := Taken(h);
    if h.alive { TakeSettles(h); }
    if out != [] {
      ExtractIsTyped(h.link.stream, PACKET_CAP);
      if out[0] == EVENT {
        OnEventKeeps(h2, out);
      } else {
        OnAclKeeps(h2, |out|);
      }
    }
  }

  lemma FlushKeepsInv(h: Host, ok: bool, kept: bool)
    requires Inv(h)
    ensures Inv(FlushStep(h, ok, kept))
  {
    if Notifies(h) && ok {
      var n := NoteSize(h);
      assert h.notified + h.tx == (h.notified + h.tx[..n]) + h.tx[n..];
    }
  }

  lemma StepKeepsInv(h: Host, e: Event)
    requires Inv(h) && Legal(h, e)
    ensures Inv(Step(h, e))
  {
    match e
    case Radio(p) => if h.alive { RadioKeepsBalance(h, p); }
    case Frame(n) => if h.alive { MoveKeepsInStep(h.link, Move.Frame(n)); }
    case Receive => ReceiveKeepsInv(h);
    case Respond(ok, kept) =>
    case Flush(ok, kept) => FlushKeepsInv(h, ok, kept);
    case Put(c) =>
      assert (h.accepted + [c])[h.since..] == h.accepted[h.since..] + [c];
      assert (h.notified + h.tx) + [c] == h.notified + (h.tx + [c]);
    case Get =>
  }

  // ---------------------------------------------------------------------------
  // Runs
  // ---------------------------------------------------------------------------

  ghost predicate LegalRun(h: Host, es: seq<Event>)
    decreases es
  {
    es == [] || (Sane(h) && Legal(h, es[0]) && LegalRun(Step(h, es[0]), es[1..]))
  }

  ghost function Run(h: Host, es: seq<Event>): Host
    requires LegalRun(h, es)
    decreases es
  {
    if es == [] then h else Run(Step(h, es[0]), es[1..])
  }

  lemma {:induction false} RunAppend(h: Host, a: seq<Event>, b: seq<Event>)
    requires LegalRun(h, a) && LegalRun(Run(h, a), b)
    ensures LegalRun(h, a + b) && Run(h, a + b) == Run(Run(h, a), b)
    decreases a
  {
    if a == [] {
      assert a + b == b;
    } else {
      assert (a + b)[0] == a[0] && (a + b)[1..] == a[1..] + b;
      RunAppend(Step(h, a[0]), a[1..], b);
    }
  }

  /** From h the run es leads to t. */
  ghost predicate Reaches(h: Host, es: seq<Event>, t: Host) {
    LegalRun(h, es) && Run(h, es) == t
  }

  lemma Reach1(h: Host, e: Event)
    requires Sane(h) && Legal(h, e)
    ensures Reaches(h, [e], Step(h, e))
  {
    assert [e][1..] == [];
  }

  lemma Reach2(h: Host, a: seq<Event>, m: Host, b: seq<Event>, t: Host)
    requires Reaches(h, a, m) && Reaches(m, b, t)
    ensures Reaches(h, a + b, t)
  {
    RunAppend(h, a, b);
  }

  /**
   * Whenever a notification is handed over, the controller has a buffer free
   * and keeps it, although responses are sent without regard to credits.
   */
  lemma NotificationHasBuffer(h: Host, ok: bool, kept: bool)
    requires Inv(h) && h.alive && Legal(h, Flush(ok, kept)) && Notifies(h)
    ensures h.held < h.credits && kept
  {
  }

  /** A notification fits the ATT MTU, the controller's ACL length and the link
      layer's payload, is never cut by the send routine, and carries the whole
      queue or at least 20 bytes. */
  lemma NotificationFits(h: Host)
    requires Inv(h) && Notifies(h)
    ensures var n := NoteSize(h);
            && 3 + n <= h.mtu && 4 + 3 + n <= h.pktLen && 4 + 3 + n <= h.llOctets
            && 3 + n <= SERVER_MTU
            && 0 < n <= |h.tx| && (n == |h.tx| || n >= 20)
  {
  }

  /** Every state of the run satisfies the invariant, and every notification it
      hands over finds a buffer free and fits its limits. */
  ghost predicate AllNotesGood(h: Host, es: seq<Event>)
    requires LegalRun(h, es)
    decreases es
  {
    && Inv(h)
    && (es != [] ==>
          && (h.alive && es[0].Flush? && Notifies(h) ==>
                && h.held < h.credits && es[0].kept
                && NoteSize(h) + 7 <= Min(h.pktLen, h.llOctets) && NoteSize(h) + 3 <= h.mtu)
          && AllNotesGood(Step(h, es[0]), es[1..]))
  }

  lemma {:induction false} RunKeepsInv(h: Host, es: seq<Event>)
    requires Inv(h) && LegalRun(h, es)
    ensures Inv(Run(h, es)) && AllNotesGood(h, es)
    decreases es
  {
    if es != [] {
      if h.alive && es[0].Flush? && Notifies(h) {
        NotificationHasBuffer(h, es[0].ok, es[0].kept);
        NotificationFits(h);
      }
      StepKeepsInv(h, es[0]);
      RunKeepsInv(Step(h, es[0]), es[1..]);
    }
  }

  /** A run along which the central stays subscribed on one connection. */
  ghost predicate SubscribedRun(h: Host, es: seq<Event>)
    requires LegalRun(h, es)
    decreases es
  {
    h.alive && Subscribed(h) && (es != [] ==> SubscribedRun(Step(h, es[0]), es[1..]))
  }

  lemma SubscribedStep(h: Host, e: Event)
    requires Inv(h) && Legal(h, e) && Subscribed(h) && Step(h, e).alive
    ensures var t := Step(h, e);
            && t.since == h.since && h.accepted <= t.accepted && h.notified <= t.notified
            && (!e.Put? ==> t.accepted == h.accepted)
  {
    if e.Receive? {
      var out := Extract(h.link.stream, PACKET_CAP).0;
      if out != [] {
        ExtractIsTyped(h.link.stream, PACKET_CAP);
        if out[0] == EVENT { OnEventKeeps(Taken(h), out); } else { OnAclKeeps(Taken(h), |out|); }
      }
    }
  }

  /** Nothing is dropped along such a run: both histories only grow. */
  lemma {:induction false} SubscribedRunGrows(h: Host, es: seq<Event>)
    requires Inv(h) && LegalRun(h, es) && SubscribedRun(h, es)
    ensures var t := Run(h, es);
            Inv(t) && t.since == h.since && h.accepted <= t.accepted && h.notified <= t.notified
    decreases es
  {
    if es != [] {
      StepKeepsInv(h, es[0]);
      SubscribedStep(h, es[0]);
      SubscribedRunGrows(Step(h, es[0]), es[1..]);
    }
  }

  /** Cutting the common front off both sides. */
  lemma AfterPrefix(n0: Bytes, q0: Bytes, a0: Bytes, n: Bytes, q: Bytes, a: Bytes, since: nat)
    requires since <= |a0| && a0[since..] == n0 + q0
    requires a0 <= a && n0 <= n && a[since..] == n + q
    ensures n[|n0|..] + q == q0 + a[|a0|..]
  {
    assert a[since..] == a0[since..] + a[|a0|..];
    assert n == n0 + n[|n0|..];
    var left, right := n[|n0|..] + q, q0 + a[|a0|..];
    assert n + q == n0 + left;
    assert (n0 + q0) + a[|a0|..] == n0 + right;
    assert (n0 + left)[|n0|..] == left;
    assert (n0 + right)[|n0|..] == right;
  }

  /**
   * While the central stays subscribed no byte is dropped: what was notified
   * from the start of the run on, then the queue, is what was queued at its
   * start, then every byte putc stored, in order.
   */
  lemma SubscribedBytesInOrder(h: Host, es: seq<Event>)
    requires Inv(h) && LegalRun(h, es) && SubscribedRun(h, es)
    ensures var t := Run(h, es);
            && h.accepted <= t.accepted && h.notified <= t.notified
            && t.notified[|h.notified|..] + t.tx == h.tx + t.accepted[|h.accepted|..]
  {
    SubscribedRunGrows(h, es);
    var t := Run(h, es);
    AfterPrefix(h.notified, h.tx, h.accepted, t.notified, t.tx, t.accepted, h.since);
  }

  /** No step of the run hands over a notification. */
  ghost predicate NeverNotifies(h: Host, es: seq<Event>)
    requires LegalRun(h, es)
    decreases es
  {
    es == [] || (!(es[0].Flush? && Notifies(h)) && NeverNotifies(Step(h, es[0]), es[1..]))
  }

  lemma LostOnlyGrows(h: Host, e: Event)
    requires Inv(h) && Legal(h, e)
    ensures Step(h, e).lost >= h.lost && Step(h, e).credits == h.credits
    ensures Step(h, e).alive ==> h.alive
  {
    if e.Receive? {
      var out := Extract(h.link.stream, PACKET_CAP).0;
      if out != [] {
        ExtractIsTyped(h.link.stream, PACKET_CAP);
        if out[0] == EVENT { OnEventKeeps(Taken(h), out); } else { OnAclKeeps(Taken(h), |out|); }
      }
    }
  }

  /**
   * The price of the ungated responses: a response the controller had no buffer
   * for is never acknowledged, so its credit is gone for the connection.  Once
   * as many are lost as there are buffers, nothing is notified again.
   */
  lemma {:induction false} LostCreditsSilence(h: Host, es: seq<Event>)
    requires Inv(h) && LegalRun(h, es) && h.lost >= h.credits
    requires Run(h, es).alive
    ensures h.alive && NeverNotifies(h, es)
    decreases es
  {
    if es != [] {
      StepKeepsInv(h, es[0]);
      LostOnlyGrows(h, es[0]);
      LostCreditsSilence(Step(h, es[0]), es[1..]);
    }
  }

  /** With everything received and nothing held, the credits still missing are
      those of the lost packets. */
  lemma CreditsComeBack(h: Host)
    requires Inv(h) && h.alive && Pending(h) == [] && h.held == 0
    ensures h.inflight == h.lost
  {
  }

  lemma SplitsAgree(s: Bytes, w: Bytes, a: Bytes, b: Bytes)
    requires s + w == a + b
    ensures s == a <==> w == b
  {
    assert (s + w)[..|s|] == s && (s + w)[|s|..] == w;
    assert (a + b)[..|a|] == a && (a + b)[|a|..] == b;
  }

  /**
   * Handling a disconnect clears the buffer.  Reassembly is in step again for
   * the packets still to come exactly when the buffer ended on a packet
   * boundary.
   */
  lemma DisconnectRealigns(h: Host, j: nat)
    requires Inv(h) && h.alive && j <= |Pending(h)|
    ensures InStep(Link(Pending(h)[j..], [], [], h.link.wire)) <==>
            h.link.stream == Concat(Pending(h)[..j])
  {
    var ps := Pending(h);
    ConcatSplit(ps, j);
    SplitsAgree(h.link.stream, h.link.wire, Concat(ps[..j]), Concat(ps[j..]));
    SuffixFits(h.link.sent, |h.link.got|);
    SuffixFits(ps, j);
    assert ps[j..][0..] == ps[j..];
    assert [] + h.link.wire == h.link.wire;
  }

  /** Frame moves as the host's events. */
  function Lift(ms: seq<Move>): (es: seq<Event>)
    requires forall m <- ms :: m.Frame?
    ensures |es| == |ms|
  {
    seq(|ms|, i requires 0 <= i < |ms| => Event.Frame(ms[i].n))
  }

  /** Frames change the link only. */
  lemma {:induction false} FramesReach(h: Host, ms: seq<Move>)
    requires Inv(h) && MovesLegal(h.link, ms) && forall m <- ms :: m.Frame?
    ensures Inv(h.(link := MovesRun(h.link, ms))) && Reaches(h, Lift(ms), h.(link := MovesRun(h.link, ms)))
    decreases ms
  {
    if ms != [] {
      var e := Event.Frame(ms[0].n);
      assert ms[0] == Move.Frame(ms[0].n) && ms[0] in ms;
      StepKeepsInv(h, e);
      FramesReach(Step(h, e), ms[1..]);
      Reach1(h, e);
      Reach2(h, [e], Step(h, e), Lift(ms[1..]), h.(link := MovesRun(h.link, ms)));
      assert [e] + Lift(ms[1..]) == Lift(ms);
    }
  }

  /** The next connection's account: the packets still to come, with nothing in the
      controller's buffers and nothing lost. */
  function Reconnected(h: Host, coming: seq<Bytes>): Host {
    Unlink(h).(link := Link(coming, [], [], h.link.wire), held := 0, lost := 0, alive := true)
  }

  /**
   * When a disconnect is handled and the controller has dropped what it held, the
   * whole invariant, the balance of credits included, holds again for the next
   * connection if and only if the buffer ended on a packet boundary and none of the
   * packets still to come acknowledges any of the old ones.
   */
  lemma NextConnectionBalances(h: Host, j: nat)
    requires Inv(h) && h.alive && j <= |Pending(h)|
    ensures Inv(Reconnected(h, Pending(h)[j..])) <==>
            h.link.stream == Concat(Pending(h)[..j]) && AcksIn(Pending(h)[j..]) == 0
  {
    var coming := Pending(h)[j..];
    DisconnectRealigns(h, j);
    AccountIs(h, coming);
  }

  lemma AccountIs(h: Host, coming: seq<Bytes>)
    requires Inv(h)
    ensures Inv(Reconnected(h, coming)) <==>
            InStep(Link(coming, [], [], h.link.wire)) && AcksIn(coming) == 0
  {
    var t := Reconnected(h, coming);
    assert Pending(t) == coming && t.accepted[t.since..] == [];
  }
}
