/**
 * The BLE UART host as the driver keeps it: static buffers and counters changed
 * in place (arch/ambiq/tiku_ble_uart.c), over framed transfers with the radio
 * (arch/ambiq/tiku_em9305.c).
 *
 * Every method says which steps of BleHost it took.  The theorems about runs of
 * those steps are thereby theorems about this code.
 */
module BleUart {
  import opened Words
  import opened BleStream
  import opened BleHost

  // ---------------------------------------------------------------------------
  // Packets on their way out
  // ---------------------------------------------------------------------------

  function Lo(x: u16): u8 { x % 0x100 }

  function Hi(x: u16): u8 { x / 0x100 }

  /** The ACL packet bleuart_l2cap_send builds around a PDU. */
  function AclPacket(handle: u16, cid: u16, pdu: Bytes): Bytes
    requires |pdu| <= SERVER_MTU
  {
    var acl := 4 + |pdu|;
    [ACL, Lo(handle), Hi(handle) % 0x10, Lo(acl), Hi(acl), Lo(|pdu|), Hi(|pdu|), Lo(cid), Hi(cid)] + pdu
  }

  lemma LoHi(x: u16)
    ensures Lo(x) + 0x100 * Hi(x) == x && Lo(x) + 0x100 * (Hi(x) % 0x10) == x % 0x1000
  {
  }

  lemma AclPacketFields(handle: u16, cid: u16, pdu: Bytes)
    requires |pdu| <= SERVER_MTU
    ensures var p := AclPacket(handle, cid, pdu);
            && |p| == 9 + |pdu| && Whole(p)
            && Rd16(p, 1) == handle % 0x1000 && Rd16(p, 5) == |pdu| && Rd16(p, 7) == cid
  {
    LoHi(handle);
    LoHi(4 + |pdu|);
    LoHi(|pdu|);
    LoHi(cid);
  }

  /** What is built is one whole packet by the same header rules the stream is
      taken apart with, and its fields read back. */
  lemma AclPacketReadsBack(handle: u16, cid: u16, pdu: Bytes, tail: Bytes)
    requires |pdu| <= SERVER_MTU
    ensures var p := AclPacket(handle, cid, pdu);
            && Extract(p + tail, PACKET_CAP) == (p, tail)
            && Rd16(p, 1) == handle % 0x1000
            && Rd16(p, 5) == |pdu| && Rd16(p, 7) == cid && p[9..] == pdu
  {
    AclPacketFields(handle, cid, pdu);
    var p := AclPacket(handle, cid, pdu);
    Prepend(p, tail);
    assert Announced(p + tail) == Announced(p);
  }

  /** A TX notification: opcode 0x1B, value handle 5. */
  function Notification(payload: Bytes): Bytes { [0x1B, 5, 0] + payload }

  // ---------------------------------------------------------------------------
  // Steps taken
  // ---------------------------------------------------------------------------

  /** One more step on a run. */
  lemma Took(h: Host, es: seq<Event>, m: Host, e: Event)
    requires Reaches(h, es, m) && Inv(m) && Legal(m, e)
    ensures Reaches(h, es + [e], Step(m, e)) && Inv(Step(m, e))
  {
    Reach1(m, e);
    Reach2(h, es, m, [e], Step(m, e));
    StepKeepsInv(m, e);
  }

  /** Only the radio's side moves: packets arrive, frames are read. */
  ghost predicate AirOnly(es: seq<Event>) { forall i :: 0 <= i < |es| ==> es[i].Radio? || es[i].Frame? }

  /** Nothing, or an ATT response after what the radio did meanwhile. */
  ghost predicate Answers(es: seq<Event>) {
    && (es != [] ==> es[|es| - 1].Respond?)
    && forall i :: 0 <= i < |es| - 1 ==> es[i].Radio? || es[i].Frame?
  }

  /** A flush, after what the radio did meanwhile. */
  ghost predicate Flushes(es: seq<Event>) {
    && es != [] && es[|es| - 1].Flush?
    && forall i :: 0 <= i < |es| - 1 ==> es[i].Radio? || es[i].Frame?
  }

  ghost predicate NoPut(es: seq<Event>) { forall i :: 0 <= i < |es| ==> !es[i].Put? }

  /** A poll and then a flush. */
  lemma PolledAndFlushed(h: Host, slurped: seq<Event>, answer: seq<Event>, m: Host, flush: seq<Event>, t: Host)
    requires AirOnly(slurped) && Answers(answer) && Flushes(flush)
    requires Reaches(h, slurped + [Receive] + answer, m) && Reaches(m, flush, t)
    ensures var es := slurped + [Receive] + answer + flush; NoPut(es) && Reaches(h, es, t)
  {
    Reach2(h, slurped + [Receive] + answer, m, flush, t);
  }

  /** A run without putc goes on. */
  lemma WaitedOn(h: Host, a: seq<Event>, m: Host, b: seq<Event>, t: Host)
    requires NoPut(a) && NoPut(b) && Reaches(h, a, m) && Reaches(m, b, t)
    ensures NoPut(a + b) && Reaches(h, a + b, t)
  {
    Reach2(h, a, m, b, t);
  }

  /** The fields the radio's side does not touch are as in h. */
  ghost predicate SameHost(h: Host, t: Host) {
    t == h.(link := t.link, held := t.held) && t.link.got == h.link.got
  }

  /** The radio was found not ready, or the buffer filled up, or it took sixteen
      bytes or more. */
  ghost predicate Drained(h: Host, t: Host, was: nat, notReady: nat) {
    was < notReady || |t.link.stream| == STREAM_CAP || |t.link.stream| >= |h.link.stream| + 16
  }

  lemma {:induction false} AirTouchesNoStatics(h: Host, es: seq<Event>)
    requires LegalRun(h, es) && AirOnly(es)
    ensures SameHost(h, Run(h, es))
    decreases es
  {
    if es != [] {
      AirTouchesNoStatics(Step(h, es[0]), es[1..]);
    }
  }

  /** The queue after n bytes of it were notified. */
  function Sent(h: Host, n: nat): Host
    requires n <= |h.tx|
  {
    h.(tx := h.tx[n..], notified := h.notified + h.tx[..n])
  }

  /** A flush with a credit is a send, then, if that worked, the loss of the bytes
      sent; what the radio does before the send changes nothing about it. */
  lemma NotifyStep(h: Host, mid: Host, ok: bool, kept: bool)
    requires Sane(h) && Notifies(h) && SameHost(h, mid)
    ensures NoteSize(mid) == NoteSize(h) && Notifies(mid) && 0 <= NoteSize(h) <= |h.tx|
    ensures FlushStep(mid, ok, kept) ==
            if ok then Sent(SendAcl(mid, ok, kept), NoteSize(h)) else SendAcl(mid, ok, kept)
  {
  }

  /** A notification is a legal flush behind what the radio did before it. */
  lemma NoteTaken(h: Host, es: seq<Event>, mid: Host, ok: bool, kept: bool)
    requires Inv(h) && !h.owed && Notifies(h) && SameHost(h, mid) && Inv(mid)
    requires Reaches(h, es, mid) && AirOnly(es) && (mid.held < mid.credits ==> kept)
    ensures 0 <= NoteSize(h) <= |h.tx|
    ensures var t := if ok then Sent(SendAcl(mid, ok, kept), NoteSize(h)) else SendAcl(mid, ok, kept);
            Reaches(h, es + [Event.Flush(ok, kept)], t) && Inv(t)
    ensures Flushes(es + [Event.Flush(ok, kept)])
  {
    NotifyStep(h, mid, ok, kept);
    Took(h, es, mid, Event.Flush(ok, kept));
  }

  /** The ring's bytes, oldest first. */
  function Ring(a: seq<u8>, head: nat, tail: nat): Bytes
    requires |a| == RX_CAP + 1 && head <= RX_CAP && tail <= RX_CAP
  {
    if tail <= head then a[tail..head] else a[tail..] + a[..head]
  }

  /** The ring holds 255 bytes exactly when the next head would meet the tail;
      otherwise storing a byte at the head appends it. */
  lemma RingPush(a: seq<u8>, head: nat, tail: nat, c: u8)
    requires |a| == RX_CAP + 1 && head <= RX_CAP && tail <= RX_CAP
    ensures var nxt := (head + 1) % (RX_CAP + 1);
            && |Ring(a, head, tail)| <= RX_CAP
            && (nxt == tail <==> |Ring(a, head, tail)| == RX_CAP)
            && (nxt != tail ==> Ring(a[head := c], nxt, tail) == Ring(a, head, tail) + [c])
  {
  }

  /** Pushing one byte more: it is appended, or the ring is full and stays so. */
  lemma PushOneMore(was: Bytes, d: Bytes, i: nat)
    requires |was| <= RX_CAP && i < |d|
    ensures var q := BleHost.RxPush(was, d[..i]);
            if |q| < RX_CAP then BleHost.RxPush(was, d[..i + 1]) == q + [d[i]]
            else BleHost.RxPush(was, d) == q + []
  {
    var room := RX_CAP - |was|;
    if i < room {
      assert d[..i][..i] == d[..i] && d[..i + 1][..i + 1] == d[..i + 1];
      assert (was + d[..i]) + [d[i]] == was + d[..i + 1];
    } else {
      assert d[..i][..room] == d[..room];
    }
  }

  lemma Prepend(x: Bytes, y: Bytes)
    ensures (x + y)[..|x|] == x && (x + y)[|x|..] == y && (x == [] ==> x + y == y)
  {
  }

  lemma InFront(x: Bytes, out: Bytes, was: Bytes)
    requires |out| <= |was| && x == out + was[|out|..]
    ensures |out| <= |x| && x[..|out|] == out
  {
  }

  lemma TakenIs(h: Host)
    requires |h.pkt| == PACKET_CAP
    ensures var (out, rest) := Extract(h.link.stream, PACKET_CAP);
            && |out| <= PACKET_CAP
            && Taken(h) == h.(link := Taken(h).link, pkt := out + h.pkt[|out|..])
            && Taken(h).link.wire == h.link.wire && Taken(h).link.stream == rest
  {
    assert h.pkt[0..] == h.pkt;
  }

  lemma DropFirst(x: Bytes, y: Bytes)
    requires x != []
    ensures (x + y)[1..] == x[1..] + y
  {
  }

  lemma SliceTail(a: Bytes, i: nat, j: nat)
    requires i < |a| && j <= |a|
    ensures i < j ==> a[i..j][1..] == a[i + 1..j]
    ensures a[i..][1..] == a[i + 1..]
  {
  }

  /** Taking the byte at the tail removes the oldest. */
  lemma RingPop(a: seq<u8>, head: nat, tail: nat)
    requires |a| == RX_CAP + 1 && head <= RX_CAP && tail <= RX_CAP && head != tail
    ensures Ring(a, head, tail) != [] && Ring(a, head, tail)[0] == a[tail]
    ensures Ring(a, head, (tail + 1) % (RX_CAP + 1)) == Ring(a, head, tail)[1..]
  {
    var r, nxt := Ring(a, head, tail), (tail + 1) % (RX_CAP + 1);
    if tail < head {
      SliceTail(a, tail, head);
    } else if nxt == 0 {
      DropFirst(a[tail..], a[..head]);
      assert a[tail..][1..] == [];
      assert Ring(a, head, 0) == a[..head];
    } else {
      DropFirst(a[tail..], a[..head]);
      SliceTail(a, tail, |a|);
      assert Ring(a, head, nxt) == a[nxt..] + a[..head];
    }
  }

  /** memmove of what lies between two indices to the front. */
  method CloseUp(a: array<u8>, gone: nat, len: nat)
    requires gone <= len <= a.Length
    modifies a
    ensures a[..len - gone] == old(a[gone..len])
  {
    ghost var rest := a[gone..len];
    forall i | 0 <= i < len - gone { a[i] := a[gone + i]; }
    assert forall i :: 0 <= i < len - gone ==> a[i] == rest[i];
  }

  /** memcpy of the first n bytes. */
  method CopyFront(from: array<u8>, to: array<u8>, n: nat)
    requires from != to && n <= from.Length && n <= to.Length
    modifies to
    ensures to[..] == from[..n] + old(to[n..])
  {
    ghost var front, rest := from[..n], to[n..];
    forall i | 0 <= i < n { to[i] := from[i]; }
    assert to[..n] == front && to[n..] == rest;
  }

  class Uart {
    var wire: Bytes                 // bytes the radio has for the host
    var held: nat                   // the controller's occupied ACL buffers
    var air: Bytes                  // bytes written to the radio
    const s_stream: array<u8>
    var s_stream_len: nat
    const s_pkt: array<u8>
    var s_handle: u16
    var s_att_mtu: u16
    var s_tx_cccd: u16
    var s_acl_inflight: nat
    var s_acl_credits: nat
    var s_acl_pkt_len: u16
    var s_ll_tx_octets: u16
    const s_rx_ring: array<u8>
    var s_rx_head: nat
    var s_rx_tail: nat
    const s_tx_buf: array<u8>
    var s_tx_len: nat
    ghost var h: Host
    ghost var notReady: nat         // how often a read found the radio not ready
    ghost var looks: nat            // framed reads
    ghost var failures: nat         // how often the transport failed a send
    ghost var pumps: nat            // rounds of putc's wait

    ghost predicate Shape()
      reads this
    {
      && s_stream.Length == STREAM_CAP && s_stream_len <= STREAM_CAP && s_pkt.Length == PACKET_CAP
      && s_rx_ring.Length == RX_CAP + 1 && s_rx_head <= RX_CAP && s_rx_tail <= RX_CAP
      && s_tx_buf.Length == TX_CAP && s_tx_len <= TX_CAP
      && s_stream != s_pkt && s_stream != s_rx_ring && s_stream != s_tx_buf
      && s_pkt != s_rx_ring && s_pkt != s_tx_buf && s_rx_ring != s_tx_buf
    }

    ghost predicate Coupled()
      reads this, s_stream, s_pkt, s_rx_ring, s_tx_buf
    {
      && Shape()
      && wire == h.link.wire && held == h.held && s_stream[..s_stream_len] == h.link.stream && s_pkt[..] == h.pkt
      && s_handle == h.handle && s_att_mtu == h.mtu && s_tx_cccd == h.cccd
      && s_acl_inflight == h.inflight && s_acl_credits == h.credits && s_acl_pkt_len == h.pktLen
      && s_ll_tx_octets == h.llOctets
      && Ring(s_rx_ring[..], s_rx_head, s_rx_tail) == h.rx && s_tx_buf[..s_tx_len] == h.tx
    }

    ghost predicate Valid()
      reads this, s_stream, s_pkt, s_rx_ring, s_tx_buf
    {
      Coupled() && Inv(h)
    }

    // -------------------------------------------------------------------------
    // The radio
    // -------------------------------------------------------------------------

    /** The controller may queue another packet; an acknowledgement is for
        packets it holds. */
    method Controller() returns (ghost es: seq<Event>)
      requires Valid()
      modifies `wire, `held, `h
      ensures Valid() && Reaches(old(h), es, h) && AirOnly(es)
    {
      es := [];
      var p: Bytes := *;
      if Whole(p) && |p| <= STREAM_CAP && Acks(p) <= held {
        wire, held := wire + p, held - Acks(p);
        Took(h, es, h, Radio(p));
        es := [Radio(p)];
        h := Step(h, Radio(p));
      }
    }

    /** The frame's transfer: n bytes leave the radio and end up behind those
        buffered. */
    method ReadIn(n: nat)
      requires Shape() && s_stream_len + n <= STREAM_CAP && n <= |wire|
      modifies `wire, `s_stream_len, s_stream
      ensures Shape() && wire == old(wire[n..]) && s_stream_len == old(s_stream_len) + n
      ensures s_stream[..s_stream_len] == old(s_stream[..s_stream_len] + wire[..n])
    {
      forall i | 0 <= i < n { s_stream[s_stream_len + i] := wire[i]; }
      wire, s_stream_len := wire[n..], s_stream_len + n;
    }

    /** tiku_em9305_recv into the stream buffer: one framed read of as many bytes
        as the status byte reports and the buffer has room for. */
    method Recv() returns (n: nat, ghost es: seq<Event>)
      requires Valid() && s_stream_len < STREAM_CAP
      modifies `wire, `held, `h, `notReady, `looks, `s_stream_len, s_stream
      ensures Valid() && Reaches(old(h), es, h) && AirOnly(es)
      ensures s_stream_len == old(s_stream_len) + n
      ensures notReady == old(notReady) + (if n == 0 then 1 else 0) && looks == old(looks) + 1
    {
      looks := looks + 1;
      es := Controller();
      var sts2: u8 :| true;
      if sts2 == 0 || sts2 > |wire| {                      // not ready
        notReady := notReady + 1;
        return 0, es;
      }
      n := Min(sts2, STREAM_CAP - s_stream_len);
      es := Frame(n, old(h), es);
    }

    /** The transfer as a step behind es. */
    method Frame(n: nat, ghost was: Host, ghost es: seq<Event>) returns (ghost es': seq<Event>)
      requires Valid() && Legal(h, Event.Frame(n)) && Reaches(was, es, h) && AirOnly(es)
      modifies `wire, `h, `s_stream_len, s_stream
      ensures Valid() && Reaches(was, es', h) && AirOnly(es') && s_stream_len == old(s_stream_len) + n
    {
      Took(was, es, h, Event.Frame(n));
      ReadIn(n);
      h, es' := Step(h, Event.Frame(n)), es + [Event.Frame(n)];
    }

    /** bleuart_slurp: until the radio is not ready, the buffer is full, or sixteen
        frames of at least a byte each are in. */
    method Slurp() returns (ghost es: seq<Event>)
      requires Valid()
      modifies `wire, `held, `h, `notReady, `looks, `s_stream_len, s_stream
      ensures Valid() && Reaches(old(h), es, h) && AirOnly(es) && SameHost(old(h), h)
      ensures Drained(old(h), h, old(notReady), notReady) && looks <= old(looks) + 16
    {
      es := [];
      var guard := 16;
      while guard > 0 && s_stream_len < STREAM_CAP
        invariant Valid() && Reaches(old(h), es, h) && AirOnly(es)
        invariant looks + guard <= old(looks) + 16
        invariant notReady == old(notReady) && s_stream_len + guard >= old(s_stream_len) + 16
        decreases guard
      {
        guard := guard - 1;
        ghost var before := h;
        var l;
        ghost var more;
        l, more := Recv();
        Reach2(old(h), es, before, more, h);
        es := es + more;
        if l == 0 { break; }
      }
      AirTouchesNoStatics(old(h), es);
    }

    /** The resynchronising loop of bleuart_stream_extract: drop a byte at a time
        until a packet type is in front. */
    method Resync()
      requires Shape()
      modifies `s_stream_len, s_stream
      ensures Shape() && (s_stream_len > 0 ==> Typed(s_stream[..s_stream_len]))
      ensures Extract(s_stream[..s_stream_len], PACKET_CAP) == Extract(old(s_stream[..s_stream_len]), PACKET_CAP)
    {
      while s_stream_len > 0 && s_stream[0] != EVENT && s_stream[0] != ACL
        invariant Shape()
        invariant Extract(s_stream[..s_stream_len], PACKET_CAP) == Extract(old(s_stream[..s_stream_len]), PACKET_CAP)
        decreases s_stream_len
      {
        ghost var b := s_stream[..s_stream_len];
        CloseUp(s_stream, 1, s_stream_len);
        s_stream_len := s_stream_len - 1;
        assert s_stream[..s_stream_len] == b[1..];
      }
    }

    /** Copy the packet out and close up the buffer behind it. */
    method TakeFront(full: nat) returns (need: nat)
      requires Shape() && full <= s_stream_len
      modifies `s_stream_len, s_stream, s_pkt
      ensures Shape() && need == Min(full, PACKET_CAP)
      ensures s_pkt[..] == old(s_stream[..need]) + old(s_pkt[need..])
      ensures s_stream[..s_stream_len] == old(s_stream[full..s_stream_len])
    {
      need := Min(full, PACKET_CAP);
      CopyFront(s_stream, s_pkt, need);
      CloseUp(s_stream, full, s_stream_len);
      s_stream_len := s_stream_len - full;
    }

    /** The length in the header in front, once the header is complete. */
    method PacketLength() returns (full: Option<u16>)
      requires Shape() && Typed(s_stream[..s_stream_len])
      ensures var b := s_stream[..s_stream_len];
              full == if |b| < Header(b) then None else Some(Need(b))
    {
      if s_stream[0] == EVENT {
        if s_stream_len < 3 { return None; }
        return Some(Low16(3 + s_stream[2] as int));
      }
      if s_stream_len < 5 { return None; }
      return Some(Low16(5 + s_stream[3] as int + 0x100 * s_stream[4] as int));
    }

    /** bleuart_stream_extract into s_pkt. */
    method StreamExtract() returns (need: nat)
      requires Shape()
      modifies `s_stream_len, s_stream, s_pkt
      ensures Shape()
      ensures var (out, rest) := Extract(old(s_stream[..s_stream_len]), PACKET_CAP);
              && need == |out| && s_pkt[..] == out + old(s_pkt[..])[need..]
              && s_stream[..s_stream_len] == rest
    {
      Resync();
      if s_stream_len == 0 { return 0; }
      var full := PacketLength();
      if full.None? { return 0; }
      if full.value > STREAM_CAP {
        s_stream_len := 0;
        return 0;
      }
      if s_stream_len < full.value { return 0; }
      need := TakeFront(full.value);
    }

    // -------------------------------------------------------------------------
    // Sending
    // -------------------------------------------------------------------------

    /** tiku_em9305_send: all of the data in order, in as many frames as the
        radio's free space asks for; a failure stops somewhere in the middle. */
    method Send(data: Bytes) returns (ok: bool)
      modifies `air, `failures
      ensures old(air) <= air && air[|old(air)|..] <= data
      ensures ok ==> air == old(air) + data && data != []
      ensures ok || data == [] || failures == old(failures) + 1
    {
      if data == [] { return false; }
      var sent := 0;
      while sent < |data|
        invariant sent <= |data| && air == old(air) + data[..sent] && failures == old(failures)
      {
        var sts2: u8, rc: bool :| true;
        if sts2 == 0 {
          failures := failures + 1;
          return false;
        }
        var chunk := Min(|data| - sent, sts2);
        assert data[..sent + chunk] == data[..sent] + data[sent..sent + chunk];
        air := air + data[sent..sent + chunk];
        if !rc {
          failures := failures + 1;
          return false;
        }
        sent := sent + chunk;
      }
      ok := true;
    }

    /** A packet handed to the transport.  `kept` says whether the controller had
        a buffer for it: it has while fewer than its count are in use. */
    method HandOver(out: Bytes) returns (rc: bool, ghost kept: bool)
      requires Coupled() && Up(h) && out != []
      modifies `held, `h, `s_acl_inflight, `air, `failures
      ensures Coupled() && h == SendAcl(old(h), rc, kept) && (old(h).held < h.credits ==> kept)
      ensures if rc then air == old(air) + out else failures == old(failures) + 1
    {
      kept := true;
      rc := Send(out);
      if !rc { return; }
      s_acl_inflight := s_acl_inflight + 1;
      var room: bool :| held < s_acl_credits ==> room;
      kept := room;
      if room { held := held + 1; }
      h := SendAcl(h, true, kept);
    }

    /** bleuart_l2cap_send: pending frames are taken in first, which leaves the
        host in the state `mid`; then the packet goes out. */
    method L2capSend(cid: u16, pdu: Bytes) returns (rc: bool, ghost es: seq<Event>, ghost mid: Host, ghost kept: bool)
      requires Valid()
      modifies `wire, `held, `h, `notReady, `looks, `s_stream_len, s_stream, `s_acl_inflight, `air, `failures
      ensures Coupled() && Inv(mid) && Reaches(old(h), es, mid) && AirOnly(es) && SameHost(old(h), mid)
      ensures h == SendAcl(mid, rc, kept) && (mid.held < mid.credits ==> kept) && (rc ==> Up(mid))
      ensures rc ==> air == old(air) + AclPacket(s_handle, cid, pdu[..Min(|pdu|, SERVER_MTU)])
      ensures rc || !Up(mid) || failures == old(failures) + 1
    {
      if s_handle == NO_HANDLE { return false, [], h, true; }
      var out := AclPacket(s_handle, cid, pdu[..Min(|pdu|, SERVER_MTU)]);
      es := Slurp();
      mid := h;
      rc, kept := HandOver(out);
    }

    // -------------------------------------------------------------------------
    // Receiving
    // -------------------------------------------------------------------------

    /** Store a byte in the ring unless it is full. */
    method PushByte(c: u8) returns (stored: bool)
      requires Shape()
      modifies s_rx_ring, `s_rx_head
      ensures Shape() && stored == (|old(Ring(s_rx_ring[..], s_rx_head, s_rx_tail))| < RX_CAP)
      ensures Ring(s_rx_ring[..], s_rx_head, s_rx_tail) ==
              old(Ring(s_rx_ring[..], s_rx_head, s_rx_tail)) + (if stored then [c] else [])
    {
      var nxt := (s_rx_head + 1) % (RX_CAP + 1);
      ghost var a := s_rx_ring[..];
      RingPush(a, s_rx_head, s_rx_tail, c);
      stored := nxt != s_rx_tail;
      if stored {
        s_rx_ring[s_rx_head] := c;
        assert s_rx_ring[..] == a[s_rx_head := c];
        s_rx_head := nxt;
      }
    }

    /** bleuart_rx_push. */
    method RxPush(d: Bytes)
      requires Shape() && |Ring(s_rx_ring[..], s_rx_head, s_rx_tail)| <= RX_CAP
      modifies s_rx_ring, `s_rx_head
      ensures Shape()
      ensures Ring(s_rx_ring[..], s_rx_head, s_rx_tail) ==
              BleHost.RxPush(old(Ring(s_rx_ring[..], s_rx_head, s_rx_tail)), d)
    {
      ghost var was := Ring(s_rx_ring[..], s_rx_head, s_rx_tail);
      var i := 0;
      while i < |d|
        invariant i <= |d| && Shape()
        invariant Ring(s_rx_ring[..], s_rx_head, s_rx_tail) == BleHost.RxPush(was, d[..i])
      {
        PushOneMore(was, d, i);
        var stored := PushByte(d[i]);
        if !stored { return; }
        i := i + 1;
      }
      assert d[..i] == d;
    }

    /** The CCCD and RX value branches of a write request or command. */
    method WriteValue(target: u16, len: nat)
      requires Coupled() && Sane(h) && 3 <= len && 9 + len <= PACKET_CAP && (target == 6 || target == 3)
      modifies `s_tx_cccd, `s_rx_head, `h, s_rx_ring
      ensures Coupled()
      ensures h == if target == 6
                   then old(h).(cccd := if len >= 4 then Rd16(old(h).pkt, 12) else old(h).pkt[12])
                   else old(h).(rx := BleHost.RxPush(old(h).rx, old(h).pkt[12..9 + len]))
    {
      if target == 6 {
        s_tx_cccd := if len >= 4 then Rd16(s_pkt[..], 12) else s_pkt[12];
        h := h.(cccd := s_tx_cccd);
      } else {
        RxPush(s_pkt[12..9 + len]);
        h := h.(rx := BleHost.RxPush(h.rx, h.pkt[12..9 + len]));
      }
    }

    /** What bleuart_att_handle does to the statics, and whether it answers. */
    method Serve(len: nat) returns (responds: bool)
      requires Coupled() && Sane(h) && 9 + len <= PACKET_CAP
      modifies `s_att_mtu, `s_tx_cccd, `s_rx_head, `h, s_rx_ring
      ensures Coupled() && h == OnAtt(old(h), len).0 && responds == OnAtt(old(h), len).1
    {
      if len < 1 { return false; }
      var op := s_pkt[9];
      if op == 0x02 {
        var cli := if len >= 3 then Rd16(s_pkt[..], 10) else 23;
        s_att_mtu := if cli < SERVER_MTU then cli else SERVER_MTU;
        if s_att_mtu < 23 { s_att_mtu := 23; }
        h := h.(mtu := s_att_mtu);
        return true;
      }
      if (op == 0x12 || op == 0x52) && len >= 3 {
        var target := Rd16(s_pkt[..], 10);
        if target == 6 || target == 3 { WriteValue(target, len); }
        return op == 0x12;
      }
      return true;
    }

    /** bleuart_att_handle on the len bytes at offset 9: what the request does to
        the host, then its response.  The response's contents are left open. */
    method AttHandle(len: nat) returns (ghost es: seq<Event>)
      requires Valid() && !h.owed && 9 + len <= PACKET_CAP
      modifies this, s_stream, s_rx_ring
      ensures Valid() && !h.owed && Answers(es)
      ensures var (t, responds) := OnAtt(old(h), len); Reaches(t.(owed := responds), es, h)
    {
      OnAttKeeps(h, len);
      var responds := Serve(len);
      h := h.(owed := responds);
      es := [];
      if responds { es := Answer(); }
    }

    /** The response a request owes, whatever it says. */
    method Answer() returns (ghost es: seq<Event>)
      requires Valid() && h.owed
      modifies this, s_stream
      ensures Valid() && !h.owed && Answers(es) && Reaches(old(h), es, h)
    {
      var pdu: Bytes :| true;
      var sent;
      sent, es := Reply(pdu);
    }

    /** bleuart_att_send: on channel 4. */
    method Reply(pdu: Bytes) returns (sent: bool, ghost es: seq<Event>)
      requires Valid() && h.owed
      modifies this, s_stream
      ensures Valid() && !h.owed && Answers(es) && Reaches(old(h), es, h)
      ensures sent ==> air == old(air) + AclPacket(h.handle, 4, pdu[..Min(|pdu|, SERVER_MTU)])
      ensures sent || !Up(h) || failures == old(failures) + 1
    {
      ghost var mid, kept;
      sent, es, mid, kept := L2capSend(4, pdu);
      Took(old(h), es, mid, Respond(sent, kept));
      es := es + [Respond(sent, kept)];
      h := h.(owed := false);
    }

    /** The loop over the entries of a Number Of Completed Packets event. */
    method Acknowledge(len: nat)
      requires Coupled() && 4 <= len <= PACKET_CAP
      modifies `s_acl_inflight, `h
      ensures Coupled() && h == old(h).(inflight := AckLoop(old(h).inflight, s_pkt[..len], 0, s_pkt[3]))
    {
      var nh: nat, i: nat := s_pkt[3], 0;
      while i < nh
        invariant i <= nh && h == old(h)
        invariant AckLoop(s_acl_inflight, s_pkt[..len], i, nh) == AckLoop(old(s_acl_inflight), s_pkt[..len], 0, nh)
      {
        var off := 4 + i * 4 + 2;
        if off + 1 < len {
          assert Rd16(s_pkt[..len], off) == Rd16(s_pkt[..], off);
          var cnt := Rd16(s_pkt[..], off);
          s_acl_inflight := if cnt > s_acl_inflight then 0 else s_acl_inflight - cnt;
        }
        i := i + 1;
      }
      h := h.(inflight := s_acl_inflight);
    }

    /** The Disconnection Complete part of bleuart_on_event. */
    method Disconnected()
      requires Coupled()
      modifies this
      ensures Coupled() && h == Unlink(old(h))
    {
      assert Ring(s_rx_ring[..], 0, 0) == [];
      s_handle, s_att_mtu, s_tx_cccd := NO_HANDLE, 23, 0;
      s_rx_head, s_rx_tail, s_tx_len := 0, 0, 0;
      s_acl_inflight, s_stream_len, s_ll_tx_octets := 0, 0, 27;
      h := Unlink(h);
    }

    /** The LE Meta part of bleuart_on_event: Data Length Change and the two
        Connection Complete events. */
    method LeMeta(len: nat)
      requires Coupled() && 4 <= len <= PACKET_CAP
      modifies `s_ll_tx_octets, `s_handle, `h
      ensures Coupled() && h == OnMeta(old(h), s_pkt[..len])
    {
      if s_pkt[3] == 0x07 && len >= 8 {
        var tx := Rd16(s_pkt[..len], 6);
        if tx >= 27 { s_ll_tx_octets := tx; }
      } else if (s_pkt[3] == 0x01 || s_pkt[3] == 0x0A) && len >= 15 && s_pkt[4] == 0 {
        s_handle := Rd16(s_pkt[..len], 5) % 0x1000;
      }
      h := h.(llOctets := s_ll_tx_octets, handle := s_handle);
    }

    /** bleuart_on_event on the first len bytes of the packet buffer. */
    method OnEvent(len: nat)
      requires Coupled() && 1 <= len <= PACKET_CAP
      modifies this
      ensures Coupled() && h == BleHost.OnEvent(old(h), s_pkt[..len])
    {
      if len < 2 { return; }
      if s_pkt[1] == 0x13 && len >= 4 {
        Acknowledge(len);
      } else if s_pkt[1] == 0x05 && len >= 6 {
        Disconnected();
      } else if s_pkt[1] == 0x3E && len >= 4 {
        LeMeta(len);
      }
    }

    /** bleuart_on_acl on the first len bytes of the packet buffer. */
    method OnAcl(len: nat) returns (ghost es: seq<Event>)
      requires Valid() && !h.owed && len <= PACKET_CAP
      modifies this, s_stream, s_rx_ring
      ensures Valid() && !h.owed && Answers(es)
      ensures Reaches(BleHost.OnAcl(old(h), len), es, h)
    {
      es := [];
      if len < 5 { return; }
      if s_handle == NO_HANDLE {
        s_handle := Rd16(s_pkt[..], 1) % 0x1000;
        h := h.(handle := s_handle);
      }
      if len < 9 || Rd16(s_pkt[..], 7) != 4 { return; }
      es := AttHandle(Min(len - 9, Rd16(s_pkt[..], 5)));
    }

    method TakePacket() returns (len: nat)
      requires Coupled()
      modifies `s_stream_len, `h, s_stream, s_pkt
      ensures Coupled() && h == Taken(old(h)) && len <= PACKET_CAP
      ensures s_pkt[..len] == Extract(old(h).link.stream, PACKET_CAP).0
    {
      ghost var out := Extract(h.link.stream, PACKET_CAP).0;
      TakenIs(h);
      len := StreamExtract();
      InFront(s_pkt[..], out, h.pkt);
      assert s_pkt[..len] == s_pkt[..][..len];
      h := Taken(h);
    }

    /** Dispatch the packet of len bytes just taken, given the state before it
        was taken. */
    method Dispatch(len: nat, ghost was: Host) returns (ghost answer: seq<Event>)
      requires Coupled() && Inv(was) && !was.owed && h == Taken(was) && len <= PACKET_CAP
      requires s_pkt[..len] == Extract(was.link.stream, PACKET_CAP).0
      modifies this, s_stream, s_rx_ring
      ensures Valid() && !h.owed && Answers(answer) && Reaches(ReceiveStep(was), answer, h)
    {
      answer := [];
      ReceiveKeepsInv(was);
      if len == 0 { return; }
      TakeKeepsInv(was);
      if s_pkt[0] == EVENT {
        OnEvent(len);
      } else {
        answer := OnAcl(len);
      }
    }

    /** tiku_ble_uart_poll: take the radio's frames in, dispatch one packet, and
        send the response it asks for. */
    method Poll() returns (ghost slurped: seq<Event>, ghost seen: nat, ghost answer: seq<Event>)
      requires Valid() && !h.owed
      modifies this, s_stream, s_pkt, s_rx_ring
      ensures Valid() && !h.owed && AirOnly(slurped) && Answers(answer)
      ensures Reaches(old(h), slurped + [Receive] + answer, h)
      ensures LegalRun(old(h), slurped) && Drained(old(h), Run(old(h), slurped), old(notReady), seen)
    {
      slurped := Slurp();
      seen := notReady;
      ghost var m := h;
      Took(old(h), slurped, m, Receive);
      var len := TakePacket();
      answer := Dispatch(len, m);
      Reach2(old(h), slurped + [Receive], ReceiveStep(m), answer, h);
    }

    // -------------------------------------------------------------------------
    // Console
    // -------------------------------------------------------------------------

    /** The state tiku_ble_uart_start leaves, with the buffer count and ACL length
        the controller reported. */
    constructor (credits: nat, pktLen: u16)
      requires pktLen >= 27
      ensures Valid() && h == StartState(credits, pktLen, s_pkt[..])
    {
      wire, held, air := [], 0, [];
      s_stream, s_stream_len := new u8[STREAM_CAP](_ => 0), 0;
      s_pkt := new u8[PACKET_CAP](_ => 0);
      s_handle, s_att_mtu, s_tx_cccd := NO_HANDLE, 23, 0;
      s_acl_inflight, s_acl_credits, s_acl_pkt_len, s_ll_tx_octets := 0, credits, pktLen, 27;
      s_rx_ring, s_rx_head, s_rx_tail := new u8[RX_CAP + 1](_ => 0), 0, 0;
      s_tx_buf, s_tx_len := new u8[TX_CAP](_ => 0), 0;
      new;
      h := StartState(credits, pktLen, s_pkt[..]);
      assert Ring(s_rx_ring[..], 0, 0) == [];
    }

    /** tiku_ble_uart_getc. */
    method Getc() returns (c: int, ghost es: seq<Event>)
      requires Valid() && !h.owed
      modifies `s_rx_tail, `h
      ensures Valid() && !h.owed && Reaches(old(h), es, h)
      ensures if old(h).rx == [] then c == -1 && es == [] else c == old(h).rx[0] && es == [Get]
    {
      es := [];
      if s_rx_tail == s_rx_head { return -1, es; }
      Took(h, [], h, Get);
      es := [Get];
      c := Pop();
    }

    method Pop() returns (c: u8)
      requires Coupled() && s_rx_tail != s_rx_head
      modifies `s_rx_tail, `h
      ensures Coupled() && old(h).rx != [] && c == old(h).rx[0] && h == old(h).(rx := old(h).rx[1..])
    {
      RingPop(s_rx_ring[..], s_rx_head, s_rx_tail);
      c := s_rx_ring[s_rx_tail];
      s_rx_tail := (s_rx_tail + 1) % (RX_CAP + 1);
      h := h.(rx := h.rx[1..]);
    }

    /** The size rules of one notification. */
    method PayloadLimit() returns (n: nat)
      requires Coupled() && Sane(h)
      ensures n == NoteSize(h)
    {
      var lim := s_att_mtu - 3;
      if s_acl_pkt_len > 7 && lim > s_acl_pkt_len - 7 { lim := s_acl_pkt_len - 7; }
      if s_ll_tx_octets > 7 && lim > s_ll_tx_octets - 7 { lim := s_ll_tx_octets - 7; }
      n := if s_tx_len < lim then s_tx_len else lim;
    }

    /** Close up the queue behind the n bytes notified. */
    method Shift(n: nat)
      requires Coupled() && n <= s_tx_len
      modifies `s_tx_len, `h, s_tx_buf
      ensures Coupled() && h == Sent(old(h), n)
    {
      ghost var tx := s_tx_buf[..s_tx_len];
      if n < s_tx_len {
        CloseUp(s_tx_buf, n, s_tx_len);
        s_tx_len := s_tx_len - n;
      } else {
        s_tx_len := 0;
      }
      assert s_tx_buf[..s_tx_len] == tx[n..];
      h := Sent(h, n);
    }

    /** Send the first n queued bytes as a notification. */
    method SendNote(n: nat) returns (sent: bool, ghost es: seq<Event>, ghost mid: Host, ghost kept: bool)
      requires Valid() && Notifies(h) && n == NoteSize(h)
      modifies `wire, `held, `h, `notReady, `looks, `s_stream_len, s_stream, `s_acl_inflight, `air, `failures
      ensures Coupled() && Inv(mid) && Reaches(old(h), es, mid) && AirOnly(es) && SameHost(old(h), mid)
      ensures h == SendAcl(mid, sent, kept) && (mid.held < mid.credits ==> kept)
      ensures n <= s_tx_len
      ensures sent ==> air == old(air) + AclPacket(s_handle, 4, Notification(old(h).tx[..n]))
      ensures sent || failures == old(failures) + 1
    {
      NotificationFits(h);
      var pdu := Notification(s_tx_buf[..n]);
      assert s_tx_buf[..n] == h.tx[..n] && pdu[..|pdu|] == pdu;
      sent, es, mid, kept := L2capSend(4, pdu);
    }

    /** The sending half of tiku_ble_uart_flush: the packet written to the radio is
        the head of the queue, and only once it is out does the queue lose it. */
    method Notify() returns (sent: bool, ghost es: seq<Event>)
      requires Valid() && !h.owed && Notifies(h)
      modifies this, s_stream, s_tx_buf
      ensures Valid() && !h.owed && Reaches(old(h), es, h) && Flushes(es)
      ensures sent ==> h.notified == old(h).notified + old(h).tx[..NoteSize(old(h))]
                       && h.tx == old(h).tx[NoteSize(old(h))..]
                       && air == old(air) + AclPacket(h.handle, 4, Notification(old(h).tx[..NoteSize(old(h))]))
      ensures !sent ==> h.notified == old(h).notified && h.tx == old(h).tx && failures == old(failures) + 1
    {
      var n := PayloadLimit();
      ghost var mid, kept;
      sent, es, mid, kept := SendNote(n);
      NoteTaken(old(h), es, mid, sent, kept);
      es := es + [Event.Flush(sent, kept)];
      if sent { Shift(n); }
    }

    /** tiku_ble_uart_flush. */
    method FlushTx() returns (ghost es: seq<Event>)
      requires Valid() && !h.owed
      modifies this, s_stream, s_tx_buf
      ensures Valid() && !h.owed && Reaches(old(h), es, h) && Flushes(es)
      ensures Notifies(old(h)) ==> h.tx == old(h).tx[NoteSize(old(h))..] || failures == old(failures) + 1
    {
      ghost var skip := Event.Flush(false, true);
      es := [skip];
      Took(h, [], h, skip);
      if s_tx_len == 0 { return; }
      if s_handle == NO_HANDLE || s_tx_cccd % 2 == 0 {
        s_tx_len := 0;
        h := DropQueue(h);
        return;
      }
      if s_acl_inflight >= s_acl_credits { return; }
      var sent;
      sent, es := Notify();
    }

    /** tiku_ble_uart_putc: with a full queue, poll and flush until there is room,
        two million times at most.  The byte is stored or dropped. */
    method Putc(c: u8) returns (stored: bool, ghost pump: seq<Event>)
      requires Valid() && !h.owed
      modifies this, s_stream, s_pkt, s_rx_ring, s_tx_buf
      ensures Valid() && !h.owed && NoPut(pump)
      ensures Reaches(old(h), if stored then pump + [Put(c)] else pump, h)
      ensures |old(h).tx| < TX_CAP ==> stored && pump == []
      ensures stored || pumps == old(pumps) + 2_000_000
    {
      pump := [];
      var spins := 2_000_000;
      while s_tx_len >= TX_CAP && spins > 0
        invariant Valid() && !h.owed && NoPut(pump) && Reaches(old(h), pump, h)
        invariant |old(h).tx| < TX_CAP ==> h == old(h) && pump == []
        invariant pumps + spins == old(pumps) + 2_000_000
        decreases spins
      {
        spins := spins - 1;
        ghost var before, was := h, pumps;
        ghost var es := Pump();
        WaitedOn(old(h), pump, before, es, h);
        pump, pumps := pump + es, was + 1;
      }
      if s_tx_len >= TX_CAP { return false, pump; }
      stored := true;
      Took(old(h), pump, h, Put(c));
      Append(c);
    }

    method Append(c: u8)
      requires Valid() && !h.owed && |h.tx| < TX_CAP
      modifies `s_tx_len, `h, s_tx_buf
      ensures Valid() && h == Step(old(h), Put(c))
    {
      StepKeepsInv(h, Put(c));
      s_tx_buf[s_tx_len] := c;
      s_tx_len := s_tx_len + 1;
      h := Step(h, Put(c));
    }

    /** One round of putc's wait. */
    method Pump() returns (ghost es: seq<Event>)
      requires Valid() && !h.owed
      modifies this, s_stream, s_pkt, s_rx_ring, s_tx_buf
      ensures Valid() && !h.owed && NoPut(es) && Reaches(old(h), es, h)
    {
      ghost var slurped, seen, answer := Poll();
      ghost var between := h;
      ghost var flush := FlushTx();
      PolledAndFlushed(old(h), slurped, answer, between, flush, h);
      es := slurped + [Receive] + answer + flush;
    }
  }
}
