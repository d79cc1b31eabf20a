/**
 * What the notification flow control of the BLE UART host comes to: when a
 * connection falls silent for good, and what a short write of the client
 * configuration descriptor does.
 */
module BleCredits {
  import opened Words
  import opened BleStream
  import opened BleHost

  // ---------------------------------------------------------------------------
  // Putting runs together
  // ---------------------------------------------------------------------------

  lemma OneStep(h: Host, e: Event)
    requires Inv(h) && Legal(h, e)
    ensures LegalRun(h, [e]) && Run(h, [e]) == Step(h, e) && Inv(Step(h, e))
  {
    assert [e][1..] == [];
    StepKeepsInv(h, e);
  }

  lemma StepThen(h: Host, e: Event, es: seq<Event>)
    requires Inv(h) && Legal(h, e) && LegalRun(Step(h, e), es)
    ensures LegalRun(h, [e] + es) && Run(h, [e] + es) == Run(Step(h, e), es)
  {
    assert ([e] + es)[0] == e && ([e] + es)[1..] == es;
  }

  // ---------------------------------------------------------------------------
  // Delivering one packet
  // ---------------------------------------------------------------------------

  /** Nothing is buffered, on the way or owed. */
  predicate AtRest(h: Host) { Inv(h) && !h.owed && h.link.stream == [] && h.link.wire == [] }

  lemma WholeIsTaken(p: Bytes)
    requires Whole(p) && |p| <= FRAME_MAX
    ensures Extract(p, PACKET_CAP) == (p, [])
  {
    assert Concat([p]) == p + [] == p;
    ExtractFirst([p], p, [], PACKET_CAP);
    assert p[..|p|] == p && p[|p|..] == [];
  }

  /** The packet is produced. */
  lemma Produced(h: Host, p: Bytes) returns (t: Host)
    requires AtRest(h) && Whole(p) && |p| <= FRAME_MAX && Acks(p) <= h.held
    ensures Legal(h, Radio(p)) && t == Step(h, Radio(p)) && Inv(t) && !t.owed
    ensures t == h.(link := t.link, held := h.held - Acks(p)) && t.link.stream == [] && t.link.wire == p
  {
    t := Step(h, Radio(p));
    StepKeepsInv(h, Radio(p));
    assert [] + p == p;
  }

  /** One frame reads it. */
  lemma Read(h: Host) returns (t: Host)
    requires Inv(h) && !h.owed && h.link.stream == [] && 1 <= |h.link.wire| <= FRAME_MAX
    ensures Legal(h, Event.Frame(|h.link.wire|)) && t == Step(h, Event.Frame(|h.link.wire|)) && Inv(t) && !t.owed
    ensures t == h.(link := t.link) && t.link.stream == h.link.wire && t.link.wire == []
  {
    var n := |h.link.wire|;
    t := Step(h, Event.Frame(n));
    StepKeepsInv(h, Event.Frame(n));
    assert h.link.wire[..n] == h.link.wire && h.link.wire[n..] == [];
  }

  /** What receiving p makes of a host with nothing but p buffered. */
  lemma Received(h: Host, p: Bytes) returns (u: Host)
    requires Holding(h, p) && Whole(p) && |p| <= FRAME_MAX
    ensures u == h.(link := u.link, pkt := p + h.pkt[|p|..]) && u.link.stream == [] && u.link.wire == []
    ensures ReceiveStep(h) == if p[0] == EVENT then OnEvent(u, p) else OnAcl(u, |p|)
  {
    WholeIsTaken(p);
    u := Taken(h);
  }

  /** Only p is buffered, and nothing on the way or owed. */
  predicate Holding(h: Host, p: Bytes) {
    Inv(h) && !h.owed && h.link.stream == p && h.link.wire == []
  }

  ghost predicate Leads(h: Host, e: Event, t: Host) { Inv(h) && Legal(h, e) && t == Step(h, e) }

  lemma ThreeSteps(h0: Host, a: Event, h1: Host, b: Event, h2: Host, c: Event, h3: Host)
    requires Leads(h0, a, h1) && Leads(h1, b, h2) && Leads(h2, c, h3)
    ensures LegalRun(h0, [a, b, c]) && Run(h0, [a, b, c]) == h3
  {
    OneStep(h2, c);
    StepThen(h1, b, [c]);
    StepThen(h0, a, [b] + [c]);
    assert [a] + ([b] + [c]) == [a, b, c];
  }

  /** A packet that fits a frame is produced, read and received: q is the host before
      the receiving. */
  lemma Deliver(h: Host, p: Bytes) returns (es: seq<Event>, q: Host)
    requires AtRest(h) && Whole(p) && |p| <= FRAME_MAX && Acks(p) <= h.held
    ensures Holding(q, p) && q == h.(link := q.link, held := h.held - Acks(p))
    ensures es == [Radio(p), Event.Frame(|p|), Receive] && LegalRun(h, es) && Run(h, es) == ReceiveStep(q)
  {
    var h1 := Produced(h, p);
    q := Read(h1);
    ThreeSteps(h, Radio(p), h1, Event.Frame(|p|), q, Receive, ReceiveStep(q));
    es := [Radio(p), Event.Frame(|p|), Receive];
  }

  // ---------------------------------------------------------------------------
  // A short write of the configuration descriptor
  // ---------------------------------------------------------------------------

  predicate WritesCccd(pdu: Bytes) { |pdu| >= 3 && (pdu[0] == 0x12 || pdu[0] == 0x52) && Rd16(pdu, 1) == 6 }

  predicate Carries(pkt: Bytes, pdu: Bytes) {
    |pkt| == PACKET_CAP && 9 + |pdu| <= PACKET_CAP && pkt[9..9 + |pdu|] == pdu
  }

  /** The descriptor after the request in pkt. */
  function CccdAfter(h: Host, pkt: Bytes, pdu: Bytes): u16
    requires Sane(h) && Carries(pkt, pdu)
  {
    OnAtt(h.(pkt := pkt), |pdu|).0.cccd
  }

  lemma CarriedByte(pkt: Bytes, pdu: Bytes, i: nat)
    requires Carries(pkt, pdu) && i < |pdu|
    ensures pkt[9 + i] == pdu[i]
  {
    assert pkt[9..9 + |pdu|][i] == pdu[i];
  }

  lemma CccdIs(h: Host, pkt: Bytes, pdu: Bytes)
    requires Sane(h) && Carries(pkt, pdu) && WritesCccd(pdu)
    ensures CccdAfter(h, pkt, pdu) == if |pdu| >= 4 then Rd16(pkt, 12) else pkt[12]
  {
    CarriedByte(pkt, pdu, 0);
    CarriedByte(pkt, pdu, 1);
    CarriedByte(pkt, pdu, 2);
  }

  /** The packet buffer with the request in it and c everywhere else. */
  function Around(pdu: Bytes, c: u8): (pkt: Bytes)
    requires 9 + |pdu| <= PACKET_CAP
    ensures Carries(pkt, pdu) && forall i :: 9 + |pdu| <= i < PACKET_CAP ==> pkt[i] == c
  {
    var pkt := seq(9, _ => c) + pdu + seq(PACKET_CAP - 9 - |pdu|, _ => c);
    assert pkt[9..9 + |pdu|] == pdu;
    pkt
  }

  /**
   * What a write leaves in the descriptor depends on the request alone, and then is
   * the value written, if and only if the request carries the two bytes of a value.
   */
  lemma CccdWriteIff(h: Host, pdu: Bytes)
    requires Sane(h) && WritesCccd(pdu) && 9 + |pdu| <= PACKET_CAP
    ensures (forall a: Bytes, b: Bytes :: Carries(a, pdu) && Carries(b, pdu) ==>
                                            CccdAfter(h, a, pdu) == CccdAfter(h, b, pdu)) <==> |pdu| >= 5
    ensures |pdu| >= 5 ==> forall a: Bytes :: Carries(a, pdu) ==> CccdAfter(h, a, pdu) == Rd16(pdu, 3)
  {
    if |pdu| >= 5 {
      forall a: Bytes | Carries(a, pdu) ensures CccdAfter(h, a, pdu) == Rd16(pdu, 3) {
        CccdIs(h, a, pdu);
        CarriedByte(a, pdu, 3);
        CarriedByte(a, pdu, 4);
      }
    } else {
      var a, b := Around(pdu, 0), Around(pdu, 1);
      CccdIs(h, a, pdu);
      CccdIs(h, b, pdu);
      if |pdu| == 4 {
        CarriedByte(a, pdu, 3);
        CarriedByte(b, pdu, 3);
      }
    }
  }

  /** A short ATT request as the central sends it. */
  function AttPacket(pdu: Bytes): Bytes
    requires |pdu| <= 100
  {
    [ACL, 0, 0, 4 + |pdu|, 0, |pdu|, 0, 4, 0] + pdu
  }

  lemma AttPacketIs(pdu: Bytes)
    requires |pdu| <= 100
    ensures var p := AttPacket(pdu);
            && |p| == 9 + |pdu| && Whole(p) && p[0] == ACL && Acks(p) == 0
            && p[9..] == pdu && Rd16(p, 1) == 0 && Rd16(p, 5) == |pdu| && Rd16(p, 7) == 4
  {
  }

  /** The ACL layer passes it on. */
  lemma PassedOn(u: Host, n: nat) returns (v: Host)
    requires Sane(u) && 1 <= n && 9 + n <= PACKET_CAP
    requires Rd16(u.pkt, 1) == 0 && Rd16(u.pkt, 5) == n && Rd16(u.pkt, 7) == 4
    ensures v == (if Up(u) then u else u.(handle := 0))
    ensures OnAcl(u, 9 + n) == OnAtt(v, n).0.(owed := OnAtt(v, n).1)
  {
    v := if Up(u) then u else u.(handle := 0);
  }

  /** A request arrives: v is the host as the ATT layer finds it. */
  lemma AttArrives(q: Host, pdu: Bytes) returns (v: Host)
    requires 1 <= |pdu| <= 100 && Holding(q, AttPacket(pdu))
    ensures Sane(v) && Up(v) && Carries(v.pkt, pdu) && v.link.stream == [] && v.link.wire == []
    ensures v.pkt[9 + |pdu|..] == q.pkt[9 + |pdu|..]
    ensures v == q.(link := v.link, pkt := v.pkt, handle := if Up(q) then q.handle else 0)
    ensures ReceiveStep(q) == OnAtt(v, |pdu|).0.(owed := OnAtt(v, |pdu|).1) && Inv(ReceiveStep(q))
  {
    AttPacketIs(pdu);
    var p := AttPacket(pdu);
    var u := Received(q, p);
    ReceiveKeepsInv(q);
    assert u.pkt[9..9 + |pdu|] == p[9..];
    assert Rd16(u.pkt, 1) == Rd16(p, 1) && Rd16(u.pkt, 5) == Rd16(p, 5) && Rd16(u.pkt, 7) == Rd16(p, 7);
    v := PassedOn(u, |pdu|);
  }

  /** A write command of one byte to the RX value, and one of none to the
      descriptor. */
  predicate IsDataWrite(pdu: Bytes) { |pdu| == 4 && pdu[0] == 0x52 && Rd16(pdu, 1) == 3 }

  predicate IsEmptyCccdWrite(pdu: Bytes) { |pdu| == 3 && pdu[0] == 0x52 && Rd16(pdu, 1) == 6 }

  /** The three steps that deliver a request. */
  function Delivery(pdu: Bytes): seq<Event>
    requires |pdu| <= 100
  {
    [Radio(AttPacket(pdu)), Event.Frame(9 + |pdu|), Receive]
  }

  lemma DeliverData(h: Host, pdu: Bytes) returns (t: Host)
    requires AtRest(h) && Up(h) && IsDataWrite(pdu)
    ensures Reaches(h, Delivery(pdu), t) && AtRest(t) && Up(t) && t.pkt[12] == pdu[3] && t.cccd == h.cccd
  {
    AttPacketIs(pdu);
    var es, q := Deliver(h, AttPacket(pdu));
    var v := AttArrives(q, pdu);
    CarriedByte(v.pkt, pdu, 0);
    CarriedByte(v.pkt, pdu, 1);
    CarriedByte(v.pkt, pdu, 2);
    CarriedByte(v.pkt, pdu, 3);
    t := ReceiveStep(q);
  }

  lemma DeliverEmpty(h: Host, pdu: Bytes) returns (t: Host)
    requires AtRest(h) && Up(h) && IsEmptyCccdWrite(pdu)
    ensures Reaches(h, Delivery(pdu), t) && Up(t) && t.cccd == h.pkt[12]
  {
    AttPacketIs(pdu);
    var es, q := Deliver(h, AttPacket(pdu));
    var v := AttArrives(q, pdu);
    CccdIs(v, v.pkt, pdu);
    assert v.(pkt := v.pkt) == v;
    assert v.pkt[12] == v.pkt[12..][0] == q.pkt[12..][0];
    t := ReceiveStep(q);
  }

  /**
   * So a central that sends one odd byte of data and then a write without a value
   * has switched notifications on.
   */
  lemma DataByteSubscribes(h: Host, data: Bytes, empty: Bytes)
    requires AtRest(h) && Up(h) && !Subscribed(h)
    requires IsDataWrite(data) && data[3] % 2 == 1 && IsEmptyCccdWrite(empty)
    ensures var es := Delivery(data) + Delivery(empty);
            LegalRun(h, es) && Subscribed(Run(h, es)) && Run(h, es).cccd == data[3]
  {
    var t := DeliverData(h, data);
    var u := DeliverEmpty(t, empty);
    RunAppend(h, Delivery(data), Delivery(empty));
  }

  // ---------------------------------------------------------------------------
  // The way into silence
  // ---------------------------------------------------------------------------

  /** A read request, cut to its opcode. */
  function Request(): Bytes { AttPacket([0x0A]) }

  /** What a host and the one it becomes agree on, but for the response owed. */
  predicate SameCounts(h: Host, t: Host) {
    t.alive == h.alive && t.held == h.held && t.lost == h.lost && t.credits == h.credits
  }

  lemma RequestArrives(q: Host)
    requires Holding(q, Request())
    ensures var t := ReceiveStep(q);
            Inv(t) && t.owed && Up(t) && t.link.stream == [] && t.link.wire == [] && SameCounts(q, t)
  {
    var v := AttArrives(q, [0x0A]);
    CarriedByte(v.pkt, [0x0A], 0);
  }

  lemma Answered(u: Host) returns (e: Event, t: Host)
    requires Inv(u) && u.owed && Up(u) && u.alive && u.link.stream == [] && u.link.wire == []
    ensures LegalRun(u, [e]) && t == Run(u, [e]) && AtRest(t) && t.alive && t.credits == u.credits
    ensures if u.held < u.credits then t.held == u.held + 1 && t.lost == u.lost
            else t.held == u.held && t.lost == u.lost + 1
  {
    e := Respond(true, u.held < u.credits);
    OneStep(u, e);
    t := Step(u, e);
  }

  /** A request more: its response takes a buffer, or with none free is lost. */
  lemma OneResponse(h: Host) returns (es: seq<Event>, t: Host)
    requires AtRest(h) && h.alive
    ensures LegalRun(h, es) && t == Run(h, es) && AtRest(t) && t.alive && t.credits == h.credits
    ensures if h.held < h.credits then t.held == h.held + 1 && t.lost == h.lost
            else t.held == h.held && t.lost == h.lost + 1
  {
    AttPacketIs([0x0A]);
    var first, q := Deliver(h, Request());
    RequestArrives(q);
    var e;
    e, t := Answered(ReceiveStep(q));
    RunAppend(h, first, [e]);
    es := first + [e];
  }

  function Short(a: nat, b: nat): nat { if a < b then b - a else 0 }

  /** Requests alone cost every credit, if the controller acknowledges nothing
      meanwhile. */
  lemma {:induction false} RequestsLoseCredits(h: Host) returns (es: seq<Event>)
    requires AtRest(h) && h.alive
    ensures LegalRun(h, es) && Run(h, es).alive && Run(h, es).lost >= h.credits && Run(h, es).credits == h.credits
    decreases Short(h.held, h.credits) + Short(h.lost, h.credits)
  {
    if h.lost >= h.credits {
      es := [];
    } else {
      var first, t := OneResponse(h);
      var rest := RequestsLoseCredits(t);
      RunAppend(h, first, rest);
      es := first + rest;
    }
  }

  /** From the start a legal run gets there, whatever the controller's buffers. */
  lemma SilenceIsReachable(credits: nat, pktLen: u16, pkt: Bytes) returns (es: seq<Event>)
    requires pktLen >= 27 && |pkt| == PACKET_CAP
    ensures var h := StartState(credits, pktLen, pkt);
            LegalRun(h, es) && Run(h, es).alive && Run(h, es).lost >= Run(h, es).credits
  {
    es := RequestsLoseCredits(StartState(credits, pktLen, pkt));
  }

  // ---------------------------------------------------------------------------
  // And when there is a way out
  // ---------------------------------------------------------------------------

  /** The connection is up, and no disconnect is on the way. */
  predicate Live(h: Host) { Inv(h) && h.alive && forall p <- Pending(h) :: !IsDisconnect(p) }

  /** The two agree on the queue, the connection and the controller's buffers. */
  predicate SameLife(h: Host, t: Host) {
    t.tx == h.tx && t.alive == h.alive && t.held == h.held && t.lost == h.lost && t.credits == h.credits
  }

  /** The first pending packet, all of it buffered, is taken. */
  lemma TakeFirst(h: Host)
    requires InStep(h.link) && Pending(h) != [] && Sane(h) && |Pending(h)[0]| <= |h.link.stream|
    ensures var p := Pending(h)[0];
            && Whole(p) && Extract(h.link.stream, PACKET_CAP).0 == Cut(p) != []
            && Taken(h) == h.(link := Taken(h).link, pkt := Cut(p) + h.pkt[|Cut(p)|..])
            && |Taken(h).link.got| <= |Taken(h).link.sent| && Pending(Taken(h)) == Pending(h)[1..]
  {
    var ps := Pending(h);
    SuffixFits(h.link.sent, |h.link.got|);
    ExtractFirst(ps, h.link.stream, h.link.wire, PACKET_CAP);
    assert Whole(ps[0]);
    TakeDelivers(h.link);
    assert ps[1..] == h.link.sent[|h.link.got| + 1..];
  }

  lemma TakenIsSane(h: Host)
    requires Inv(h)
    ensures Sane(Taken(h)) && InOrder(Taken(h))
  {
  }

  /** What the dispatch of p does, p being in the packet buffer. */
  function Dispatched(u: Host, p: Bytes): Host
    requires Sane(u) && Whole(p)
  {
    if p[0] == EVENT then OnEvent(u, p) else OnAcl(u, |Cut(p)|)
  }

  /** Dispatching any packet but a disconnect. */
  lemma DispatchKeeps(u: Host, p: Bytes)
    requires Sane(u) && InOrder(u) && Whole(p) && !IsDisconnect(p)
    ensures SameLife(u, Dispatched(u, p)) && Dispatched(u, p).link == u.link
    ensures Sane(Dispatched(u, p)) && InOrder(Dispatched(u, p))
  {
    if p[0] == EVENT { OnEventKeeps(u, p); } else { OnAclKeeps(u, |Cut(p)|); }
  }

  lemma ReceiveOne(h: Host) returns (t: Host)
    requires Inv(h) && h.alive && !h.owed && Pending(h) != [] && |Pending(h)[0]| <= |h.link.stream|
    requires !IsDisconnect(Pending(h)[0])
    ensures t == ReceiveStep(h) && Inv(t) && SameLife(h, t) && Pending(t) == Pending(h)[1..]
    ensures Whole(Pending(h)[0]) && Sane(Taken(h)) && t == Dispatched(Taken(h), Pending(h)[0])
    ensures Taken(h) == h.(link := Taken(h).link, pkt := Cut(Pending(h)[0]) + h.pkt[|Cut(Pending(h)[0])|..])
  {
    var p := Pending(h)[0];
    TakeFirst(h);
    TakenIsSane(h);
    ReceiveKeepsInv(h);
    DispatchKeeps(Taken(h), p);
    t := ReceiveStep(h);
    assert Cut(p)[0] == p[0] && (p[0] == EVENT ==> Cut(p) == p);
  }

  /** Frames bring in what the buffer has room for. */
  lemma FillUp(h: Host) returns (es: seq<Event>, t: Host)
    requires Inv(h) && h.alive && !h.owed
    ensures Reaches(h, es, t) && Inv(t) && t == h.(link := t.link)
    ensures t.link.sent == h.link.sent && t.link.got == h.link.got
    ensures |t.link.stream| == STREAM_CAP || t.link.wire == []
  {
    var ms := Fill(h.link);
    FramesReach(h, ms);
    es, t := Lift(ms), h.(link := MovesRun(h.link, ms));
  }

  /** A response owed is tried, and fails. */
  lemma Respond0(h: Host) returns (es: seq<Event>, t: Host)
    requires Live(h)
    ensures Reaches(h, es, t) && Live(t) && SameLife(h, t) && !t.owed && Pending(t) == Pending(h)
  {
    if h.owed {
      OneStep(h, Respond(false, true));
      es, t := [Respond(false, true)], Step(h, Respond(false, true));
    } else {
      es, t := [], h;
    }
  }

  /** The next pending packet is received: u is the host that takes it, v the one
      after. */
  lemma TakeNext(h: Host) returns (es: seq<Event>, u: Host, v: Host)
    requires Inv(h) && h.alive && !h.owed && Pending(h) != [] && !IsDisconnect(Pending(h)[0])
    ensures Reaches(h, es, v) && Inv(v) && SameLife(h, v) && Pending(v) == Pending(h)[1..]
    ensures Whole(Pending(h)[0]) && Sane(u) && v == Dispatched(u, Pending(h)[0])
    ensures u == h.(link := u.link, pkt := Cut(Pending(h)[0]) + h.pkt[|Cut(Pending(h)[0])|..])
  {
    var first, t := FillUp(h);
    assert Pending(t) == Pending(h);
    NeverWedges(t.link);
    TakeDelivers(t.link);
    v := ReceiveOne(t);
    u := Taken(t);
    OneStep(t, Receive);
    Reach2(h, first, t, [Receive], v);
    es := first + [Receive];
  }

  /** And answered if need be. */
  lemma ReceiveNext(h: Host) returns (es: seq<Event>, t: Host)
    requires Live(h) && !h.owed && Pending(h) != []
    ensures Reaches(h, es, t) && Live(t) && SameLife(h, t) && !t.owed && |Pending(t)| == |Pending(h)| - 1
  {
    assert Pending(h)[0] in Pending(h);
    var first, u, v := TakeNext(h);
    var last;
    last, t := Respond0(v);
    Reach2(h, first, v, last, t);
    es := first + last;
  }

  /** An acknowledgement of one packet. */
  function AckOne(): Bytes { [EVENT, 0x13, 5, 1, 0, 0, 1, 0] }

  lemma AckOneIs()
    ensures Whole(AckOne()) && |AckOne()| == 8 && Acks(AckOne()) == 1 && !IsDisconnect(AckOne())
  {
    assert AckSum(AckOne(), 1, 1) == 0;
    assert Rd16(AckOne(), 6) == 1;
  }

  /** The controller acknowledges a packet it holds. */
  lemma Acknowledge(h: Host) returns (es: seq<Event>, t: Host)
    requires Live(h) && !h.owed && Pending(h) == [] && h.held > 0
    ensures Reaches(h, es, t) && Live(t) && !t.owed && |Pending(t)| == 1
    ensures t.held == h.held - 1 && t.lost == h.lost && t.credits == h.credits && t.tx == h.tx
  {
    AckOneIs();
    var e := Radio(AckOne());
    OneStep(h, e);
    es, t := [e], Step(h, e);
    assert Pending(t) == Pending(h) + [AckOne()] == [AckOne()];
  }

  /** While fewer packets are lost than there are buffers, a credit can come back, with
      everything received. */
  lemma {:induction false} CreditReturns(h: Host) returns (es: seq<Event>, t: Host)
    requires Live(h) && !h.owed && h.lost < h.credits
    ensures Reaches(h, es, t) && Live(t) && !t.owed && Pending(t) == [] && t.inflight < t.credits && t.tx == h.tx
    decreases 2 * h.held + |Pending(h)|
  {
    if Pending(h) != [] {
      var first, u := ReceiveNext(h);
      var rest;
      rest, t := CreditReturns(u);
      Reach2(h, first, u, rest, t);
      es := first + rest;
    } else if h.inflight < h.credits {
      es, t := [], h;
    } else {
      var first, u := Acknowledge(h);
      var rest;
      rest, t := CreditReturns(u);
      Reach2(h, first, u, rest, t);
      es := first + rest;
    }
  }

  /** A write command that switches notifications on. */
  predicate IsSubscribe(pdu: Bytes) { |pdu| == 5 && WritesCccd(pdu) && pdu[0] == 0x52 && Rd16(pdu, 3) == 1 }

  lemma SubscribeExists() returns (pdu: Bytes)
    ensures IsSubscribe(pdu)
  {
    pdu := [0x52, 6, 0, 1, 0];
  }

  lemma CommandArrives(q: Host, pdu: Bytes)
    requires 5 <= |pdu| <= 100 && Holding(q, AttPacket(pdu)) && WritesCccd(pdu) && pdu[0] == 0x52
    ensures var t := ReceiveStep(q);
            Inv(t) && Up(t) && t.cccd == Rd16(pdu, 3) && !t.owed && t.inflight == q.inflight && SameLife(q, t)
  {
    var v := AttArrives(q, pdu);
    CommandWrites(v, pdu);
  }

  lemma CommandWrites(v: Host, pdu: Bytes)
    requires Sane(v) && Carries(v.pkt, pdu) && WritesCccd(pdu) && pdu[0] == 0x52 && |pdu| >= 5
    ensures !OnAtt(v, |pdu|).1 && OnAtt(v, |pdu|).0 == v.(cccd := Rd16(pdu, 3))
  {
    CarriedByte(v.pkt, pdu, 0);
    CarriedByte(v.pkt, pdu, 1);
    CarriedByte(v.pkt, pdu, 2);
    CarriedByte(v.pkt, pdu, 3);
    CarriedByte(v.pkt, pdu, 4);
  }

  /** The central subscribes. */
  lemma Subscribe(h: Host, pdu: Bytes) returns (es: seq<Event>, t: Host)
    requires AtRest(h) && h.alive && IsSubscribe(pdu)
    ensures Reaches(h, es, t) && Inv(t) && Subscribed(t) && !t.owed && t.inflight == h.inflight && SameLife(h, t)
  {
    AttPacketIs(pdu);
    var q;
    es, q := Deliver(h, AttPacket(pdu));
    CommandArrives(q, pdu);
    t := ReceiveStep(q);
  }

  /** Something is queued. */
  lemma Queue(h: Host) returns (es: seq<Event>, t: Host)
    requires Inv(h) && !h.owed && h.tx == []
    ensures Reaches(h, es, t) && t == h.(tx := [0x41], accepted := t.accepted)
  {
    OneStep(h, Put(0x41));
    es, t := [Put(0x41)], Step(h, Put(0x41));
  }

  lemma AllReceived(h: Host)
    requires Inv(h) && h.alive && !h.owed && Pending(h) == []
    ensures AtRest(h)
  {
    assert Concat(Pending(h)) == [];
    assert |h.link.stream + h.link.wire| == 0;
  }

  /** With a credit, and a packet queued for a subscriber, there is something to
      notify. */
  lemma ComesToNotify(h: Host) returns (es: seq<Event>, t: Host)
    requires Live(h) && h.lost < h.credits
    ensures Reaches(h, es, t) && t.alive && Notifies(t)
  {
    var a, ha := Respond0(h);
    var b, hb := CreditReturns(ha);
    Reach2(h, a, ha, b, hb);
    AllReceived(hb);
    var pdu := SubscribeExists();
    var c, hc := Subscribe(hb, pdu);
    Reach2(h, a + b, hb, c, hc);
    if hc.tx != [] {
      es, t := a + b + c, hc;
    } else {
      var d;
      d, t := Queue(hc);
      Reach2(h, a + b + c, hc, d, t);
      es := a + b + c + d;
    }
  }

  lemma {:induction false} LossesStay(h: Host, es: seq<Event>)
    requires Inv(h) && LegalRun(h, es)
    ensures Inv(Run(h, es)) && Run(h, es).lost >= h.lost && Run(h, es).credits == h.credits
    decreases es
  {
    if es != [] {
      StepKeepsInv(h, es[0]);
      LostOnlyGrows(h, es[0]);
      LossesStay(Step(h, es[0]), es[1..]);
    }
  }

  /** Some legal run brings the host to hand over a notification on this
      connection. */
  ghost predicate CanNotify(h: Host) {
    exists es: seq<Event> :: NotifiesAfter(h, es)
  }

  ghost predicate NotifiesAfter(h: Host, es: seq<Event>) {
    LegalRun(h, es) && Run(h, es).alive && Notifies(Run(h, es))
  }

  /**
   * On a connection with no disconnect on the way, whatever else is, the host can
   * still come to notify if and only if fewer packets were lost than the controller
   * has buffers.
   */
  lemma CanNotifyIff(h: Host)
    requires Live(h)
    ensures CanNotify(h) <==> h.lost < h.credits
  {
    if CanNotify(h) {
      var es: seq<Event> :| NotifiesAfter(h, es);
      LossesStay(h, es);
    }
    if h.lost < h.credits {
      var es, t := ComesToNotify(h);
      assert NotifiesAfter(h, es);
    }
  }

  // ---------------------------------------------------------------------------
  // With a disconnect on the way
  // ---------------------------------------------------------------------------

  /** The first disconnect among the packets to be received is the j-th. */
  predicate Ending(h: Host, j: nat) {
    && Inv(h) && h.alive && j < |Pending(h)| && IsDisconnect(Pending(h)[j])
    && forall i :: 0 <= i < j ==> !IsDisconnect(Pending(h)[i])
  }

  /** The host after it has received p, and answered with a response that failed. */
  function Seen1(h: Host, p: Bytes): Host
    requires Sane(h) && Whole(p)
  {
    Dispatched(h.(pkt := Cut(p) + h.pkt[|Cut(p)|..]), p).(owed := false)
  }

  /** And several packets, none of them a disconnect. */
  ghost function Seen(h: Host, ps: seq<Bytes>): (t: Host)
    requires Sane(h) && InOrder(h) && (forall p <- ps :: Whole(p) && !IsDisconnect(p))
    ensures Sane(t) && InOrder(t)
    decreases ps
  {
    if ps == [] then h
    else
      var n := |ps| - 1;
      var u := Seen(h, ps[..n]);
      DispatchKeeps(u.(pkt := Cut(ps[n]) + u.pkt[|Cut(ps[n])|..]), ps[n]);
      Seen1(u, ps[n])
  }

  /** u differs from t in nothing a notification waits for, but may have sent more. */
  predicate NoBetter(t: Host, u: Host) {
    && u.handle == t.handle && u.cccd == t.cccd && u.pkt == t.pkt && u.credits == t.credits
    && u.inflight >= t.inflight
  }

  lemma {:induction false} AckLoopMonotone(a: nat, b: nat, p: Bytes, i: nat, n: nat)
    requires a <= b
    ensures AckLoop(a, p, i, n) <= AckLoop(b, p, i, n)
    decreases n - i
  {
    if i < n {
      var cnt := if 4 * i + 7 < |p| then Rd16(p, 4 * i + 6) else 0;
      AckLoopMonotone(if cnt > a then 0 else a - cnt, if cnt > b then 0 else b - cnt, p, i + 1, n);
    }
  }

  lemma EventKeepsOrder(t: Host, u: Host, p: Bytes)
    requires NoBetter(t, u) && !IsDisconnect(p) && Whole(p) && p[0] == EVENT
    ensures NoBetter(OnEvent(t, p), OnEvent(u, p))
    ensures u.inflight == t.inflight ==> OnEvent(u, p).inflight == OnEvent(t, p).inflight
  {
    if |p| >= 4 && p[1] == 0x13 {
      AckKeepsOrder(t, u, p, p[3]);
    } else if |p| >= 4 && p[1] == 0x3E {
      MetaKeepsOrder(t, u, p);
    }
  }

  lemma AckKeepsOrder(t: Host, u: Host, p: Bytes, n: nat)
    requires NoBetter(t, u)
    ensures NoBetter(t.(inflight := AckLoop(t.inflight, p, 0, n)), u.(inflight := AckLoop(u.inflight, p, 0, n)))
  {
    AckLoopMonotone(t.inflight, u.inflight, p, 0, n);
  }

  lemma MetaKeepsOrder(t: Host, u: Host, p: Bytes)
    requires NoBetter(t, u) && |p| >= 4
    ensures NoBetter(OnMeta(t, p), OnMeta(u, p))
    ensures u.inflight == t.inflight ==> OnMeta(u, p).inflight == OnMeta(t, p).inflight
  {
  }

  lemma AttKeepsOrder(t: Host, u: Host, len: nat)
    requires Sane(t) && Sane(u) && NoBetter(t, u) && 9 + len <= PACKET_CAP
    ensures NoBetter(OnAtt(t, len).0, OnAtt(u, len).0)
    ensures OnAtt(t, len).0.inflight == t.inflight && OnAtt(u, len).0.inflight == u.inflight
  {
  }

  lemma AclKeepsOrder(t: Host, u: Host, len: nat)
    requires Sane(t) && Sane(u) && NoBetter(t, u) && len <= PACKET_CAP
    ensures NoBetter(OnAcl(t, len), OnAcl(u, len))
    ensures OnAcl(t, len).inflight == t.inflight && OnAcl(u, len).inflight == u.inflight
  {
    if len >= 9 {
      var t1 := if Up(t) then t else t.(handle := Rd16(t.pkt, 1) % 0x1000);
      var u1 := if Up(u) then u else u.(handle := Rd16(u.pkt, 1) % 0x1000);
      AttKeepsOrder(t1, u1, Min(len - 9, Rd16(t.pkt, 5)));
    }
  }

  /** Receiving the same packet keeps the order. */
  lemma SeenKeepsOrder(t: Host, u: Host, p: Bytes)
    requires Sane(t) && Sane(u) && NoBetter(t, u) && Whole(p) && !IsDisconnect(p)
    ensures var v := Dispatched(u.(pkt := Cut(p) + u.pkt[|Cut(p)|..]), p);
            && NoBetter(Seen1(t, p), v)
            && (u.inflight == t.inflight ==> v.inflight == Seen1(t, p).inflight)
  {
    var t1, u1 := t.(pkt := Cut(p) + t.pkt[|Cut(p)|..]), u.(pkt := Cut(p) + u.pkt[|Cut(p)|..]);
    if p[0] == EVENT { EventKeepsOrder(t1, u1, p); } else { AclKeepsOrder(t1, u1, |Cut(p)|); }
  }

  /** Between h and u the first k of the packets ps were received, with room for
      sends of any kind. */
  ghost predicate Tracks(h: Host, ps: seq<Bytes>, j: nat, k: nat, u: Host) {
    && Sane(h) && InOrder(h) && (forall p <- ps :: Whole(p))
    && k <= j < |ps| && IsDisconnect(ps[j]) && (forall i :: 0 <= i < j ==> !IsDisconnect(ps[i]))
    && Inv(u) && u.alive && ps[k..] <= Pending(u)
    && NoBetter(Seen(h, ps[..k]), u)
  }

  lemma TracksStart(h: Host, j: nat)
    requires Ending(h, j)
    ensures Tracks(h, Pending(h), j, 0, h)
  {
    SuffixFits(h.link.sent, |h.link.got|);
    assert Pending(h)[..0] == [] && Pending(h)[0..] == Pending(h);
  }

  /** A packet at hand in the packet buffer is dispatched. */
  lemma DispatchKeepsOrder(t: Host, u: Host, w: Host, p: Bytes)
    requires Sane(t) && Sane(u) && Sane(w) && NoBetter(t, u) && Whole(p) && !IsDisconnect(p)
    requires w == u.(link := w.link, pkt := Cut(p) + u.pkt[|Cut(p)|..])
    ensures NoBetter(Seen1(t, p), Dispatched(w, p))
    ensures u.inflight == t.inflight ==> Dispatched(w, p).inflight == Seen1(t, p).inflight
  {
    SeenKeepsOrder(t, u, p);
    LinkDoesNotMatter(u.(pkt := Cut(p) + u.pkt[|Cut(p)|..]), w.link, p);
  }

  lemma SeenStep(h: Host, ps: seq<Bytes>, k: nat)
    requires Sane(h) && InOrder(h) && k < |ps| && (forall i :: 0 <= i <= k ==> Whole(ps[i]) && !IsDisconnect(ps[i]))
    ensures Seen(h, ps[..k + 1]) == Seen1(Seen(h, ps[..k]), ps[k])
  {
    assert ps[..k + 1][..k] == ps[..k] && ps[..k + 1][k] == ps[k];
  }

  /** The next of ps. */
  lemma OneMoreSeen(h: Host, ps: seq<Bytes>, k: nat, u: Host, w: Host)
    requires Sane(h) && InOrder(h) && k < |ps| && (forall i :: 0 <= i <= k ==> Whole(ps[i]) && !IsDisconnect(ps[i]))
    requires Sane(u) && Sane(w) && NoBetter(Seen(h, ps[..k]), u)
    requires w == u.(link := w.link, pkt := Cut(ps[k]) + u.pkt[|Cut(ps[k])|..])
    ensures NoBetter(Seen(h, ps[..k + 1]), Dispatched(w, ps[k]))
    ensures u.inflight == Seen(h, ps[..k]).inflight ==> Dispatched(w, ps[k]).inflight == Seen(h, ps[..k + 1]).inflight
  {
    SeenStep(h, ps, k);
    DispatchKeepsOrder(Seen(h, ps[..k]), u, w, ps[k]);
  }

  lemma TracksTake(h: Host, ps: seq<Bytes>, j: nat, k: nat, u: Host)
    requires Tracks(h, ps, j, k, u) && k < j && !u.owed && Pending(u) != [] && Pending(u)[0] == ps[k]
    requires |ps[k]| <= |u.link.stream|
    ensures Tracks(h, ps, j, k + 1, ReceiveStep(u))
  {
    var v := ReceiveOne(u);
    OneMoreSeen(h, ps, k, u, Taken(u));
    assert ps[k + 1..] == ps[k..][1..];
  }

  /** A packet is received: nothing happens, or it was the next of ps. */
  lemma TracksReceive(h: Host, ps: seq<Bytes>, j: nat, k: nat, u: Host) returns (k': nat)
    requires Tracks(h, ps, j, k, u) && !u.owed && ReceiveStep(u).alive
    ensures Tracks(h, ps, j, k', ReceiveStep(u))
  {
    assert ps[k..][0] == Pending(u)[0] == ps[k];
    k' := k;
    if |ps[k]| > |u.link.stream| {
      NothingTaken(u);
    } else {
      if IsDisconnect(ps[k]) { DisconnectEnds(u); }
      TracksTake(h, ps, j, k, u);
      k' := k + 1;
    }
  }

  /** Without a whole packet buffered a receive does nothing. */
  lemma NothingTaken(u: Host)
    requires Inv(u) && u.alive && Pending(u) != [] && |Pending(u)[0]| > |u.link.stream|
    ensures ReceiveStep(u) == u
  {
    TakeDelivers(u.link);
    SuffixFits(u.link.sent, |u.link.got|);
    ExtractFirst(Pending(u), u.link.stream, u.link.wire, PACKET_CAP);
  }

  lemma DisconnectEnds(u: Host)
    requires Inv(u) && u.alive && Pending(u) != [] && |Pending(u)[0]| <= |u.link.stream| && IsDisconnect(Pending(u)[0])
    ensures !ReceiveStep(u).alive
  {
    var p := Pending(u)[0];
    TakeFirst(u);
    TakenIsSane(u);
    assert Cut(p) == p;
    OnEventKeeps(Taken(u), p);
  }

  lemma TracksStep(h: Host, ps: seq<Bytes>, j: nat, k: nat, u: Host, e: Event) returns (k': nat)
    requires Tracks(h, ps, j, k, u) && Legal(u, e) && Step(u, e).alive
    ensures Tracks(h, ps, j, k', Step(u, e))
  {
    if e.Receive? {
      k' := TracksReceive(h, ps, j, k, u);
    } else {
      StepKeepsInv(u, e);
      OtherStep(u, e);
      k' := k;
    }
  }

  lemma OtherStep(u: Host, e: Event)
    requires Inv(u) && u.alive && Legal(u, e) && !e.Receive?
    ensures NoBetter(u, Step(u, e)) && Pending(u) <= Pending(Step(u, e)) && Step(u, e).alive
  {
    match e
    case Radio(p) => assert Pending(Step(u, e)) == Pending(u) + [p];
    case Flush(ok, kept) => FlushOrder(u, ok, kept);
    case Respond(ok, kept) => assert Step(u, e) == SendAcl(u, ok, kept).(owed := false);
    case _ =>
  }

  lemma FlushOrder(u: Host, ok: bool, kept: bool)
    requires Sane(u)
    ensures NoBetter(u, FlushStep(u, ok, kept)) && FlushStep(u, ok, kept).link == u.link
    ensures FlushStep(u, ok, kept).alive == u.alive
  {
  }

  lemma {:induction false} AliveBefore(h: Host, es: seq<Event>)
    requires Inv(h) && LegalRun(h, es) && Run(h, es).alive
    ensures h.alive
    decreases es
  {
    if es != [] {
      StepKeepsInv(h, es[0]);
      LostOnlyGrows(h, es[0]);
      AliveBefore(Step(h, es[0]), es[1..]);
    }
  }

  lemma {:induction false} TracksRun(h: Host, ps: seq<Bytes>, j: nat, k: nat, u: Host, es: seq<Event>) returns (k': nat)
    requires Tracks(h, ps, j, k, u) && LegalRun(u, es) && Run(u, es).alive
    ensures Tracks(h, ps, j, k', Run(u, es))
    decreases es
  {
    if es == [] {
      k' := k;
    } else {
      StepKeepsInv(u, es[0]);
      AliveBefore(Step(u, es[0]), es[1..]);
      k' := TracksStep(h, ps, j, k, u, es[0]);
      k' := TracksRun(h, ps, j, k', Step(u, es[0]), es[1..]);
    }
  }

  /** A response owed is tried, and fails. */
  lemma TriesInVain(h: Host) returns (es: seq<Event>, t: Host)
    requires Inv(h)
    ensures Reaches(h, es, t) && t == h.(owed := false) && Inv(t)
  {
    if h.owed {
      OneStep(h, Respond(false, true));
      es, t := [Respond(false, true)], Step(h, Respond(false, true));
    } else {
      es, t := [], h;
    }
  }

  /** The next of them can be received without anything else being sent. */
  lemma ReceiveOneMore(h: Host, ps: seq<Bytes>, j: nat, k: nat, v: Host) returns (es: seq<Event>, u: Host)
    requires Tracks(h, ps, j, k, v) && k < j && !v.owed && Pending(v) == ps[k..]
    requires v.inflight == Seen(h, ps[..k]).inflight
    ensures Reaches(v, es, u) && Tracks(h, ps, j, k + 1, u) && !u.owed && Pending(u) == ps[k + 1..]
    ensures u.inflight == Seen(h, ps[..k + 1]).inflight
  {
    assert ps[k..][0] == ps[k] && ps[k..][1..] == ps[k + 1..];
    var next, w, x := TakeNext(v);
    OneMoreSeen(h, ps, k, v, w);
    var last;
    last, u := TriesInVain(x);
    Reach2(v, next, x, last, u);
    es := next + last;
  }

  lemma ReceiveNone(h: Host, j: nat) returns (es: seq<Event>, u: Host)
    requires Ending(h, j)
    ensures Reaches(h, es, u) && Tracks(h, Pending(h), j, 0, u) && !u.owed && Pending(u) == Pending(h)[0..]
    ensures u.inflight == Seen(h, Pending(h)[..0]).inflight
  {
    TracksStart(h, j);
    es, u := TriesInVain(h);
    assert Pending(h)[0..] == Pending(h) && Pending(h)[..0] == [];
  }

  lemma {:induction false} ReceiveSome(h: Host, j: nat, k: nat) returns (es: seq<Event>, u: Host)
    requires Ending(h, j) && k <= j
    ensures Reaches(h, es, u) && Tracks(h, Pending(h), j, k, u) && !u.owed && Pending(u) == Pending(h)[k..]
    ensures u.inflight == Seen(h, Pending(h)[..k]).inflight
    decreases k
  {
    if k == 0 {
      es, u := ReceiveNone(h, j);
    } else {
      var first, v := ReceiveSome(h, j, k - 1);
      var next;
      next, u := ReceiveOneMore(h, Pending(h), j, k - 1, v);
      Reach2(h, first, v, next, u);
      es := first + next;
    }
  }

  lemma EventLink(u: Host, l: Link, p: Bytes)
    requires !IsDisconnect(p) && Whole(p) && p[0] == EVENT
    ensures OnEvent(u.(link := l), p) == OnEvent(u, p).(link := l)
  {
  }

  lemma AttLink(u: Host, l: Link, len: nat)
    requires Sane(u) && Sane(u.(link := l)) && 9 + len <= PACKET_CAP
    ensures OnAtt(u.(link := l), len) == (OnAtt(u, len).0.(link := l), OnAtt(u, len).1)
  {
  }

  lemma AclLink(u: Host, l: Link, len: nat)
    requires Sane(u) && Sane(u.(link := l)) && len <= PACKET_CAP
    ensures OnAcl(u.(link := l), len) == OnAcl(u, len).(link := l)
  {
    if len >= 9 {
      var u1 := if Up(u) then u else u.(handle := Rd16(u.pkt, 1) % 0x1000);
      AttLink(u1, l, Min(len - 9, Rd16(u.pkt, 5)));
    }
  }

  lemma LinkDoesNotMatter(u: Host, l: Link, p: Bytes)
    requires Sane(u) && Sane(u.(link := l)) && Whole(p) && !IsDisconnect(p)
    ensures Dispatched(u.(link := l), p) == Dispatched(u, p).(link := l)
  {
    if p[0] == EVENT { EventLink(u, l, p); } else { AclLink(u, l, |Cut(p)|); }
  }

  /** After some of the packets before the disconnect the central is subscribed and a
      credit is there. */
  ghost predicate ChanceBefore(h: Host, j: nat)
    requires Ending(h, j)
  {
    exists k :: 0 <= k <= j && ChanceAt(h, j, k)
  }

  ghost predicate ChanceAt(h: Host, j: nat, k: nat)
    requires Ending(h, j) && k <= j
  {
    SuffixFits(h.link.sent, |h.link.got|);
    var t := Seen(h, Pending(h)[..k]);
    Subscribed(t) && t.inflight < t.credits
  }

  /**
   * With a disconnect on the way, at any place among the pending packets: the host
   * can come to notify if and only if at some point before it, by the packets
   * received up to there alone, the central is subscribed and a credit is there.
   */
  lemma EndingCanNotifyIff(h: Host, j: nat)
    requires Ending(h, j)
    ensures CanNotify(h) <==> ChanceBefore(h, j)
  {
    if CanNotify(h) {
      var es: seq<Event> :| NotifiesAfter(h, es);
      TracksStart(h, j);
      var k := TracksRun(h, Pending(h), j, 0, h, es);
      assert ChanceAt(h, j, k);
    }
    if ChanceBefore(h, j) {
      var k :| 0 <= k <= j && ChanceAt(h, j, k);
      TakesChance(h, j, k);
    }
  }

  lemma TakesChance(h: Host, j: nat, k: nat)
    requires Ending(h, j) && k <= j && ChanceAt(h, j, k)
    ensures CanNotify(h)
  {
    var a, u := ReceiveSome(h, j, k);
    if u.tx != [] {
      assert NotifiesAfter(h, a);
    } else {
      var b, v := Queue(u);
      Reach2(h, a, u, b, v);
      assert NotifiesAfter(h, a + b);
    }
  }

  // ---------------------------------------------------------------------------
  // A disconnect in the middle of a frame
  // ---------------------------------------------------------------------------

  /**
   * A frame that holds a disconnect and the first k bytes of the packet behind it:
   * those bytes are gone with it, the rest is still to come, and reassembly is in
   * step neither for that packet nor behind it.
   */
  lemma FrameBehindDisconnect(h: Host, d: Bytes, p: Bytes, k: nat) returns (es: seq<Event>)
    requires AtRest(h) && h.alive && Whole(d) && IsDisconnect(d) && Whole(p) && |p| <= STREAM_CAP
    requires Acks(p) <= h.held && 0 < k < |p| && |d| + k <= FRAME_MAX
    ensures es == [Radio(d), Radio(p)] + [Event.Frame(|d| + k), Receive] && LegalRun(h, es)
    ensures var t := Run(h, es); !t.alive && t.link.stream == [] && t.link.wire == p[k..]
    ensures !InStep(Link([p], [], [], p[k..])) && !InStep(Link([], [], [], p[k..]))
  {
    var h2 := BothProduced(h, d, p);
    var h3 := ReadUpTo(h2, d, p, k);
    ReceivesDisconnect(h3, d, p, k);
    OneStep(h3, Receive);
    OneStep(h2, Event.Frame(|d| + k));
    Reach2(h2, [Event.Frame(|d| + k)], h3, [Receive], ReceiveStep(h3));
    assert [Event.Frame(|d| + k)] + [Receive] == [Event.Frame(|d| + k), Receive];
    Reach2(h, [Radio(d), Radio(p)], h2, [Event.Frame(|d| + k), Receive], ReceiveStep(h3));
    es := [Radio(d), Radio(p)] + [Event.Frame(|d| + k), Receive];
    OutOfStep(p, k);
  }

  lemma OneProduced(h: Host, p: Bytes) returns (t: Host)
    requires Inv(h) && h.alive && !h.owed && Whole(p) && |p| <= STREAM_CAP && Acks(p) <= h.held
    ensures Reaches(h, [Radio(p)], t) && Inv(t) && t.alive && !t.owed && t.held == h.held - Acks(p)
    ensures t.link.stream == h.link.stream && t.link.wire == h.link.wire + p && Pending(t) == Pending(h) + [p]
  {
    OneStep(h, Radio(p));
    t := Step(h, Radio(p));
    assert Pending(t) == Pending(h) + [p];
  }

  lemma DisconnectAcksNothing(d: Bytes)
    requires IsDisconnect(d)
    ensures Acks(d) == 0
  {
  }

  lemma BothProduced(h: Host, d: Bytes, p: Bytes) returns (t: Host)
    requires AtRest(h) && h.alive && Whole(d) && IsDisconnect(d) && |d| <= FRAME_MAX
    requires Whole(p) && |p| <= STREAM_CAP && Acks(p) <= h.held
    ensures Reaches(h, [Radio(d), Radio(p)], t) && Inv(t) && t.alive && !t.owed
    ensures t.link.stream == [] && t.link.wire == d + p && Pending(t) == [d, p]
  {
    AllGot(h);
    DisconnectAcksNothing(d);
    var u := OneProduced(h, d);
    t := OneProduced(u, p);
    TwoRadios(h, d, u, p, t);
    assert [] + d == d && [d] + [p] == [d, p];
  }

  lemma TwoRadios(h: Host, d: Bytes, u: Host, p: Bytes, t: Host)
    requires Reaches(h, [Radio(d)], u) && Reaches(u, [Radio(p)], t)
    ensures Reaches(h, [Radio(d), Radio(p)], t)
  {
    Reach2(h, [Radio(d)], u, [Radio(p)], t);
    assert [Radio(d)] + [Radio(p)] == [Radio(d), Radio(p)];
  }

  /** At rest everything produced has been received. */
  lemma AllGot(h: Host)
    requires AtRest(h) && h.alive
    ensures Pending(h) == []
  {
    SuffixFits(h.link.sent, |h.link.got|);
    assert Concat(Pending(h)) == h.link.stream + h.link.wire == [];
    EmptyIff(Pending(h));
  }

  lemma EmptyIff(ps: seq<Bytes>)
    requires AllFit(ps)
    ensures Concat(ps) == [] <==> ps == []
  {
    if ps != [] { assert Whole(ps[0]); }
  }

  lemma ReadUpTo(h: Host, d: Bytes, p: Bytes, k: nat) returns (t: Host)
    requires Inv(h) && h.alive && !h.owed && h.link.stream == [] && h.link.wire == d + p && Pending(h) == [d, p]
    requires 0 < k < |p| && |d| + k <= FRAME_MAX
    ensures Legal(h, Event.Frame(|d| + k)) && t == Step(h, Event.Frame(|d| + k)) && Inv(t) && t.alive && !t.owed
    ensures t.link.stream == d + p[..k] && t.link.wire == p[k..] && Pending(t) == [d, p]
  {
    t := Step(h, Event.Frame(|d| + k));
    StepKeepsInv(h, Event.Frame(|d| + k));
    assert (d + p)[..|d| + k] == d + p[..k] && (d + p)[|d| + k..] == p[k..];
  }

  lemma ReceivesDisconnect(h: Host, d: Bytes, p: Bytes, k: nat)
    requires Inv(h) && h.alive && !h.owed && Whole(d) && IsDisconnect(d) && k <= |p|
    requires h.link.stream == d + p[..k] && h.link.wire == p[k..] && Pending(h) == [d, p]
    ensures var t := ReceiveStep(h); !t.alive && t.link.stream == [] && t.link.wire == p[k..]
  {
    TakeFirst(h);
    TakenIsSane(h);
    assert Cut(d) == d;
    TakeDelivers(h.link);
    OnEventKeeps(Taken(h), d);
  }

  lemma OutOfStep(p: Bytes, k: nat)
    requires 0 < k < |p|
    ensures !InStep(Link([p], [], [], p[k..])) && !InStep(Link([], [], [], p[k..]))
  {
    assert Concat([p]) == p + [] == p && [p][0..] == [p];
    var none: seq<Bytes> := [];
    assert Concat(none) == [] && none[0..] == none;
    assert |[] + p[k..]| == |p| - k;
  }
}
