/** Both ends of a connection and what is on the wire between them, in the words
    the code sends.  Whatever the network does, the ends stay in a state that a
    run of the protocol reaches. */
module Connection {
  import opened SeqNo
  import opened LossNodes
  import opened ByteStream
  import opened PacketHeader
  import opened Messages
  import opened Protocol
  import opened ProtocolInv
  import opened ProtocolTheorems
  import opened ProtocolSteps
  import opened Endpoints
  import Nak
  import UnitPool
  import Reassembly
  import MessageRuns
  import S = SenderEnd
  import R = ReceiverEnd
  import Buf = RcvBuffer
  import MessageEnd

  /** What travels: packets with their header words. */
  datatype Wire =
    | WData(seqno: int, packet: Packet)
    | WLite(ack: int)
    | WFull(ackNo: int, ack: int, window: int)
    | WAck2(ackNo: int)
    | WNak(words: seq<int>)

  /** The words stand for this message of the protocol. */
  ghost predicate Codes(w: Wire, m: Msg, ps: seq<Packet>, isn: int) {
    match m
    case Data(x, p) => w.WData? && w.seqno == Wrap(x) && w.packet.data == p && S.At(ps, x - isn, w.packet)
    case LiteAck(x) => w == WLite(Wrap(x))
    case FullAck(no, x, window) => w == WFull(Wrap(no), Wrap(x), window)
    case Ack2(no) => w == WAck2(Wrap(no))
    case Loss(spans) => w == WNak(Nak.Encode(spans))
  }

  ghost predicate AllCode(ws: seq<Wire>, ms: seq<Msg>, net: set<Msg>, ps: seq<Packet>, isn: int) {
    |ws| == |ms| && forall i :: 0 <= i < |ws| ==> ms[i] in net && Codes(ws[i], ms[i], ps, isn)
  }

  lemma OneMoreCodes(ws: seq<Wire>, ms: seq<Msg>, net: set<Msg>, ps: seq<Packet>, isn: int, w: Wire, m: Msg)
    requires AllCode(ws, ms, net, ps, isn) && m in net && Codes(w, m, ps, isn)
    ensures AllCode(ws + [w], ms + [m], net, ps, isn)
  {
    hide Codes;
  }

  lemma StillCode(
    ws: seq<Wire>, ms: seq<Msg>, net: set<Msg>, net': set<Msg>, ps: seq<Packet>, ps': seq<Packet>, isn: int)
    requires AllCode(ws, ms, net, ps, isn) && net <= net' && ps <= ps'
    ensures AllCode(ws, ms, net', ps', isn)
  {
    forall i | 0 <= i < |ws| ensures Codes(ws[i], ms[i], ps', isn) { assert Codes(ws[i], ms[i], ps, isn); }
  }

  lemma FewerCode(ws: seq<Wire>, ms: seq<Msg>, net: set<Msg>, ps: seq<Packet>, isn: int, i: int)
    requires AllCode(ws, ms, net, ps, isn) && 0 <= i < |ws|
    ensures AllCode(ws[..i] + ws[i + 1..], ms[..i] + ms[i + 1..], net, ps, isn)
  {
    hide Codes;
  }

  /** What a step sends, at most one message, joins what is under way, in words. */
  ghost predicate Added(
    ws: seq<Wire>, ms: seq<Msg>, ws': seq<Wire>, ms': seq<Msg>, out: set<Msg>, ps: seq<Packet>, isn: int)
  {
    if out == {} then ws' == ws && ms' == ms
    else
      && |ws'| == |ws| + 1 && ws'[..|ws|] == ws && |ms'| == |ms| + 1 && ms'[..|ms|] == ms
      && out == {ms'[|ms|]} && Codes(ws'[|ws|], ms'[|ms|], ps, isn)
  }

  lemma AddedNone(ws: seq<Wire>, ms: seq<Msg>, ps: seq<Packet>, isn: int)
    ensures Added(ws, ms, ws, ms, {}, ps, isn)
  {
  }

  lemma AddedOne(ws: seq<Wire>, ms: seq<Msg>, w: Wire, m: Msg, ps: seq<Packet>, isn: int)
    ensures Codes(w, m, ps, isn) ==> Added(ws, ms, ws + [w], ms + [m], {m}, ps, isn)
  {
    hide Codes;
  }

  /** Sizes for which the lists of both ends hold what every run puts into them. */
  ghost predicate SizesOk(isn: int, size: int, window: int) {
    0 <= isn <= MAX && 2 <= size < TH - 1 && 1 <= window <= size <= 2 * window + 1 && 2 * window < TH
  }

  lemma SizesAre(isn: int, size: int, window: int)
    requires SizesOk(isn, size, window)
    ensures 0 <= isn <= MAX && 0 < 2 * window < TH && 0 < size < TH && size >= 2 && 1 <= window <= size && size < TH - 1
    ensures Larger(window, Larger(size - 1, 2)) <= 2 * window
  {
  }

  lemma StartEnds(isn: int, size: int, window: int)
    ensures Start(isn, size, window).rcv == Start(isn, size, 1).rcv
  {
  }

  class Connection {
    const snd: S.SenderEnd
    const rcv: R.ReceiverEnd
    const stream: bool               // m_iSockType is UDT_STREAM
    var wire: seq<Wire>              // what is under way
    ghost const isn: int
    ghost const size: int
    ghost const window: int
    ghost var es: seq<Event>         // the run so far
    ghost var msgs: seq<Msg>         // what the words on the wire stand for
    ghost var ms: MessageRuns.State  // the messages, when the socket carries messages

    ghost function Now(): Sys
      reads this`es
    {
      After(Start(isn, size, window), es)
    }

    lemma NowIs()
      ensures Now() == After(Start(isn, size, window), es)
    {
    }

    /** The two ends share no array. */
    ghost predicate Separate() {
      {snd.lossList.data1, snd.lossList.data2, snd.lossList.next} !!
        {rcv.lossList.data1, rcv.lossList.data2, rcv.lossList.next, rcv.lossList.prior,
         rcv.ackWindow.seqNos, rcv.ackWindow.acks, rcv.ackWindow.times}
    }

    ghost predicate SndOk()
      reads this`es, snd, snd.buffer, snd.buffer.chain
      reads snd.lossList, snd.lossList.data1, snd.lossList.data2, snd.lossList.next
    {
      snd.Valid() && snd.st == Now().snd && snd.lossList.size == 2 * window
    }

    ghost predicate RcvOk()
      reads this`es, rcv, rcv.buffer, rcv.buffer.queue, rcv.buffer.queue.ring, rcv.buffer.queue.members
      reads rcv.buffer.queue.buffers, rcv.buffer.slots.units, rcv.buffer.slots.units[..]
      reads set b | b in rcv.buffer.queue.buffers :: b.units
      reads rcv.lossList, rcv.lossList.data1, rcv.lossList.data2, rcv.lossList.next, rcv.lossList.prior
      reads rcv.ackWindow, rcv.ackWindow.seqNos, rcv.ackWindow.acks, rcv.ackWindow.times
    {
      rcv.Valid() && rcv.st == Now().rcv && rcv.buffer.isn == isn
    }

    ghost predicate WireOk()
      reads this`es, this`wire, this`msgs, snd`packets
    {
      AllCode(wire, msgs, Now().net, snd.packets, isn)
    }

    /** In message mode, the slots and the packets sent are those of a run of
        messages. */
    ghost predicate MsgsOk()
      reads this`ms, snd`packets, rcv`st, rcv.buffer`readIdx, rcv.buffer`notch
      reads rcv.buffer.slots.units, rcv.buffer.slots.units[..]
    {
      !stream ==>
        && snd.buffer.mss > 0 && rcv.buffer.notch == 0 && MessageRuns.Inv(ms, isn, snd.buffer.mss)
        && ms.c == rcv.Cells() && ms.readIdx == rcv.st.win.readIdx && ms.ackIdx == rcv.st.win.ackIdx
        && Stream(ms.sent, snd.buffer.mss) == snd.packets
    }

    ghost predicate Valid()
      reads this, snd, snd.buffer, snd.buffer.chain
      reads snd.lossList, snd.lossList.data1, snd.lossList.data2, snd.lossList.next
      reads rcv, rcv.buffer, rcv.buffer.queue, rcv.buffer.queue.ring, rcv.buffer.queue.members
      reads rcv.buffer.queue.buffers, rcv.buffer.slots.units, rcv.buffer.slots.units[..]
      reads set b | b in rcv.buffer.queue.buffers :: b.units
      reads rcv.lossList, rcv.lossList.data1, rcv.lossList.data2, rcv.lossList.next, rcv.lossList.prior
      reads rcv.ackWindow, rcv.ackWindow.seqNos, rcv.ackWindow.acks, rcv.ackWindow.times
    {
      SizesOk(isn, size, window) && Separate() && SndOk() && RcvOk() && WireOk() && MsgsOk()
    }

    /** The objects that make up the two ends. */
    ghost function Fixed(): set<object> {
      {snd, snd.buffer, snd.lossList, snd.lossList.data1, snd.lossList.data2, snd.lossList.next,
       rcv, rcv.buffer, rcv.buffer.slots.units, rcv.buffer.queue, rcv.lossList, rcv.lossList.data1,
       rcv.lossList.data2, rcv.lossList.next, rcv.lossList.prior,
       rcv.ackWindow, rcv.ackWindow.seqNos, rcv.ackWindow.acks, rcv.ackWindow.times}
    }

    /** All objects the methods below may change. */
    ghost function Repr(): set<object>
      reads this, snd.buffer`chain, rcv.buffer.queue`members, rcv.buffer.queue`ring
    {
      {this} + Fixed() + (set b | b in snd.buffer.chain)
      + rcv.buffer.queue.members + (set e | e in rcv.buffer.queue.ring)
    }

    lemma ReprIs()
      ensures Repr() == {this} + Fixed() + (set b | b in snd.buffer.chain)
        + rcv.buffer.queue.members + (set e | e in rcv.buffer.queue.ring)
    {
    }

    lemma FixedIs()
      ensures Fixed() ==
        {snd, snd.buffer, snd.lossList, snd.lossList.data1, snd.lossList.data2, snd.lossList.next,
         rcv, rcv.buffer, rcv.buffer.slots.units, rcv.buffer.queue, rcv.lossList, rcv.lossList.data1,
         rcv.lossList.data2, rcv.lossList.next, rcv.lossList.prior,
         rcv.ackWindow, rcv.ackWindow.seqNos, rcv.ackWindow.acks, rcv.ackWindow.times}
    {
    }

    lemma InFixed()
      ensures snd in Fixed() && snd.buffer in Fixed() && snd.lossList in Fixed() && rcv in Fixed()
      ensures snd.lossList.data1 in Fixed() && snd.lossList.data2 in Fixed() && snd.lossList.next in Fixed()
      ensures rcv.buffer in Fixed() && rcv.buffer.slots.units in Fixed() && rcv.buffer.queue in Fixed()
      ensures rcv.lossList in Fixed() && rcv.lossList.data1 in Fixed() && rcv.lossList.data2 in Fixed()
      ensures rcv.lossList.next in Fixed() && rcv.lossList.prior in Fixed() && rcv.ackWindow in Fixed()
      ensures rcv.ackWindow.seqNos in Fixed() && rcv.ackWindow.acks in Fixed() && rcv.ackWindow.times in Fixed()
    {
    }

    lemma UnitsAreMembers()
      requires Valid()
      ensures Buf.UnitsIn(rcv.buffer.slots.units[..]) <= rcv.buffer.queue.members
    {
      hide *;
      Parts();
      rcv.UnitsAreMembers();
    }

    constructor (isn: int, mss: int, size: int, window: int, flight: int, sndBufSize: int, stream: bool,
                 queue: UnitPool.UnitQueue)
      requires SizesOk(isn, size, window) && mss > 0 && size <= flight + 2 && 0 < flight < TH && queue.Valid()
      modifies queue`buffers
      ensures Valid() && es == [] && this.stream == stream && wire == []
      ensures ms == MessageRuns.State(map[], isn, isn, [], [], [])
      ensures fresh(snd) && fresh(snd.buffer) && fresh(snd.buffer.chain) && fresh(snd.lossList)
      ensures fresh(snd.lossList.data1) && fresh(snd.lossList.data2) && fresh(snd.lossList.next)
      ensures fresh(rcv) && fresh(rcv.buffer) && fresh(rcv.buffer.slots.units) && rcv.buffer.queue == queue
      ensures fresh(rcv.lossList) && fresh(rcv.lossList.data1) && fresh(rcv.lossList.data2)
      ensures fresh(rcv.lossList.next) && fresh(rcv.lossList.prior)
      ensures fresh(rcv.ackWindow) && fresh(rcv.ackWindow.seqNos) && fresh(rcv.ackWindow.acks)
      ensures fresh(rcv.ackWindow.times)
    {
      hide *;
      SizesAre(isn, size, window);
      snd := new S.SenderEnd(isn, mss, window, sndBufSize, size);
      rcv := new R.ReceiverEnd(isn, size, flight, queue);
      this.stream, wire := stream, [];
      this.isn, this.size, this.window, es, msgs := isn, size, window, [], [];
      ms := MessageRuns.State(map[], isn, isn, [], [], []);
      new;
      StartEnds(isn, size, window);
      NowIs();
      Began();
    }

    lemma Began()
      requires SizesOk(isn, size, window) && snd.Valid() && rcv.Valid() && snd.lossList.size == 2 * window
      requires snd.buffer.mss > 0 && rcv.buffer.notch == 0 && rcv.Cells() == map[] && snd.packets == []
      requires ms == MessageRuns.State(map[], isn, isn, [], [], [])
      requires rcv.buffer.isn == isn && wire == [] && msgs == [] && Now() == After(Start(isn, size, window), [])
      requires snd.st == Start(isn, size, window).snd && rcv.st == Start(isn, size, window).rcv
      requires {snd.lossList.data1, snd.lossList.data2, snd.lossList.next} !!
        {rcv.lossList.data1, rcv.lossList.data2, rcv.lossList.next, rcv.lossList.prior,
         rcv.ackWindow.seqNos, rcv.ackWindow.acks, rcv.ackWindow.times}
      ensures Valid()
    {
      hide S.SenderEnd.Valid, R.ReceiverEnd.Valid;
      MessageRuns.StartInv(isn, snd.buffer.mss);
    }

    // ----- what the runs of the protocol give the ends -----

    lemma Parts()
      ensures Valid() <==>
        && SizesOk(isn, size, window) && Separate() && MsgsOk()
        && snd.Valid() && snd.st == Now().snd && snd.lossList.size == 2 * window
        && rcv.Valid() && rcv.st == Now().rcv && rcv.buffer.isn == isn
        && AllCode(wire, msgs, Now().net, snd.packets, isn)
    {
      hide S.SenderEnd.Valid, R.ReceiverEnd.Valid, AllCode;
    }

    lemma SeparateIs()
      ensures Separate() <==>
        {snd.lossList.data1, snd.lossList.data2, snd.lossList.next} !!
          {rcv.lossList.data1, rcv.lossList.data2, rcv.lossList.next, rcv.lossList.prior,
           rcv.ackWindow.seqNos, rcv.ackWindow.acks, rcv.ackWindow.times}
    {
    }

    /** The run is one from the start, so all results about runs hold of the ends. */
    lemma Reached()
      requires Valid()
      ensures Reachable(isn, size, window, es, Now()) && snd.st == Now().snd && rcv.st == Now().rcv
    {
    }

    /** What the receiver has handed out is a prefix of what the sender took. */
    lemma Prefix()
      requires Valid()
      ensures rcv.st.delivered <= snd.st.accepted
    {
      Reached();
      DeliveredIsPrefix(isn, size, window, es, Now());
    }

    /** Of the messages the sender took, those returned came byte for byte, none
        of them twice, and those to be in order only after all before them. */
    lemma MessagesDelivered()
      requires Valid() && !stream
      ensures MessageRuns.Once(ms.got) && MessageRuns.Fair(ms) && MessageRuns.Faithful(ms)
      ensures snd.buffer.mss > 0 && snd.packets == Stream(ms.sent, snd.buffer.mss)
    {
      hide S.SenderEnd.Valid, R.ReceiverEnd.Valid, Stream;
    }

    /** The sender's methods may be called. */
    lemma SenderMay()
      requires Valid()
      ensures S.Ready(snd.st, snd.lossList.size) && !snd.st.broken && snd.st.isn == isn
      ensures snd.st.pending.Some? ==> S.InReach(snd.st, snd.st.pending.value)
    {
      hide *;
      Parts();
      SizesAre(isn, size, window);
      Reached();
      SenderReady(isn, size, window, es, Now());
      NeverBroken(isn, size, window, es, Now());
      NowIs();
      ReachableIs(isn, size, window, es, Now());
      IsnFixed(isn, size, window, es);
      if snd.st.pending.Some? { PendingReach(isn, size, window, es, Now()); }
    }

    /** So may the receiver's, while the peer's last confirmation is recent. */
    lemma ReceiverMay()
      requires Valid() && Recent(Now(), rcv.st.lastAckAck)
      ensures R.Close(rcv.st) && R.Behind(rcv.st, MOD) && !R.Mute(rcv.st)
    {
      hide *;
      Parts();
      SizesAre(isn, size, window);
      Reached();
      ReceiverReady(isn, size, window, es, Now());
      R.Hears(rcv.st);
    }

    /** What the receiver's state satisfies. */
    lemma ReceiverInv()
      requires Valid()
      ensures ProtocolInv.RcvOk(rcv.st) && 0 <= rcv.st.win.readIdx <= rcv.st.win.ackIdx
      ensures forall i :: i in rcv.st.win.slots ==> |rcv.st.win.slots[i]| > 0
    {
      hide *;
      Parts();
      SizesAre(isn, size, window);
      Reached();
      ReachableIs(isn, size, window, es, Now());
      RunKeeps(isn, size, window, es);
      IsnFixed(isn, size, window, es);
      InvOfReceiver(Now());
    }

    lemma MsgsAre()
      ensures MsgsOk() <==> (!stream ==>
        && snd.buffer.mss > 0 && rcv.buffer.notch == 0 && MessageRuns.Inv(ms, isn, snd.buffer.mss)
        && ms.c == rcv.Cells() && ms.readIdx == rcv.st.win.readIdx && ms.ackIdx == rcv.st.win.ackIdx
        && Stream(ms.sent, snd.buffer.mss) == snd.packets)
    {
    }

    /** One more message is sent. */
    ghost method Wrote(m: Sent, ps: seq<Packet>)
      requires !stream && snd.buffer.mss > 0 && rcv.buffer.notch == 0 && MessageRuns.Inv(ms, isn, snd.buffer.mss)
      requires ms.c == rcv.Cells() && ms.readIdx == rcv.st.win.readIdx && ms.ackIdx == rcv.st.win.ackIdx
      requires Stream(ms.sent, snd.buffer.mss) == ps && m.no < MSG_LIMIT
      requires snd.packets == ps + Packets(Chunks(m.data, snd.buffer.mss), m.no, m.order)
      modifies this`ms
      ensures MsgsOk() && ms == old(ms).(sent := old(ms.sent) + [m])
    {
      hide *;
      ghost var was := ms;
      ms := ms.(sent := ms.sent + [m]);
      SendIs(was, m, isn, snd.buffer.mss);
      MessageRuns.StepInv(was, MessageRuns.Send(m), ms, isn, snd.buffer.mss);
      MsgsAre();
    }

    /** An event of the run. */
    ghost method Happens(e: Event)
      modifies this`es
      ensures es == old(es) + [e] && Now() == Step(old(Now()), e)
    {
      hide *;
      NowIs();
      RunStep(isn, size, window, es, e);
      es := es + [e];
      NowIs();
    }

    /** After an event that adds to the messages `net` under way, one of them may go out. */
    method Post(out: bool, w: Wire, ghost m: Msg, ghost net: set<Msg>)
      requires AllCode(wire, msgs, net, snd.packets, isn) && net <= Now().net
      requires out ==> m in Now().net && Codes(w, m, snd.packets, isn)
      modifies this`wire, this`msgs
      ensures AllCode(wire, msgs, Now().net, snd.packets, isn)
      ensures Added(old(wire), old(msgs), wire, msgs, if out then {m} else {}, snd.packets, isn)
      ensures wire == old(wire) + if out then [w] else []
    {
      hide *;
      AddedNone(wire, msgs, snd.packets, isn);
      AddedOne(wire, msgs, w, m, snd.packets, isn);
      StillCode(wire, msgs, net, Now().net, snd.packets, snd.packets, isn);
      if out {
        OneMoreCodes(wire, msgs, Now().net, snd.packets, isn, w, m);
        wire, msgs := wire + [w], msgs + [m];
      }
    }

    // ----- the sender's side -----

    /** send() or sendmsg(). */
    method Send(data: Payload, order: bool, waits: bool) returns (n: int, r: S.Status)
      requires Valid() && (!stream ==> snd.buffer.nextMsgNo < MSG_LIMIT)
      modifies this`es, this`ms, snd`st, snd`packets, snd.buffer, snd.buffer.chain
      ensures Valid() && 0 <= n <= |data|
      ensures es == old(es) + if n > 0 then [Event.Send(data[..n], snd.buffer.mss)] else []
      ensures ms == if stream || n == 0 then old(ms)
        else old(ms).(sent := old(ms.sent) + [Sent(data, order, old(snd.buffer.nextMsgNo))])
      ensures n == snd.Taken(stream, old(snd.Used()), |data|) && r == snd.Says(stream, old(snd.Used()), |data|, waits)
      ensures stream ==> n == |data| || snd.Used() >= snd.sndBufSize
      ensures !stream && data != [] ==>
        (n > 0 <==> old(snd.Used()) + |Chunks(data, snd.buffer.mss)| <= snd.sndBufSize)
      ensures snd.buffer.nextMsgNo == if n == 0 then old(snd.buffer.nextMsgNo) else old(snd.buffer.nextMsgNo) + 1
      ensures snd.buffer.Own()
    {
      hide *;
      Parts();
      MineIs();
      n, r := SendSide(data, order, waits);
      MineIs();
      Parts();
    }

    method SendSide(data: Payload, order: bool, waits: bool) returns (n: int, r: S.Status)
      requires Mine() && MsgsOk() && (!stream ==> snd.buffer.nextMsgNo < MSG_LIMIT)
      modifies this`es, this`ms, snd`st, snd`packets, snd.buffer, snd.buffer.chain
      ensures Mine() && MsgsOk() && Now().rcv == old(Now().rcv) && 0 <= n <= |data|
      ensures es == old(es) + if n > 0 then [Event.Send(data[..n], snd.buffer.mss)] else []
      ensures ms == if stream || n == 0 then old(ms)
        else old(ms).(sent := old(ms.sent) + [Sent(data, order, old(snd.buffer.nextMsgNo))])
      ensures n == snd.Taken(stream, old(snd.Used()), |data|) && r == snd.Says(stream, old(snd.Used()), |data|, waits)
      ensures stream ==> n == |data| || snd.Used() >= snd.sndBufSize
      ensures !stream && data != [] ==>
        (n > 0 <==> old(snd.Used()) + |Chunks(data, snd.buffer.mss)| <= snd.sndBufSize)
      ensures snd.buffer.nextMsgNo == if n == 0 then old(snd.buffer.nextMsgNo) else old(snd.buffer.nextMsgNo) + 1
      ensures snd.buffer.Own()
    {
      hide *;
      MineIs();
      MsgsAre();
      ghost var y, ps, no := Now(), snd.packets, snd.buffer.nextMsgNo;
      n, r := snd.Take(stream, data, order, waits);
      Took(y, ps, n, data[..n], Sent(data, order, no));
    }

    /** The sender has taken `n` bytes. */
    ghost method Took(y: Sys, ps: seq<Packet>, n: int, sent: Payload, m: Sent)
      requires y == Now() && AllCode(wire, msgs, y.net, ps, isn) && ps <= snd.packets && snd.buffer.mss > 0
      requires snd.Valid() && snd.lossList.size == 2 * window
      requires n <= 0 ==> snd.st == y.snd && snd.packets == ps
      requires n > 0 ==> snd.st == AppSend(y.snd, sent, snd.buffer.mss)
      requires !stream ==>
        && rcv.buffer.notch == 0 && MessageRuns.Inv(ms, isn, snd.buffer.mss)
        && ms.c == rcv.Cells() && ms.readIdx == rcv.st.win.readIdx && ms.ackIdx == rcv.st.win.ackIdx
        && Stream(ms.sent, snd.buffer.mss) == ps && m.no < MSG_LIMIT
      requires !stream && n > 0 ==> snd.packets == ps + Packets(Chunks(m.data, snd.buffer.mss), m.no, m.order)
      modifies this`es, this`ms
      ensures Mine() && MsgsOk() && Now().rcv == y.rcv
      ensures es == old(es) + if n > 0 then [Event.Send(sent, snd.buffer.mss)] else []
      ensures ms == if stream || n <= 0 then old(ms) else old(ms).(sent := old(ms.sent) + [m])
    {
      hide *;
      if n > 0 {
        Happens(Event.Send(sent, snd.buffer.mss));
        SendStep(y, sent, snd.buffer.mss);
        if !stream { Wrote(m, ps); }
      }
      StillCode(wire, msgs, y.net, Now().net, ps, snd.packets, isn);
      MsgsAre();
      MineIs();
    }

    /** What the sender's steps need, and keep, of this side. */
    ghost predicate Mine()
      reads this`es, this`wire, this`msgs, snd, snd.buffer, snd.buffer.chain
      reads snd.lossList, snd.lossList.data1, snd.lossList.data2, snd.lossList.next
    {
      && snd.Valid() && snd.st == Now().snd && snd.lossList.size == 2 * window
      && AllCode(wire, msgs, Now().net, snd.packets, isn)
    }

    lemma MineIs()
      ensures Mine() <==>
        && snd.Valid() && snd.st == Now().snd && snd.lossList.size == 2 * window
        && AllCode(wire, msgs, Now().net, snd.packets, isn)
    {
      hide S.SenderEnd.Valid, AllCode;
    }

    /** packData(), either half. */
    method Pack(congestion: int)
      requires Valid()
      modifies this`wire, this`msgs, this`es, snd`st, snd`pendingSeq, snd`sndCurrSeqNo
      modifies snd.buffer`currBlock, snd.buffer`cursor
      modifies snd.lossList, snd.lossList.data1, snd.lossList.data2, snd.lossList.next
      ensures Valid() && es == old(es) + [Event.Pack(congestion)]
      ensures Added(old(wire), old(msgs), wire, msgs, S.PackBoth(old(snd.st), congestion).1, snd.packets, isn)
      ensures Paced(old(snd.st), snd.st, congestion)
      ensures old(snd.st).pending.None? ==> |wire| - |old(wire)| == snd.st.currSeq - old(snd.st).currSeq
    {
      hide *;
      Parts();
      MineIs();
      SeparateIs();
      SenderMay();
      PackSide(congestion);
      MineIs();
      Parts();
    }

    method PackSide(congestion: int)
      requires Mine() && S.Ready(snd.st, snd.lossList.size) && snd.st.isn == isn
      requires snd.st.pending.Some? ==> S.InReach(snd.st, snd.st.pending.value)
      modifies this`wire, this`msgs, this`es, snd`st, snd`pendingSeq, snd`sndCurrSeqNo
      modifies snd.buffer`currBlock, snd.buffer`cursor
      modifies snd.lossList, snd.lossList.data1, snd.lossList.data2, snd.lossList.next
      ensures Mine() && es == old(es) + [Event.Pack(congestion)] && Now().rcv == old(Now().rcv)
      ensures Added(old(wire), old(msgs), wire, msgs, S.PackBoth(old(snd.st), congestion).1, snd.packets, isn)
      ensures Paced(old(snd.st), snd.st, congestion)
      ensures old(snd.st).pending.None? ==> |wire| - |old(wire)| == snd.st.currSeq - old(snd.st).currSeq
    {
      hide *;
      MineIs();
      ghost var y, x := Now(), 0;
      PackStep(y, congestion);
      var sent, seqno, p;
      sent, seqno, p, x := snd.Pack(congestion);
      Happens(Event.Pack(congestion));
      if sent { CodesData(seqno, p, x, snd.packets, isn); }
      Post(sent, WData(seqno, p), Data(x, p.data), y.net);
      MineIs();
    }

    /** The expiration timer. */
    method Expire()
      requires Valid()
      modifies this`es, snd`st, snd.lossList, snd.lossList.data1, snd.lossList.data2, snd.lossList.next
      ensures Valid() && es == old(es) + [Event.Expire] && snd.st == old(snd.st).(loss := snd.st.loss)
      ensures forall y :: y in snd.st.loss <==> y in old(snd.st).loss || snd.st.lastAck <= y <= snd.st.currSeq
    {
      hide *;
      Parts();
      SeparateIs();
      SenderMay();
      ghost var y := Now();
      snd.OnExp();
      Happens(Event.Expire);
      ExpireStep(y);
      Parts();
    }

    /** An acknowledgement or a loss report reaches the sender; `reply` says that
        it is time to confirm an acknowledgement. */
    method ToSender(i: int, reply: bool)
      requires Valid() && 0 <= i < |wire| && RecentMsg(Now(), msgs[i])
      modifies this`wire, this`msgs, this`es
      modifies snd`st, snd`broken, snd`flowWindowSize, snd`sndLastAck, snd`sndLastDataAck
      modifies snd.buffer`firstBlock, snd.buffer`count, snd.buffer`chain, snd.buffer`cursor
      modifies snd.lossList, snd.lossList.data1, snd.lossList.data2, snd.lossList.next
      ensures Valid() && es == old(es) + [Event.ToSender(old(msgs)[i], reply)]
      ensures Added(old(wire), old(msgs), wire, msgs, SenderGets(old(snd.st), old(msgs)[i], reply).1, snd.packets, isn)
      ensures forall b :: b in snd.buffer.chain <==> b in old(snd.buffer.chain)
      ensures Heard(old(snd.st), snd.st, old(msgs)[i])
    {
      hide *;
      Parts();
      MineIs();
      SeparateIs();
      SenderMay();
      MessageMay(i);
      ToSenderSide(i, reply);
      MineIs();
      Parts();
    }

    method ToSenderSide(i: int, reply: bool)
      requires Mine() && S.Ready(snd.st, snd.lossList.size) && !snd.st.broken
      requires 0 <= i < |wire| && Reaches(Now(), msgs[i])
      modifies this`wire, this`msgs, this`es
      modifies snd`st, snd`broken, snd`flowWindowSize, snd`sndLastAck, snd`sndLastDataAck
      modifies snd.buffer`firstBlock, snd.buffer`count, snd.buffer`chain, snd.buffer`cursor
      modifies snd.lossList, snd.lossList.data1, snd.lossList.data2, snd.lossList.next
      ensures Mine() && es == old(es) + [Event.ToSender(old(msgs)[i], reply)] && Now().rcv == old(Now().rcv)
      ensures Added(old(wire), old(msgs), wire, msgs, SenderGets(old(snd.st), old(msgs)[i], reply).1, snd.packets, isn)
      ensures forall b :: b in snd.buffer.chain <==> b in old(snd.buffer.chain)
      ensures Heard(old(snd.st), snd.st, old(msgs)[i])
    {
      hide *;
      MineIs();
      CodeAt(wire, msgs, Now().net, snd.packets, isn, i);
      ghost var y, m := Now(), msgs[i];
      CodesKind(wire[i], m, snd.packets, isn);
      ReachesIs(y, m);
      GetsStep(y, m, reply);
      var w := wire[i];
      HeardIs(y.snd, m);
      match w {
        case WLite(ack) => snd.OnLiteAck(ack, m.ack);
        case WFull(no, ack, window) => snd.OnFullAck(ack, window, m.ack);
        case WNak(words) => snd.OnNak(words, m.spans);
        case _ =>
      }
      Happens(Event.ToSender(m, reply));
      var confirm := w.WFull? && reply;
      if confirm { CodesAck2(w, m, snd.packets, isn); }
      Post(confirm, WAck2(if w.WFull? then w.ackNo else 0), Ack2(if m.FullAck? then m.ackNo else 0), y.net);
      MineIs();
    }

    /** A recent message on the wire carries numbers that can be told apart. */
    lemma MessageMay(i: int)
      requires Valid() && 0 <= i < |wire| && RecentMsg(Now(), msgs[i])
      ensures |wire| == |msgs| && msgs[i] in Now().net && Reaches(Now(), msgs[i])
    {
      hide *;
      Parts();
      CodeAt(wire, msgs, Now().net, snd.packets, isn, i);
      SizesAre(isn, size, window);
      Reached();
      MessagesReach(isn, size, window, es, Now(), msgs[i]);
      ReachesIs(Now(), msgs[i]);
    }

    // ----- the receiver's side -----

    /** What the receiver's steps need, and keep, of this side. */
    ghost predicate Theirs()
      reads this`es, this`wire, this`msgs, this`ms, snd`packets
      reads rcv, rcv.buffer, rcv.buffer.queue, rcv.buffer.queue.ring, rcv.buffer.queue.members
      reads rcv.buffer.queue.buffers, rcv.buffer.slots.units, rcv.buffer.slots.units[..]
      reads set b | b in rcv.buffer.queue.buffers :: b.units
      reads rcv.lossList, rcv.lossList.data1, rcv.lossList.data2, rcv.lossList.next, rcv.lossList.prior
      reads rcv.ackWindow, rcv.ackWindow.seqNos, rcv.ackWindow.acks, rcv.ackWindow.times
    {
      && rcv.Valid() && rcv.st == Now().rcv && rcv.buffer.isn == isn && MsgsOk()
      && AllCode(wire, msgs, Now().net, snd.packets, isn)
    }

    lemma TheirsIs()
      ensures Theirs() <==>
        && rcv.Valid() && rcv.st == Now().rcv && rcv.buffer.isn == isn && MsgsOk()
        && AllCode(wire, msgs, Now().net, snd.packets, isn)
    {
      hide R.ReceiverEnd.Valid, AllCode, MsgsOk;
    }

    /** A data packet reaches the receiver, in a free unit. */
    method DataToReceiver(i: int, u: UnitPool.Unit)
      requires Valid() && 0 <= i < |wire| && RecentMsg(Now(), msgs[i]) && wire[i].WData?
      requires u in rcv.buffer.queue.members && u.flag == 0
      modifies this`wire, this`msgs, this`es, this`ms, u`payload, u`word
      modifies rcv`st, rcv`rcvCurrSeqNo, rcv.buffer`maxPos, rcv.buffer.slots.units
      modifies u`flag, u`owner, u`at, rcv.buffer.queue`count
      modifies rcv.lossList, rcv.lossList.data1, rcv.lossList.data2, rcv.lossList.next, rcv.lossList.prior
      ensures Valid() && es == old(es) + [Event.ToReceiver(old(msgs)[i], false)]
      ensures Added(old(wire), old(msgs), wire, msgs,
        ReceiverGets(old(rcv.st), old(msgs)[i], false).1, snd.packets, isn)
      ensures ms == old(ms).(c := ms.c)
    {
      hide *;
      Parts();
      TheirsIs();
      SeparateIs();
      ReceiverInv();
      MessageMay(i);
      DataSide(i, u);
      TheirsIs();
      Parts();
    }

    /** A unit of the pool for the next packet. */
    method GetUnit() returns (u: UnitPool.Unit?)
      requires Valid()
      modifies rcv.buffer.queue, rcv.buffer.queue.ring
      ensures Valid() && fresh(Repr() - old(Repr())) && old(rcv.buffer.queue.members) <= rcv.buffer.queue.members
      ensures u != null ==> u in rcv.buffer.queue.members && u.flag == 0
      ensures u == null <==> old(rcv.buffer.queue.Dry())
      ensures fresh(rcv.buffer.queue.members - old(rcv.buffer.queue.members))
    {
      hide *;
      ReprIs();
      Parts();
      MsgsAre();
      u := rcv.GetUnit();
      MsgsAre();
      Parts();
      ReprIs();
    }

    /** A data packet is read from the channel into a unit of the pool; without
        one it is dropped. */
    method Receive(i: int) returns (u: UnitPool.Unit?)
      requires Valid() && 0 <= i < |wire| && RecentMsg(Now(), msgs[i]) && wire[i].WData?
      modifies this`wire, this`msgs, this`es, this`ms, rcv.buffer.queue, rcv.buffer.queue.ring
      modifies rcv`st, rcv`rcvCurrSeqNo, rcv.buffer`maxPos, rcv.buffer.slots.units, rcv.buffer.queue.members
      modifies rcv.lossList, rcv.lossList.data1, rcv.lossList.data2, rcv.lossList.next, rcv.lossList.prior
      ensures Valid() && es == old(es) + if u == null then [] else [Event.ToReceiver(old(msgs)[i], false)]
      ensures u == null <==> old(rcv.buffer.queue.Dry())
      ensures Added(old(wire), old(msgs), wire, msgs,
        if u == null then {} else ReceiverGets(old(rcv.st), old(msgs)[i], false).1, snd.packets, isn)
      ensures ms == old(ms).(c := ms.c) && fresh(Repr() - old(Repr()))
    {
      hide *;
      u := GetUnit();
      AddedNone(wire, msgs, snd.packets, isn);
      if u != null {
        ReprIs();
        DataToReceiver(i, u);
        ReprIs();
      }
    }

    method DataSide(i: int, u: UnitPool.Unit)
      requires Theirs() && ProtocolInv.RcvOk(rcv.st) && 0 <= rcv.st.win.readIdx <= rcv.st.win.ackIdx
      requires 0 <= i < |wire| && Reaches(Now(), msgs[i]) && wire[i].WData?
      requires u in rcv.buffer.queue.members && u.flag == 0
      modifies this`wire, this`msgs, this`es, this`ms, u`payload, u`word
      modifies rcv`st, rcv`rcvCurrSeqNo, rcv.buffer`maxPos, rcv.buffer.slots.units
      modifies u`flag, u`owner, u`at, rcv.buffer.queue`count
      modifies rcv.lossList, rcv.lossList.data1, rcv.lossList.data2, rcv.lossList.next, rcv.lossList.prior
      ensures Theirs() && es == old(es) + [Event.ToReceiver(old(msgs)[i], false)] && Now().snd == old(Now().snd)
      ensures Added(old(wire), old(msgs), wire, msgs,
        ReceiverGets(old(rcv.st), old(msgs)[i], false).1, snd.packets, isn)
      ensures ms == old(ms).(c := ms.c)
    {
      hide *;
      TheirsIs();
      CodeAt(wire, msgs, Now().net, snd.packets, isn, i);
      ghost var y, m := Now(), msgs[i];
      CodesKind(wire[i], m, snd.packets, isn);
      ReachesIs(y, m);
      DataStep(y, m);
      var nak := Accept(u, wire[i].seqno, wire[i].packet, m.seqno);
      Happens(Event.ToReceiver(m, false));
      ghost var nd := Node(y.rcv.currSeq + 1, m.seqno - 1);
      if nak != [] { CodesNak(nak, nd, snd.packets, isn); }
      Post(nak != [], WNak(nak), Loss([nd]), y.net);
      TheirsIs();
    }

    /** The packet is handled; `nak` is what to report. */
    method Accept(u: UnitPool.Unit, seqno: int, p: Packet, ghost x: int) returns (nak: seq<int>)
      requires rcv.Valid() && rcv.buffer.isn == isn && MsgsOk() && ProtocolInv.RcvOk(rcv.st)
      requires 0 <= rcv.st.win.readIdx <= rcv.st.win.ackIdx && S.At(snd.packets, x - isn, p)
      requires seqno == Wrap(x) && Near(rcv.st.win.ackIdx, x) && u in rcv.buffer.queue.members && u.flag == 0
      modifies this`ms, u`payload, u`word
      modifies rcv`st, rcv`rcvCurrSeqNo, rcv.buffer`maxPos, rcv.buffer.slots.units
      modifies u`flag, u`owner, u`at, rcv.buffer.queue`count
      modifies rcv.lossList, rcv.lossList.data1, rcv.lossList.data2, rcv.lossList.next, rcv.lossList.prior
      ensures rcv.Valid() && MsgsOk() && ms == old(ms).(c := ms.c)
      ensures var (r, out) := OnData(old(rcv.st), x, p.data); var nd := Node(old(rcv.st).currSeq + 1, x - 1);
        && rcv.st == r && out == (if nak != [] then {Loss([nd])} else {})
        && (nak != [] ==> nak == Nak.Words(nd))
    {
      hide *;
      MsgsAre();
      ghost var was := rcv.st;
      rcv.Load(u, p.data, p.word);
      var r;
      r, nak := rcv.OnData(u, seqno, x);
      if r == 0 && !stream { Got(x, p, was); }
      MsgsAre();
    }

    /** One more packet is there. */
    ghost method Got(x: int, p: Packet, was: Receiver)
      requires !stream && snd.buffer.mss > 0 && rcv.buffer.notch == 0 && MessageRuns.Inv(ms, isn, snd.buffer.mss)
      requires Stream(ms.sent, snd.buffer.mss) == snd.packets && S.At(snd.packets, x - isn, p)
      requires x !in ms.c && rcv.Cells() == ms.c[x := Reassembly.Held(p.data, p.word, 1)]
      requires ms.readIdx == was.win.readIdx && ms.ackIdx == was.win.ackIdx && 0 <= x - was.win.ackIdx
      requires rcv.st.win.readIdx == was.win.readIdx <= was.win.ackIdx == rcv.st.win.ackIdx
      modifies this`ms
      ensures MsgsOk() && ms == old(ms).(c := ms.c)
    {
      hide *;
      ghost var s := ms;
      ms := ms.(c := rcv.Cells());
      ArriveIs(s, x, p, isn, snd.buffer.mss);
      MessageRuns.StepInv(s, MessageRuns.Arrive(x), ms, isn, snd.buffer.mss);
      MsgsAre();
    }

    /** A confirmation of an acknowledgement reaches the receiver. */
    method Ack2ToReceiver(i: int, now: int) returns (counted: bool)
      requires Valid() && 0 <= i < |wire| && RecentMsg(Now(), msgs[i]) && wire[i].WAck2?
      requires Recent(Now(), rcv.st.lastAckAck)
      modifies this`wire, this`msgs, this`es
      modifies rcv`st, rcv`rcvLastAckAck, rcv.ackWindow`head, rcv.ackWindow`tail, rcv.ackWindow.seqNos
      ensures Valid() && es == old(es) + [Event.ToReceiver(old(msgs)[i], counted)]
      ensures wire == old(wire) && msgs == old(msgs)
    {
      hide *;
      Parts();
      TheirsIs();
      SeparateIs();
      ReceiverMay();
      MessageMay(i);
      counted := Ack2Side(i, now);
      TheirsIs();
      Parts();
    }

    method Ack2Side(i: int, now: int) returns (counted: bool)
      requires Theirs() && R.Close(rcv.st) && 0 <= i < |wire| && Reaches(Now(), msgs[i]) && wire[i].WAck2?
      modifies this`wire, this`msgs, this`es
      modifies rcv`st, rcv`rcvLastAckAck, rcv.ackWindow`head, rcv.ackWindow`tail, rcv.ackWindow.seqNos
      ensures Theirs() && es == old(es) + [Event.ToReceiver(old(msgs)[i], counted)] && Now().snd == old(Now().snd)
      ensures wire == old(wire) && msgs == old(msgs)
    {
      hide *;
      TheirsIs();
      MsgsAre();
      CodeAt(wire, msgs, Now().net, snd.packets, isn, i);
      ghost var y, m := Now(), msgs[i];
      CodesKind(wire[i], m, snd.packets, isn);
      ReachesIs(y, m);
      var rtt := rcv.OnAck2(wire[i].ackNo, now, m.ackNo);
      counted := rtt > 0;
      Ack2Step(y, m, counted);
      Happens(Event.ToReceiver(m, counted));
      MsgsAre();
      StillCode(wire, msgs, y.net, Now().net, snd.packets, snd.packets, isn);
      TheirsIs();
    }

    /** A light acknowledgement. */
    method Lite() returns (ghost x: int)
      requires Valid() && Recent(Now(), rcv.st.lastAckAck)
      modifies this`wire, this`msgs, this`es
      ensures Valid() && es == old(es) + [Event.Lite]
      ensures Added(old(wire), old(msgs), wire, msgs, SendLite(rcv.st), snd.packets, isn)
      ensures wire == old(wire) + if Arrived(rcv.st, rcv.st.lastAckAck) then [WLite(Wrap(x))] else []
      ensures FirstMissing(rcv.st, x)
    {
      hide *;
      Parts();
      ReceiverMay();
      ghost var y := Now();
      var sent, ack;
      sent, ack, x := rcv.SendLite();
      LiteStep(y);
      Happens(Event.Lite);
      if sent { CodesLite(ack, x, snd.packets, isn); }
      Post(sent, WLite(ack), LiteAck(x), y.net);
      Parts();
    }

    /** A full acknowledgement; `resend` says that it is time to repeat the last one. */
    method Full(resend: bool, now: int)
      requires Valid() && Recent(Now(), rcv.st.lastAckAck)
      modifies this`wire, this`msgs, this`es, this`ms
      modifies rcv`st, rcv`rcvLastAck, rcv`ackSeqNo, rcv.buffer`lastAckPos, rcv.buffer`maxPos, rcv.buffer`ackIdx
      modifies rcv.ackWindow`head, rcv.ackWindow`tail, rcv.ackWindow.seqNos, rcv.ackWindow.acks, rcv.ackWindow.times
      ensures Valid() && es == old(es) + [Event.Full(resend)] && ms == old(ms).(ackIdx := ms.ackIdx)
      ensures Added(old(wire), old(msgs), wire, msgs, SendFull(old(rcv.st), resend).1, snd.packets, isn)
      ensures FirstMissing(old(rcv.st), rcv.st.win.ackIdx)
      ensures var r, x := old(rcv.st), rcv.st.win.ackIdx;
        wire == old(wire) + if Arrived(r, r.lastAckAck) && (Arrived(r, r.win.ackIdx) || resend)
          then [WFull(Wrap(r.ackNo + 1), Wrap(x), Larger(2, r.win.readIdx + r.size - 1 - x))] else []
    {
      hide *;
      Parts();
      TheirsIs();
      SeparateIs();
      ReceiverMay();
      FullSide(resend, now);
      TheirsIs();
      Parts();
    }

    method FullSide(resend: bool, now: int)
      requires Theirs() && R.Behind(rcv.st, MOD) && !R.Mute(rcv.st)
      modifies this`wire, this`msgs, this`es, this`ms
      modifies rcv`st, rcv`rcvLastAck, rcv`ackSeqNo, rcv.buffer`lastAckPos, rcv.buffer`maxPos, rcv.buffer`ackIdx
      modifies rcv.ackWindow`head, rcv.ackWindow`tail, rcv.ackWindow.seqNos, rcv.ackWindow.acks, rcv.ackWindow.times
      ensures Theirs() && es == old(es) + [Event.Full(resend)] && Now().snd == old(Now().snd)
      ensures Added(old(wire), old(msgs), wire, msgs, SendFull(old(rcv.st), resend).1, snd.packets, isn)
      ensures FirstMissing(old(rcv.st), rcv.st.win.ackIdx)
      ensures var r, x := old(rcv.st), rcv.st.win.ackIdx;
        wire == old(wire) + if Arrived(r, r.lastAckAck) && (Arrived(r, r.win.ackIdx) || resend)
          then [WFull(Wrap(r.ackNo + 1), Wrap(x), Larger(2, r.win.readIdx + r.size - 1 - x))] else []
      ensures ms == old(ms).(ackIdx := ms.ackIdx)
    {
      hide *;
      TheirsIs();
      MsgsAre();
      ghost var y, no, x := Now(), rcv.st.ackNo + 1, Frontier(rcv.st);
      FullStep(y, resend);
      var sent, ackNo, ack, w := rcv.SendFull(resend, now);
      Happens(Event.Full(resend));
      if !stream { Acked(); }
      MsgsAre();
      if sent { CodesFull(ackNo, ack, w, no, x, snd.packets, isn); }
      Post(sent, WFull(ackNo, ack, w), FullAck(no, x, w), y.net);
      TheirsIs();
    }

    /** More packets are acknowledged. */
    ghost method Acked()
      requires !stream && snd.buffer.mss > 0 && rcv.buffer.notch == 0 && MessageRuns.Inv(ms, isn, snd.buffer.mss)
      requires Stream(ms.sent, snd.buffer.mss) == snd.packets && rcv.Cells() == ms.c
      requires ms.readIdx == rcv.st.win.readIdx && ms.ackIdx <= rcv.st.win.ackIdx
      modifies this`ms
      ensures MsgsOk() && ms == old(ms).(ackIdx := ms.ackIdx)
    {
      hide *;
      ghost var s, n := ms, rcv.st.win.ackIdx - ms.ackIdx;
      ms := ms.(ackIdx := rcv.st.win.ackIdx);
      AckIs(s, n, isn, snd.buffer.mss);
      MessageRuns.StepInv(s, MessageRuns.Ack(n), ms, isn, snd.buffer.mss);
      MsgsAre();
    }

    /** The periodic report of lost numbers. */
    method Report(limit: nat, recent: bool) returns (ghost spans: seq<Node>)
      requires Valid()
      modifies this`wire, this`msgs, this`es
      ensures Valid() && es == old(es) + [Event.Report(spans)]
      ensures ReportOk(rcv.st, spans) && R.FirstOf(Elems(spans), rcv.st.loss) && |Nak.Encode(spans)| <= limit
      ensures !recent && |Nak.Encode(spans)| < limit - 1 ==> Elems(spans) == rcv.st.loss
      ensures Added(old(wire), old(msgs), wire, msgs, if spans == [] then {} else {Loss(spans)}, snd.packets, isn)
    {
      hide *;
      Parts();
      ghost var y := Now();
      var words;
      words, spans := rcv.SendNak(limit, recent);
      SomeWords(spans);
      ReportStep(y, spans);
      Happens(Event.Report(spans));
      CodesWords(words, spans, snd.packets, isn);
      Post(|words| > 0, WNak(words), Loss(spans), y.net);
      Parts();
    }

    /** recv(): the bytes returned go on from those returned before, and all of
        them are the first ones the peer has sent. */
    method Recv(len: nat) returns (data: Payload)
      requires Valid() && stream
      modifies this`es, rcv`st, rcv.buffer`startPos, rcv.buffer`notch, rcv.buffer`readIdx, rcv.buffer.slots.units
      modifies Buf.UnitsIn(rcv.buffer.slots.units[..]), rcv.buffer.queue`count
      ensures Valid() && es == old(es) + [Event.Recv(len)]
      ensures rcv.st.delivered == old(rcv.st.delivered) + data && rcv.st.delivered <= snd.st.accepted
    {
      hide *;
      Parts();
      ghost var y := Now();
      MsgsAre();
      data := rcv.AppRecv(len);
      RecvStep(y, len);
      Happens(Event.Recv(len));
      MsgsAre();
      Parts();
      Prefix();
    }

    /** recvmsg(): one of the messages the peer has sent, cut to the length asked
        for, which no call has returned before; or nothing. */
    method RecvMsg(len: int) returns (data: Payload, ghost got: bool, ghost k: nat)
      requires Valid() && !stream
      modifies this`es, this`ms, rcv`st, rcv.buffer`startPos, rcv.buffer`readIdx, rcv.buffer.slots.units
      modifies Buf.UnitsIn(rcv.buffer.slots.units[..]), rcv.buffer.queue`count
      ensures Valid() && es == old(es) + [Event.Recv(k)] && ms.sent == old(ms.sent)
      ensures !got ==> data == [] && ms.got == old(ms.got) && ms.out == old(ms.out)
      ensures got ==> exists m :: ms.got == old(ms.got) + [m] && MayReturn(old(ms), m, len, data)
      ensures got ==> ms.out == old(ms.out) + [MessageRuns.Returned(len, data)]
    {
      hide *;
      Parts();
      TheirsIs();
      ReceiverInv();
      data, got, k := RecvMsgSide(len);
      TheirsIs();
      Parts();
    }

    method RecvMsgSide(len: int) returns (data: Payload, ghost got: bool, ghost k: nat)
      requires Theirs() && !stream && forall i :: i in rcv.st.win.slots ==> |rcv.st.win.slots[i]| > 0
      modifies this`es, this`ms, rcv`st, rcv.buffer`startPos, rcv.buffer`readIdx, rcv.buffer.slots.units
      modifies Buf.UnitsIn(rcv.buffer.slots.units[..]), rcv.buffer.queue`count
      ensures Theirs() && es == old(es) + [Event.Recv(k)] && ms.sent == old(ms.sent) && Now().snd == old(Now().snd)
      ensures !got ==> data == [] && ms.got == old(ms.got) && ms.out == old(ms.out)
      ensures got ==> exists m :: ms.got == old(ms.got) + [m] && MayReturn(old(ms), m, len, data)
      ensures got ==> ms.out == old(ms.out) + [MessageRuns.Returned(len, data)]
    {
      hide *;
      TheirsIs();
      MsgsAre();
      rcv.Sized();
      ghost var y, s, a, b := Now(), ms, 0, 0;
      MessageEnd.InvParts(ms, isn, snd.buffer.mss);
      rcv.buffer.MsgDef(snd.packets);
      rcv.CellsAre();
      data, got, a, b, k := rcv.RecvMsg(len, snd.packets);
      rcv.Sized();
      rcv.CellsAre();
      rcv.buffer.MsgDef(snd.packets);
      RecvStep(y, k);
      Happens(Event.Recv(k));
      Returned(s, len, data, got, a, b);
      TheirsIs();
    }

    /** A read of messages is done. */
    ghost method Returned(s: MessageRuns.State, len: int, data: Payload, got: bool, a: int, b: int)
      requires ms == s && !stream && snd.buffer.mss > 0 && rcv.buffer.notch == 0
      requires MessageRuns.Inv(s, isn, snd.buffer.mss) && Stream(s.sent, snd.buffer.mss) == snd.packets
      requires Reassembly.Messaging(rcv.Cells(), rcv.st.win.readIdx, snd.packets, isn) && s.ackIdx == rcv.st.win.ackIdx
      requires Reassembly.ReadsMsg(
        s.c, s.readIdx, s.ackIdx, rcv.Cells(), rcv.st.win.readIdx, len, data, got, a, b)
      modifies this`ms
      ensures MsgsOk() && ms.sent == s.sent
      ensures !got ==> data == [] && ms.got == s.got && ms.out == s.out
      ensures got ==> exists m :: ms.got == s.got + [m] && MayReturn(s, m, len, data)
      ensures got ==> ms.out == s.out + [MessageRuns.Returned(len, data)]
    {
      hide *;
      ghost var m := 0;
      if got { m := ReturnedOne(s, rcv.Cells(), rcv.st.win.readIdx, len, data, a, b, isn, snd.buffer.mss); }
      ghost var more := if got then [MessageRuns.Returned(len, data)] else [];
      ms := MessageRuns.State(rcv.Cells(), rcv.st.win.readIdx, s.ackIdx, s.sent,
                              s.got + if got then [m] else [], s.out + more);
      MessageEnd.IsStep(s, ms, got, a, b, m, len, data, isn, snd.buffer.mss);
      ghost var e := if got then MessageRuns.ReadOne(a, b, m, len) else MessageRuns.ReadNone;
      MessageRuns.StepInv(s, e, ms, isn, snd.buffer.mss);
      NothingRead(s.c, s.readIdx, s.ackIdx, rcv.Cells(), rcv.st.win.readIdx, len, data, got, a, b);
      MsgsAre();
    }

    /** The network loses a message. */
    method Lose(i: int)
      requires Valid() && 0 <= i < |wire|
      modifies this`wire, this`msgs
      ensures Valid() && wire == old(wire)[..i] + old(wire)[i + 1..]
    {
      hide *;
      Parts();
      CodeAt(wire, msgs, Now().net, snd.packets, isn, i);
      FewerCode(wire, msgs, Now().net, snd.packets, isn, i);
      wire, msgs := wire[..i] + wire[i + 1..], msgs[..i] + msgs[i + 1..];
      Parts();
    }
  }

  // ----- single steps -----

  /** The sender can tell the message's numbers apart; so can the receiver. */
  ghost predicate Reaches(y: Sys, m: Msg) {
    match m
    case Data(x, p) => Near(y.rcv.win.ackIdx, x)
    case LiteAck(x) => S.InReach(y.snd, x)
    case FullAck(no, x, w) => S.InReach(y.snd, x)
    case Ack2(no) => y.rcv.ackNo - MOD < no <= y.rcv.ackNo
    case Loss(spans) => forall nd :: nd in spans ==> S.Told(y.snd, nd)
  }

  lemma ReachesIs(y: Sys, m: Msg)
    ensures Reaches(y, m) <==>
      && (m.LiteAck? ==> S.InReach(y.snd, m.ack)) && (m.FullAck? ==> S.InReach(y.snd, m.ack))
      && (m.Loss? ==> forall nd :: nd in m.spans ==> S.Told(y.snd, nd))
      && (m.Data? ==> Near(y.rcv.win.ackIdx, m.seqno))
      && (m.Ack2? ==> y.rcv.ackNo - MOD < m.ackNo <= y.rcv.ackNo)
  {
  }

  lemma CodeLength(ws: seq<Wire>, ms: seq<Msg>, net: set<Msg>, ps: seq<Packet>, isn: int)
    requires AllCode(ws, ms, net, ps, isn)
    ensures |ws| == |ms|
  {
  }

  lemma CodeAt(ws: seq<Wire>, ms: seq<Msg>, net: set<Msg>, ps: seq<Packet>, isn: int, i: int)
    requires AllCode(ws, ms, net, ps, isn) && 0 <= i < |ws|
    ensures |ws| == |ms| && ms[i] in net && Codes(ws[i], ms[i], ps, isn)
  {
    hide Codes;
  }

  lemma CodesKind(w: Wire, m: Msg, ps: seq<Packet>, isn: int)
    requires Codes(w, m, ps, isn)
    ensures match w
      case WData(seqno, p) => m.Data? && seqno == Wrap(m.seqno) && p.data == m.payload && S.At(ps, m.seqno - isn, p)
      case WLite(ack) => m.LiteAck? && ack == Wrap(m.ack)
      case WFull(no, ack, window) => m.FullAck? && no == Wrap(m.ackNo) && ack == Wrap(m.ack) && window == m.window
      case WAck2(no) => m.Ack2? && no == Wrap(m.ackNo)
      case WNak(words) => m.Loss? && words == Nak.Encode(m.spans)
  {
  }

  lemma CodesAck2(w: Wire, m: Msg, ps: seq<Packet>, isn: int)
    requires Codes(w, m, ps, isn) && w.WFull?
    ensures m.FullAck? && Codes(WAck2(w.ackNo), Ack2(m.ackNo), ps, isn)
  {
  }

  lemma DataStep(y: Sys, m: Msg)
    requires m in y.net && m.Data?
    ensures var z, (r, out) := Step(y, Event.ToReceiver(m, false)), OnData(y.rcv, m.seqno, m.payload);
      z.snd == y.snd && z.rcv == r && z.net == y.net + out && ReceiverGets(y.rcv, m, false).1 == out
  {
  }

  lemma Ack2Step(y: Sys, m: Msg, counted: bool)
    requires m in y.net && m.Ack2?
    ensures var z := Step(y, Event.ToReceiver(m, counted));
      z.snd == y.snd && z.rcv == OnAck2(y.rcv, m.ackNo, counted) && y.net <= z.net
    ensures OnAck2(y.rcv, m.ackNo, counted).win == y.rcv.win
  {
  }

  lemma LiteStep(y: Sys)
    ensures Step(y, Event.Lite) == y.(net := y.net + SendLite(y.rcv))
  {
  }

  lemma FullStep(y: Sys, resend: bool)
    ensures var z, (r, out) := Step(y, Event.Full(resend)), SendFull(y.rcv, resend);
      z.snd == y.snd && z.rcv == r && z.net == y.net + out
    ensures SendFull(y.rcv, resend).0.win.readIdx == y.rcv.win.readIdx
    ensures y.rcv.win.ackIdx <= SendFull(y.rcv, resend).0.win.ackIdx
  {
  }

  lemma ReportStep(y: Sys, spans: seq<Node>)
    requires ReportOk(y.rcv, spans)
    ensures Step(y, Event.Report(spans)) == y.(net := y.net + {Loss(spans)})
  {
  }

  lemma RecvStep(y: Sys, len: nat)
    requires WindowOk(y.rcv.win)
    ensures Step(y, Event.Recv(len)) == y.(rcv := AppRecv(y.rcv, len))
  {
  }

  lemma CodesNak(words: seq<int>, nd: Node, ps: seq<Packet>, isn: int)
    requires words == Nak.Words(nd)
    ensures Codes(WNak(words), Loss([nd]), ps, isn)
  {
    Nak.EncodeFront(nd, []);
    assert [nd] + [] == [nd] && Nak.Words(nd) + [] == Nak.Words(nd);
  }

  lemma SomeWords(spans: seq<Node>)
    ensures Nak.Encode(spans) == [] <==> spans == []
  {
  }

  lemma CodesWords(words: seq<int>, spans: seq<Node>, ps: seq<Packet>, isn: int)
    requires words == Nak.Encode(spans)
    ensures Codes(WNak(words), Loss(spans), ps, isn)
  {
  }

  lemma CodesLite(ack: int, x: int, ps: seq<Packet>, isn: int)
    requires ack == Wrap(x)
    ensures Codes(WLite(ack), LiteAck(x), ps, isn)
  {
  }

  lemma CodesFull(ackNo: int, ack: int, w: int, no: nat, x: int, ps: seq<Packet>, isn: int)
    requires ackNo == Wrap(no) && ack == Wrap(x)
    ensures Codes(WFull(ackNo, ack, w), FullAck(no, x, w), ps, isn)
  {
  }

  lemma ArriveIs(s: MessageRuns.State, x: int, p: Packet, isn: int, mss: int)
    requires mss > 0 && s.readIdx <= x && x !in s.c && S.At(Stream(s.sent, mss), x - isn, p)
    ensures MessageRuns.Step(s, MessageRuns.Arrive(x), s.(c := s.c[x := Reassembly.Held(p.data, p.word, 1)]), isn, mss)
  {
  }

  lemma AckIs(s: MessageRuns.State, n: nat, isn: int, mss: int)
    requires mss > 0
    ensures MessageRuns.Step(s, MessageRuns.Ack(n), s.(ackIdx := s.ackIdx + n), isn, mss)
  {
  }

  /** Message m may be returned next: it was not before, it is cut to what was
      asked for, and if it is to be in order, nothing sent before it is missing. */
  ghost predicate MayReturn(s: MessageRuns.State, m: int, len: int, data: Payload) {
    && 0 <= m < |s.sent| && m !in s.got && data == Reassembly.Cut(s.sent[m].data, len)
    && MessageRuns.InTurn(s.sent, m, s.got)
  }

  lemma NothingRead(
    c: Reassembly.Cells, r: int, ackIdx: int, d: Reassembly.Cells, r': int, len: int, data: Payload, got: bool,
    a: int, b: int)
    requires Reassembly.ReadsMsg(c, r, ackIdx, d, r', len, data, got, a, b)
    ensures !got ==> data == []
  {
  }

  lemma ReturnedOne(
    s: MessageRuns.State, d: Reassembly.Cells, r: int, len: int, data: Payload, a: int, b: int, isn: int, mss: int)
    returns (m: int)
    requires mss > 0 && MessageRuns.Inv(s, isn, mss)
    requires Reassembly.ReadsMsg(s.c, s.readIdx, s.ackIdx, d, r, len, data, true, a, b)
    ensures IsSent(s.sent, mss, a - isn, b - isn, m)
    ensures forall i :: a <= i <= b ==> Reassembly.Pending(s.c, s.readIdx, i)
    ensures MayReturn(s, m, len, data)
  {
    MessageEnd.GotReadable(s, d, r, len, data, a, b);
    MessageEnd.InvParts(s, isn, mss);
    m := MessageRuns.ReadableIsSent(s, a, b, isn, mss);
    MessageRuns.Within(s.sent, mss, isn, a, b, m);
    MessageRuns.TurnOf(s, a, b, m, isn, mss);
    hide Reassembly.Messaging, Reassembly.Readable, Stream, Chunks, Concat, Reassembly.Cut, Reassembly.Pending;
    assert MessageRuns.Carries(s.sent, mss, isn, a, m);
  }

  /** What a message on the wire does to the sender. */
  ghost predicate Heard(s: Sender, t: Sender, m: Msg) {
    match m
    case LiteAck(x) => Credited(s, t, x)
    case FullAck(no, x, w) => Released(s, t, x, w)
    case Loss(spans) =>
      var k := S.Accepts(s, spans);
      && t == s.(loss := t.loss, broken := s.broken || k < |spans|)
      && forall x :: x in t.loss <==> x in s.loss || (x in Elems(spans[..k]) && s.lastAck <= x)
    case _ => t == s
  }

  lemma HeardIs(s: Sender, m: Msg)
    ensures m.LiteAck? ==> forall t :: Heard(s, t, m) <==> Credited(s, t, m.ack)
    ensures m.FullAck? ==> forall t :: Heard(s, t, m) <==> Released(s, t, m.ack, m.window)
    ensures m.Loss? ==>
      var k := S.Accepts(s, m.spans);
      Heard(s, s.(loss := s.loss + S.Named(s, m.spans[..k]), broken := s.broken || k < |m.spans|), m)
    ensures m.Data? || m.Ack2? ==> Heard(s, s, m)
  {
  }

  lemma GetsStep(y: Sys, m: Msg, reply: bool)
    requires m in y.net && !y.snd.broken
    ensures var z := Step(y, Event.ToSender(m, reply));
      && z.rcv == y.rcv && y.net <= z.net
      && z.snd == (match m
                   case LiteAck(x) => OnLiteAck(y.snd, x)
                   case FullAck(no, x, w) => OnFullAck(y.snd, x, w)
                   case Loss(spans) => OnLoss(y.snd, spans)
                   case _ => y.snd)
      && (m.FullAck? && reply ==> Ack2(m.ackNo) in z.net)
      && SenderGets(y.snd, m, reply).1 == if m.FullAck? && reply then {Ack2(m.ackNo)} else {}
  {
  }

  lemma RunStep(isn: int, size: int, window: int, es: seq<Event>, e: Event)
    ensures After(Start(isn, size, window), es + [e]) == Step(After(Start(isn, size, window), es), e)
  {
    assert (es + [e])[..|es + [e]| - 1] == es;
  }

  lemma SendIs(s: MessageRuns.State, m: Sent, isn: int, mss: int)
    requires mss > 0 && m.no < MSG_LIMIT
    ensures MessageRuns.Step(s, MessageRuns.Send(m), s.(sent := s.sent + [m]), isn, mss)
    ensures Stream(s.sent + [m], mss) == Stream(s.sent, mss) + Packets(Chunks(m.data, mss), m.no, m.order)
  {
    assert (s.sent + [m])[..|s.sent|] == s.sent;
  }

  lemma SendStep(y: Sys, data: Payload, mss: int)
    requires mss > 0
    ensures Step(y, Event.Send(data, mss)) == y.(snd := AppSend(y.snd, data, mss))
  {
  }

  lemma ExpireStep(y: Sys)
    ensures Step(y, Event.Expire) == y.(snd := OnExp(y.snd))
  {
  }

  lemma InvOfReceiver(y: Sys)
    requires Inv(y) && 0 <= y.snd.isn
    ensures RcvOk(y.rcv) && 0 <= y.rcv.win.readIdx <= y.rcv.win.ackIdx
    ensures forall i :: i in y.rcv.win.slots ==> |y.rcv.win.slots[i]| > 0
  {
  }

  lemma PackStep(y: Sys, congestion: int)
    ensures var z, (s, out) := Step(y, Event.Pack(congestion)), S.PackBoth(y.snd, congestion);
      z.snd == s && z.rcv == y.rcv && z.net == y.net + out && s.isn == y.snd.isn
  {
  }

  lemma CodesData(seqno: int, p: Packet, x: int, ps: seq<Packet>, isn: int)
    requires seqno == Wrap(x) && S.At(ps, x - isn, p)
    ensures Codes(WData(seqno, p), Data(x, p.data), ps, isn)
  {
  }
}
