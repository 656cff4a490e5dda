/** A connection that is set up, used and left to the network: any calls of the
    two applications, any timers, and any deliveries, losses and repetitions, in
    any order. */
module Session {
  import opened SeqNo
  import opened LossNodes
  import opened ByteStream
  import opened PacketHeader
  import opened Messages
  import opened Protocol
  import opened ProtocolInv
  import opened ProtocolTheorems
  import opened Endpoints
  import UnitPool
  import MessageRuns
  import C = Connection

  datatype Act =
    | Send(data: Payload, order: bool, waits: bool)
    | Pack(congestion: int)
    | Expire
    | Deliver(i: int, reply: bool, now: int)    // the message at place i arrives, and may arrive again
    | Lose(i: int)
    | Lite
    | Full(resend: bool, now: int)
    | Report(limit: nat, recent: bool)
    | Recv(len: int)

  /** Nothing under way is older than the sequence window, nor is the number the
      peer has confirmed. */
  ghost predicate InTime(c: C.Connection)
    reads c`es, c`msgs, c.rcv`st
  {
    && (forall i :: 0 <= i < |c.msgs| ==> RecentMsg(c.Now(), c.msgs[i]))
    && Recent(c.Now(), c.rcv.st.lastAckAck)
  }

  // ----- runs too short for anything to be old -----

  /** One event moves the numbers by one at most. */
  lemma StepSlow(y: Sys, e: Event)
    requires Inv(y)
    ensures Step(y, e).snd.currSeq <= y.snd.currSeq + 1 && Step(y, e).rcv.ackNo <= y.rcv.ackNo + 1
    ensures Step(y, e).rcv.lastAckAck >= y.rcv.lastAckAck
  {
    hide Inv, Frontier, OnLoss, Read, Unread;
    StepMoves(y, e);
    match e
    case ToSender(m, reply) =>
      if m in y.net && m.Loss? {
        InvParts(y);
        NetIs(y, m);
        LossKeeps(y.snd, m.spans);
      }
    case _ =>
  }

  lemma {:induction false} RunSlow(isn: int, size: int, window: int, es: seq<Event>)
    requires size >= 2 && 1 <= window <= size
    ensures var y := After(Start(isn, size, window), es);
      y.snd.currSeq + 1 <= isn + |es| && y.rcv.ackNo <= |es| && y.rcv.lastAckAck >= isn
  {
    if |es| > 0 {
      var some := es[..|es| - 1];
      RunSlow(isn, size, window, some);
      RunKeeps(isn, size, window, some);
      StepSlow(After(Start(isn, size, window), some), es[|es| - 1]);
    }
  }

  /** A message names no number below the first. */
  lemma NotBelow(y: Sys, m: Msg)
    requires Inv(y) && m in y.net && y.snd.currSeq + 1 - TH < y.snd.isn && y.rcv.ackNo < MOD
    ensures RecentMsg(y, m)
  {
    hide Inv, Frontier;
    Numbers(y, m);
  }

  /** So within the first TH - 2 events everything is in time. */
  lemma YoungInTime(c: C.Connection)
    requires c.Valid() && |c.es| < TH - 1
    ensures InTime(c)
  {
    hide *;
    c.Parts();
    c.Reached();
    Young(c.isn, c.size, c.window, c.es, c.Now(), c.rcv.st.lastAckAck);
    C.CodeLength(c.wire, c.msgs, c.Now().net, c.snd.packets, c.isn);
    forall i | 0 <= i < |c.msgs| ensures RecentMsg(c.Now(), c.msgs[i]) {
      C.CodeAt(c.wire, c.msgs, c.Now().net, c.snd.packets, c.isn, i);
    }
    InTimeIs(c);
  }

  lemma InTimeIs(c: C.Connection)
    ensures InTime(c) <==>
      (forall i :: 0 <= i < |c.msgs| ==> RecentMsg(c.Now(), c.msgs[i])) && Recent(c.Now(), c.rcv.st.lastAckAck)
  {
  }

  lemma Young(isn: int, size: int, window: int, es: seq<Event>, y: Sys, confirmed: int)
    requires Reachable(isn, size, window, es, y) && |es| < TH - 1 && confirmed == y.rcv.lastAckAck
    ensures forall m :: m in y.net ==> RecentMsg(y, m)
    ensures Recent(y, confirmed)
  {
    hide After, Start, Inv, RecentMsg;
    RunKeeps(isn, size, window, es);
    IsnFixed(isn, size, window, es);
    RunSlow(isn, size, window, es);
    forall m | m in y.net ensures RecentMsg(y, m) { NotBelow(y, m); }
  }

  // ----- what an event adds to the two byte streams -----

  lemma StepTrail(y: Sys, e: Event)
    requires Inv(y)
    ensures Step(y, e).snd.accepted == y.snd.accepted + if e.Send? && e.mss > 0 then e.data else []
    ensures !e.Recv? ==> Step(y, e).rcv.delivered == y.rcv.delivered
  {
    hide Inv, Frontier, OnLoss, Unread, Read;
    match e
    case ToSender(m, reply) =>
      if m in y.net && m.Loss? {
        InvParts(y);
        NetIs(y, m);
        LossKeeps(y.snd, m.spans);
      }
    case _ =>
  }

  /** The ends are where the run has got. */
  lemma Ends(c: C.Connection)
    requires c.Valid()
    ensures var y := After(Start(c.isn, c.size, c.window), c.es); c.snd.st == y.snd && c.rcv.st == y.rcv
    ensures c.snd.buffer.mss > 0
  {
    hide *;
    c.Parts();
    c.NowIs();
    c.snd.Parts();
  }

  lemma Trail(c: C.Connection, was: seq<Event>, e: Event)
    requires c.Valid() && c.es == was + [e]
    ensures var y := After(Start(c.isn, c.size, c.window), was);
      && c.snd.st.accepted == y.snd.accepted + (if e.Send? && e.mss > 0 then e.data else [])
      && (!e.Recv? ==> c.rcv.st.delivered == y.rcv.delivered)
  {
    hide *;
    c.Parts();
    c.Reached();
    C.RunStep(c.isn, c.size, c.window, was, e);
    c.NowIs();
    ReachableIs(c.isn, c.size, c.window, c.es, c.Now());
    RunKeeps(c.isn, c.size, c.window, was);
    StepTrail(After(Start(c.isn, c.size, c.window), was), e);
  }

  // ----- the applications keep a log -----

  /** What the calls took and gave: bytes on a stream; messages otherwise, and of
      the reads those that returned something. */
  datatype Log = Log(taken: Payload, given: Payload, sent: seq<Sent>, out: seq<MessageRuns.Returned>)

  ghost function Kept(out: seq<MessageRuns.Returned>): seq<MessageRuns.Returned> {
    if |out| == 0 then []
    else Kept(out[..|out| - 1]) + if out[|out| - 1].data == [] then [] else [out[|out| - 1]]
  }

  lemma KeptMore(out: seq<MessageRuns.Returned>, r: MessageRuns.Returned)
    ensures Kept(out + [r]) == Kept(out) + if r.data == [] then [] else [r]
    ensures Kept([]) == []
  {
    assert (out + [r])[..|out|] == out;
  }

  ghost predicate Logged(c: C.Connection, log: Log)
    reads c`ms, c.snd`st, c.rcv`st
  {
    && (c.stream ==> log.taken == c.snd.st.accepted && log.given == c.rcv.st.delivered)
    && (!c.stream ==> log.sent == c.ms.sent && log.out == Kept(c.ms.out))
  }

  lemma LoggedIs(c: C.Connection, log: Log)
    ensures Logged(c, log) <==>
      && (c.stream ==> log.taken == c.snd.st.accepted && log.given == c.rcv.st.delivered)
      && (!c.stream ==> log.sent == c.ms.sent && log.out == Kept(c.ms.out))
  {
  }

  // ----- one turn -----

  /** The events that a turn adds to the run. */
  ghost predicate Fitting(a: Act, stream: bool, more: seq<Event>) {
    match a
    case Send(data, _, _) => more == [] || (|more| == 1 && more[0].Send? && [] < more[0].data <= data)
    case Pack(congestion) => more == [Event.Pack(congestion)]
    case Expire => more == [Event.Expire]
    case Deliver(_, reply, _) =>
      more == [] || (|more| == 1 && (more[0].ToReceiver? || (more[0].ToSender? && more[0].reply == reply)))
    case Lose(_) => more == []
    case Lite => more == [Event.Lite]
    case Full(resend, _) => more == [Event.Full(resend)]
    case Report(_, _) => |more| == 1 && more[0].Report?
    case Recv(len) =>
      if stream && len < 0 then more == []
      else |more| == 1 && more[0].Recv? && (stream ==> more[0].len == len)
  }

  /** The message at place i is what arrives; only data needs a unit of the pool. */
  ghost predicate Arrives(msgs: seq<Msg>, i: int, dry: bool, reply: bool, more: seq<Event>) {
    if !(0 <= i < |msgs|) then more == []
    else match msgs[i]
      case Data(_, _) => more == if dry then [] else [Event.ToReceiver(msgs[i], false)]
      case Ack2(_) => |more| == 1 && more[0].ToReceiver? && more[0].m == msgs[i]
      case _ => more == [Event.ToSender(msgs[i], reply)]
  }

  ghost predicate Turned(a: Act, stream: bool, was: seq<Event>, es: seq<Event>) {
    was <= es && |es| <= |was| + 1 && Fitting(a, stream, es[|was|..])
  }

  lemma TurnedOne(a: Act, stream: bool, was: seq<Event>, e: Event)
    ensures Fitting(a, stream, [e]) ==> Turned(a, stream, was, was + [e])
    ensures Fitting(a, stream, []) ==> Turned(a, stream, was, was)
    ensures (was + [e])[|was|..] == [e] && was[|was|..] == []
  {
    hide Fitting;
    assert was[|was|..] == [];
  }

  lemma FittingIs(a: Act, stream: bool)
    ensures a.Pack? ==> Fitting(a, stream, [Event.Pack(a.congestion)])
    ensures a.Expire? ==> Fitting(a, stream, [Event.Expire])
    ensures a.Lite? ==> Fitting(a, stream, [Event.Lite])
    ensures a.Full? ==> Fitting(a, stream, [Event.Full(a.resend)])
    ensures a.Report? ==> forall spans :: Fitting(a, stream, [Event.Report(spans)])
    ensures a.Send? || a.Deliver? || a.Lose? || (a.Recv? && stream && a.len < 0) ==> Fitting(a, stream, [])
    ensures a.Send? ==> forall n, mss :: 0 < n <= |a.data| ==> Fitting(a, stream, [Event.Send(a.data[..n], mss)])
    ensures a.Deliver? ==> forall m, counted :: Fitting(a, stream, [Event.ToReceiver(m, counted)])
    ensures a.Deliver? ==> forall m :: Fitting(a, stream, [Event.ToSender(m, a.reply)])
    ensures a.Recv? && stream && a.len >= 0 ==> Fitting(a, stream, [Event.Recv(a.len)])
    ensures a.Recv? && !stream ==> forall k :: Fitting(a, stream, [Event.Recv(k)])
  {
  }

  lemma ArrivesIs(msgs: seq<Msg>, i: int, dry: bool, reply: bool)
    ensures !(0 <= i < |msgs|) ==> Arrives(msgs, i, dry, reply, [])
    ensures 0 <= i < |msgs| && msgs[i].Data? ==>
      Arrives(msgs, i, dry, reply, if dry then [] else [Event.ToReceiver(msgs[i], false)])
    ensures 0 <= i < |msgs| && msgs[i].Ack2? ==>
      forall counted :: Arrives(msgs, i, dry, reply, [Event.ToReceiver(msgs[i], counted)])
    ensures 0 <= i < |msgs| && !msgs[i].Data? && !msgs[i].Ack2? ==>
      Arrives(msgs, i, dry, reply, [Event.ToSender(msgs[i], reply)])
  {
  }

  method DoSend(c: C.Connection, data: Payload, order: bool, waits: bool, log: Log) returns (after: Log)
    requires c.Valid() && Logged(c, log)
    modifies c.Repr()
    ensures c.Valid() && Logged(c, after) && fresh(c.Repr() - old(c.Repr()))
    ensures Turned(Act.Send(data, order, waits), c.stream, old(c.es), c.es)
    ensures c.stream && data != [] && old(c.snd.Used()) < c.snd.sndBufSize ==> |c.es| > |old(c.es)|
  {
    hide *;
    c.ReprIs();
    c.InFixed();
    LoggedIs(c, log);
    Ends(c);
    FittingIs(Act.Send(data, order, waits), c.stream);
    c.Parts();
    c.snd.TakenIs(c.stream, c.snd.Used(), |data|, waits);
    c.snd.FreePositive(c.snd.Used());
    after := log;
    if c.stream || c.snd.buffer.nextMsgNo < MSG_LIMIT {
      ghost var was := c.es;
      var no := c.snd.buffer.nextMsgNo;
      var n, r := c.Send(data, order, waits);
      c.snd.buffer.OwnIs();
      Ends(c);
      if n == 0 {
        assert c.es == was;
        TurnedOne(Act.Send(data, order, waits), c.stream, was, Event.Expire);
      } else {
        Trail(c, was, Event.Send(data[..n], c.snd.buffer.mss));
        TurnedOne(Act.Send(data, order, waits), c.stream, was, Event.Send(data[..n], c.snd.buffer.mss));
        after := log.(taken := log.taken + data[..n], sent := log.sent + [Sent(data, order, no)]);
      }
    } else {
      TurnedOne(Act.Send(data, order, waits), c.stream, c.es, Event.Expire);
    }
    c.ReprIs();
    LoggedIs(c, after);
  }

  /** The sending thread is scheduled. */
  method DoPack(c: C.Connection, congestion: int, ghost log: Log)
    requires c.Valid() && Logged(c, log)
    modifies c.Repr()
    ensures c.Valid() && Logged(c, log) && fresh(c.Repr() - old(c.Repr()))
    ensures c.es == old(c.es) + [Event.Pack(congestion)]
  {
    hide *;
    c.ReprIs();
    c.InFixed();
    LoggedIs(c, log);
    Ends(c);
    ghost var was := c.es;
    c.Pack(congestion);
    Trail(c, was, Event.Pack(congestion));
    c.ReprIs();
    LoggedIs(c, log);
  }

  /** The expiration timer fires. */
  method DoExpire(c: C.Connection, ghost log: Log)
    requires c.Valid() && Logged(c, log)
    modifies c.Repr()
    ensures c.Valid() && Logged(c, log) && fresh(c.Repr() - old(c.Repr()))
    ensures c.es == old(c.es) + [Event.Expire]
  {
    hide *;
    c.ReprIs();
    c.InFixed();
    LoggedIs(c, log);
    Ends(c);
    ghost var was := c.es;
    c.Expire();
    Trail(c, was, Event.Expire);
    c.ReprIs();
    LoggedIs(c, log);
  }

  /** A light acknowledgement is due. */
  method DoLite(c: C.Connection, ghost log: Log)
    requires c.Valid() && Logged(c, log) && InTime(c)
    modifies c.Repr()
    ensures c.Valid() && Logged(c, log) && fresh(c.Repr() - old(c.Repr()))
    ensures c.es == old(c.es) + [Event.Lite]
  {
    hide *;
    c.ReprIs();
    c.InFixed();
    LoggedIs(c, log);
    Ends(c);
    ghost var was := c.es;
    InTimeIs(c);
    ghost var x := c.Lite();
    Trail(c, was, Event.Lite);
    c.ReprIs();
    LoggedIs(c, log);
  }

  /** A full acknowledgement is due. */
  method DoFull(c: C.Connection, resend: bool, now: int, ghost log: Log)
    requires c.Valid() && Logged(c, log) && InTime(c)
    modifies c.Repr()
    ensures c.Valid() && Logged(c, log) && fresh(c.Repr() - old(c.Repr()))
    ensures c.es == old(c.es) + [Event.Full(resend)]
  {
    hide *;
    c.ReprIs();
    c.InFixed();
    LoggedIs(c, log);
    Ends(c);
    ghost var was := c.es;
    InTimeIs(c);
    c.Full(resend, now);
    Trail(c, was, Event.Full(resend));
    c.ReprIs();
    LoggedIs(c, log);
  }

  /** A loss report is due. */
  method DoReport(c: C.Connection, limit: nat, recent: bool, ghost log: Log) returns (ghost spans: seq<Node>)
    requires c.Valid() && Logged(c, log)
    modifies c.Repr()
    ensures c.Valid() && Logged(c, log) && fresh(c.Repr() - old(c.Repr()))
    ensures c.es == old(c.es) + [Event.Report(spans)]
  {
    hide *;
    c.ReprIs();
    c.InFixed();
    LoggedIs(c, log);
    Ends(c);
    ghost var was := c.es;
    spans := c.Report(limit, recent);
    Trail(c, was, Event.Report(spans));
    c.ReprIs();
    LoggedIs(c, log);
  }

  /** A message under way arrives.  It stays under way, so it may come again. */
  method DoDeliver(c: C.Connection, i: int, reply: bool, now: int, ghost log: Log)
    requires c.Valid() && Logged(c, log) && InTime(c)
    modifies c.Repr()
    ensures c.Valid() && Logged(c, log) && fresh(c.Repr() - old(c.Repr()))
    ensures old(c.es) <= c.es
    ensures Arrives(old(c.msgs), i, old(c.rcv.buffer.queue.Dry()), reply, c.es[|old(c.es)|..])
  {
    hide *;
    c.ReprIs();
    c.InFixed();
    c.Parts();
    C.CodeLength(c.wire, c.msgs, c.Now().net, c.snd.packets, c.isn);
    ghost var was, ms, dry := c.es, c.msgs, c.rcv.buffer.queue.Dry();
    ArrivesIs(ms, i, dry, reply);
    if i < 0 || i >= |c.wire| {
      Split(was, []);
      return;
    }
    InTimeIs(c);
    C.CodeAt(c.wire, c.msgs, c.Now().net, c.snd.packets, c.isn, i);
    C.CodesKind(c.wire[i], c.msgs[i], c.snd.packets, c.isn);
    match c.wire[i] {
      case WData(_, _) =>
        DoData(c, i, log);
        Split(was, if dry then [] else [Event.ToReceiver(ms[i], false)]);
      case WAck2(_) =>
        ghost var counted := DoAck2(c, i, now, log);
        Split(was, [Event.ToReceiver(ms[i], counted)]);
      case _ =>
        DoReply(c, i, reply, log);
        Split(was, [Event.ToSender(ms[i], reply)]);
    }
  }

  lemma Split(was: seq<Event>, more: seq<Event>)
    ensures was <= was + more && (was + more)[|was|..] == more && was + [] == was
  {
  }

  method DoData(c: C.Connection, i: int, ghost log: Log)
    requires c.Valid() && Logged(c, log) && 0 <= i < |c.wire| && |c.wire| == |c.msgs|
    requires RecentMsg(c.Now(), c.msgs[i]) && c.wire[i].WData?
    modifies c.Repr()
    ensures c.Valid() && Logged(c, log) && fresh(c.Repr() - old(c.Repr()))
    ensures c.es == old(c.es) + if old(c.rcv.buffer.queue.Dry()) then [] else [Event.ToReceiver(old(c.msgs)[i], false)]
  {
    hide *;
    c.ReprIs();
    c.InFixed();
    LoggedIs(c, log);
    Ends(c);
    ghost var was, m := c.es, c.msgs[i];
    var u := c.Receive(i);
    Ends(c);
    if u == null {
      assert c.es == was;
    } else {
      Trail(c, was, Event.ToReceiver(m, false));
    }
    LoggedIs(c, log);
  }

  method DoAck2(c: C.Connection, i: int, now: int, ghost log: Log) returns (ghost counted: bool)
    requires c.Valid() && Logged(c, log) && 0 <= i < |c.wire| && |c.wire| == |c.msgs|
    requires RecentMsg(c.Now(), c.msgs[i]) && Recent(c.Now(), c.rcv.st.lastAckAck) && c.wire[i].WAck2?
    modifies c.Repr()
    ensures c.Valid() && Logged(c, log) && fresh(c.Repr() - old(c.Repr()))
    ensures c.es == old(c.es) + [Event.ToReceiver(old(c.msgs)[i], counted)]
  {
    hide *;
    c.ReprIs();
    c.InFixed();
    LoggedIs(c, log);
    Ends(c);
    ghost var was, m := c.es, c.msgs[i];
    counted := c.Ack2ToReceiver(i, now);
    Trail(c, was, Event.ToReceiver(m, counted));
    c.ReprIs();
    LoggedIs(c, log);
  }

  method DoReply(c: C.Connection, i: int, reply: bool, ghost log: Log)
    requires c.Valid() && Logged(c, log) && 0 <= i < |c.wire| && |c.wire| == |c.msgs|
    requires RecentMsg(c.Now(), c.msgs[i])
    modifies c.Repr()
    ensures c.Valid() && Logged(c, log) && fresh(c.Repr() - old(c.Repr()))
    ensures c.es == old(c.es) + [Event.ToSender(old(c.msgs)[i], reply)]
  {
    hide *;
    c.ReprIs();
    c.InFixed();
    LoggedIs(c, log);
    Ends(c);
    ghost var was, m := c.es, c.msgs[i];
    c.ToSender(i, reply);
    Trail(c, was, Event.ToSender(m, reply));
    c.ReprIs();
    LoggedIs(c, log);
  }

  method DoLose(c: C.Connection, i: int, ghost log: Log)
    requires c.Valid() && Logged(c, log)
    modifies c.Repr()
    ensures c.Valid() && Logged(c, log) && fresh(c.Repr() - old(c.Repr())) && c.es == old(c.es)
    ensures c.wire == if 0 <= i < |old(c.wire)| then old(c.wire[..i] + c.wire[i + 1..]) else old(c.wire)
  {
    hide *;
    c.ReprIs();
    LoggedIs(c, log);
    if 0 <= i < |c.wire| {
      c.Lose(i);
    }
    c.ReprIs();
    LoggedIs(c, log);
  }

  /** recv() or recvmsg(), as the kind of socket asks for. */
  method DoRecv(c: C.Connection, len: int, log: Log) returns (after: Log)
    requires c.Valid() && Logged(c, log)
    modifies c.Repr()
    ensures c.Valid() && Logged(c, after) && fresh(c.Repr() - old(c.Repr()))
    ensures Turned(Act.Recv(len), c.stream, old(c.es), c.es)
  {
    hide *;
    c.ReprIs();
    c.InFixed();
    c.UnitsAreMembers();
    LoggedIs(c, log);
    Ends(c);
    after := log;
    ghost var was := c.es;
    FittingIs(Act.Recv(len), c.stream);
    if c.stream {
      TurnedOne(Act.Recv(len), c.stream, was, Event.Expire);
      if len >= 0 {
        var data := c.Recv(len);
        TurnedOne(Act.Recv(len), c.stream, was, Event.Recv(len));
        Trail(c, was, Event.Recv(len));
        after := log.(given := log.given + data);
      }
    } else {
      var data;
      ghost var out, got, k := c.ms.out, false, 0;
      data, got, k := c.RecvMsg(len);
      TurnedOne(Act.Recv(len), c.stream, was, Event.Recv(k));
      KeptMore(out, MessageRuns.Returned(len, data));
      if data != [] {
        after := log.(out := log.out + [MessageRuns.Returned(len, data)]);
      }
    }
    c.ReprIs();
    LoggedIs(c, after);
  }

  /** Whatever happens next, both ends stay in a state of the protocol. */
  lemma ArrivesFits(a: Act, stream: bool, msgs: seq<Msg>, dry: bool, was: seq<Event>, es: seq<Event>)
    requires a.Deliver? && was <= es && Arrives(msgs, a.i, dry, a.reply, es[|was|..])
    ensures Turned(a, stream, was, es)
  {
  }

  method Turn(c: C.Connection, a: Act, log: Log) returns (after: Log)
    requires c.Valid() && InTime(c) && Logged(c, log)
    modifies c.Repr()
    ensures c.Valid() && Logged(c, after) && fresh(c.Repr() - old(c.Repr()))
    ensures Turned(a, c.stream, old(c.es), c.es)
    ensures a.Deliver? ==>
      Arrives(old(c.msgs), a.i, old(c.rcv.buffer.queue.Dry()), a.reply, c.es[|old(c.es)|..])
    ensures a.Lose? ==>
      c.wire == if 0 <= a.i < |old(c.wire)| then old(c.wire[..a.i] + c.wire[a.i + 1..]) else old(c.wire)
    ensures a.Send? && c.stream && a.data != [] && old(c.snd.Used()) < c.snd.sndBufSize ==> |c.es| > |old(c.es)|
  {
    hide *;
    after := log;
    ghost var was, one := c.es, Event.Expire;
    FittingIs(a, c.stream);
    match a {
      case Send(data, order, waits) => after := DoSend(c, data, order, waits, log);
      case Pack(congestion) =>
        DoPack(c, congestion, log);
        one := Event.Pack(congestion);
      case Expire => DoExpire(c, log);
      case Deliver(i, reply, now) =>
        DoDeliver(c, i, reply, now, log);
        ArrivesFits(a, c.stream, old(c.msgs), old(c.rcv.buffer.queue.Dry()), was, c.es);
      case Lose(i) => DoLose(c, i, log);
      case Lite =>
        DoLite(c, log);
        one := Event.Lite;
      case Full(resend, now) =>
        DoFull(c, resend, now, log);
        one := Event.Full(resend);
      case Report(limit, recent) =>
        ghost var spans := DoReport(c, limit, recent, log);
        one := Event.Report(spans);
      case Recv(len) => after := DoRecv(c, len, log);
    }
    TurnedOne(a, c.stream, was, one);
  }

  /** What the application reads is right: on a stream, a prefix of what was
      sent; otherwise messages that were sent, cut to the length asked for, none
      twice, and those to be in order only after all sent before them. */
  ghost predicate Right(c: C.Connection, log: Log)
    reads c`ms
  {
    && (c.stream ==> log.given <= log.taken)
    && (!c.stream ==>
      && c.ms.sent == log.sent && Kept(c.ms.out) == log.out
      && MessageRuns.Once(c.ms.got) && MessageRuns.Fair(c.ms) && MessageRuns.Faithful(c.ms))
  }

  lemma AllRight(c: C.Connection, log: Log)
    requires c.Valid() && Logged(c, log)
    ensures Right(c, log)
  {
    hide C.Connection.Valid, Kept, MessageRuns.Once, MessageRuns.Fair, MessageRuns.Faithful;
    if c.stream { c.Prefix(); } else { c.MessagesDelivered(); }
  }

  /** The run is made of the events of the script, act by act. */
  ghost predicate Ran(script: seq<Act>, stream: bool, es: seq<Event>)
    decreases |script|
  {
    if |script| == 0 then es == []
    else
      var n := |script| - 1;
      exists k :: 0 <= k <= |es| && Ran(script[..n], stream, es[..k]) && Fitting(script[n], stream, es[k..])
  }

  lemma RanMore(script: seq<Act>, n: nat, stream: bool, was: seq<Event>, es: seq<Event>)
    requires n < |script| && Ran(script[..n], stream, was) && Turned(script[n], stream, was, es)
    ensures Ran(script[..n + 1], stream, es) && |es| <= |was| + 1
  {
    hide Fitting;
    assert script[..n + 1][..n] == script[..n] && script[..n + 1][n] == script[n];
    assert es[..|was|] == was;
  }

  lemma RanNone(script: seq<Act>, stream: bool)
    ensures Ran(script[..0], stream, []) && script[..|script|] == script
  {
  }

  /** A connection from its set-up on: whatever the applications, the timers and
      the network do, what is read is right. */
  method Run(
    isn: int, mss: int, size: int, window: int, flight: int, sndBufSize: int, stream: bool, unit: int,
    script: seq<Act>)
    returns (c: C.Connection, log: Log)
    requires C.SizesOk(isn, size, window) && mss > 0 && size <= flight + 2 && 0 < flight < TH && unit > 0
    requires |script| < TH - 1
    ensures c.Valid() && Logged(c, log) && Right(c, log) && c.stream == stream && fresh(c.Repr())
    ensures Ran(script, stream, c.es)
  {
    hide *;
    c, log := SetUp(isn, mss, size, window, flight, sndBufSize, stream, unit);
    ghost var own := c.Repr();
    RanNone(script, stream);
    for k := 0 to |script|
      invariant c.Valid() && Logged(c, log) && c.stream == stream && |c.es| <= k
      invariant own == c.Repr() && fresh(own) && Ran(script[..k], stream, c.es)
    {
      YoungInTime(c);
      ghost var was, es := own, c.es;
      label before:
      log := Turn(c, script[k], log);
      own := c.Repr();
      assert fresh@before(own - was);
      assert forall o :: o in own - was ==> fresh@before(o);
      assert forall o :: o in own - was ==> fresh(o);
      Covered(own, was);
      RanMore(script, k, stream, es, c.es);
    }
    AllRight(c, log);
  }

  lemma Covered(a: set<object>, b: set<object>)
    ensures forall o :: o in a ==> o in b || o in a - b
  {
  }

  method SetUp(
    isn: int, mss: int, size: int, window: int, flight: int, sndBufSize: int, stream: bool, unit: int)
    returns (c: C.Connection, log: Log)
    requires C.SizesOk(isn, size, window) && mss > 0 && size <= flight + 2 && 0 < flight < TH && unit > 0
    ensures c.Valid() && Logged(c, log) && c.es == [] && c.stream == stream && fresh(c.Repr())
  {
    hide *;
    var queue := new UnitPool.UnitQueue(unit);
    c := new C.Connection(isn, mss, size, window, flight, sndBufSize, stream, queue);
    log := Log([], [], [], []);
    c.ReprIs();
    c.FixedIs();
    Nothing(c);
    LoggedIs(c, log);
    KeptMore([], MessageRuns.Returned(0, []));
  }

  lemma Nothing(c: C.Connection)
    requires c.Valid() && c.es == []
    ensures c.snd.st.accepted == [] && c.rcv.st.delivered == []
  {
    hide C.Connection.Valid;
    Ends(c);
  }
}
