/** No reachable state is stuck: whatever has been lost on the way, the
    protocol's own steps can still deliver everything that was accepted. */
module ProtocolProgress {
  import opened ByteStream
  import opened IndexSets
  import opened Protocol
  import opened ProtocolInv
  import opened ProtocolTheorems

  /** Some run of events leads from y to z. */
  ghost predicate Leads(y: Sys, z: Sys) { exists es :: After(y, es) == z }

  lemma Stay(y: Sys)
    ensures Leads(y, y)
  {
    assert After(y, []) == y;
  }

  lemma Go(y: Sys, e: Event)
    requires Inv(y)
    ensures Leads(y, Step(y, e)) && Inv(Step(y, e))
  {
    hide Inv, Step;
    StepKeeps(y, e);
    assert [e][..0] == [] && After(y, []) == y;
    assert After(y, [e]) == Step(y, e);
  }

  lemma Join(x: Sys, y: Sys, z: Sys)
    requires Leads(x, y) && Leads(y, z)
    ensures Leads(x, z)
  {
    var es :| After(x, es) == y;
    var more :| After(y, more) == z;
    AfterSplit(x, es, more);
  }

  /** Same traffic to deliver. */
  ghost predicate SameLoad(s: Sender, s': Sender) {
    && s'.isn == s.isn && s'.accepted == s.accepted && s'.blocks == s.blocks
    && s'.currSeq == s.currSeq && s'.curr == s.curr
  }

  /** A popped number is dealt with. */
  lemma ClearPending(y: Sys) returns (z: Sys)
    requires Inv(y)
    ensures Leads(y, z) && Inv(z) && z.rcv == y.rcv
    ensures z.snd == y.snd.(pending := None) && y.net <= z.net
  {
    hide Inv, Leads, Frontier;
    z := y;
    Stay(y);
    if y.snd.pending.Some? {
      z := Step(y, Pack(0));
      Go(y, Pack(0));
    }
  }

  lemma Pop(y: Sys) returns (z: Sys, x: int)
    requires Inv(y) && y.snd.pending.None? && y.snd.loss != {}
    ensures Leads(y, z) && Inv(z) && z.rcv == y.rcv && z.net == y.net
    ensures x in y.snd.loss && y.snd.dataAck <= x <= y.snd.currSeq
    ensures z.snd == y.snd.(loss := y.snd.loss - {x}, pending := Some(x))
  {
    hide Inv, Leads, Concat, Frontier, RcvOk, SlotsOk, StreamOk, FlowOk, LiveOk;
    InvParts(y);
    Go(y, Pack(0));
    z := Step(y, Pack(0));
    x := Least(y.snd.loss, 0);
    assert z.net == y.net + {};
  }

  lemma SendPopped(y: Sys)
    requires Inv(y) && y.snd.pending.Some? && y.snd.pending.value >= y.snd.dataAck
    ensures var z, x := Step(y, Pack(0)), y.snd.pending.value;
      && z.rcv == y.rcv && y.net <= z.net && z.snd == y.snd.(pending := None)
      && 0 <= x - y.snd.isn < |y.snd.blocks| && Data(x, y.snd.blocks[x - y.snd.isn]) in z.net
  {
    hide Inv, Concat, Frontier, RcvOk, SlotsOk, StreamOk, FlowOk, LiveOk;
    InvParts(y);
  }

  /** What popping and sending a lost number does. */
  lemma PopAndSend(y: Sys) returns (z: Sys, x: int)
    requires Inv(y) && y.snd.pending.None? && y.snd.loss != {}
    ensures Leads(y, z) && Inv(z) && z.rcv == y.rcv && y.net <= z.net
    ensures x in y.snd.loss && z.snd == y.snd.(loss := y.snd.loss - {x})
    ensures 0 <= x - y.snd.isn < |y.snd.blocks| && Data(x, y.snd.blocks[x - y.snd.isn]) in z.net
  {
    hide Inv, Leads, Step;
    var y1;
    y1, x := Pop(y);
    SendPopped(y1);
    z := Step(y1, Pack(0));
    Go(y1, Pack(0));
    Join(y, y1, z);
  }

  /** The sender gets around to retransmitting number f. */
  lemma {:induction false} Retransmit(y: Sys, f: int) returns (z: Sys)
    requires Inv(y) && y.snd.pending.None? && f in y.snd.loss
    ensures Leads(y, z) && Inv(z) && z.rcv == y.rcv && SameLoad(y.snd, z.snd) && z.snd.pending.None?
    ensures 0 <= f - y.snd.isn < |y.snd.blocks| && Data(f, y.snd.blocks[f - y.snd.isn]) in z.net
    decreases |y.snd.loss|
  {
    hide Inv, Leads;
    var x;
    z, x := PopAndSend(y);
    if x != f {
      var y1 := z;
      z := Retransmit(y1, f);
      Join(y, y1, z);
    }
  }

  /** Acknowledging all that has arrived in order. */
  lemma AckAll(y: Sys) returns (z: Sys)
    requires Inv(y)
    ensures Leads(y, z) && Inv(z) && z.snd == y.snd && y.net <= z.net
    ensures z.rcv.win.ackIdx == Frontier(z.rcv) == Frontier(y.rcv)
    ensures z.rcv.currSeq == y.rcv.currSeq && z.rcv.lastAckAck == y.rcv.lastAckAck
  {
    hide Inv, Leads, Frontier, StoreAck, RcvOk, SlotsOk, StreamOk;
    InvParts(y);
    z := Step(y, Full(true));
    Go(y, Full(true));
    SendFullOk(y.rcv, true);
    FrontierMeans(y.rcv);
  }

  lemma ReadAll(w: Window)
    requires WindowOk(w) && forall i :: i in w.slots ==> |w.slots[i]| > 0
    ensures var r := Read(w, |Unread(w)|).window;
      WindowOk(r) && r.readIdx == r.ackIdx == w.ackIdx && Unread(r) == []
  {
    ReadIsQueue(w, |Unread(w)|);
    var res := Read(w, |Unread(w)|);
    assert |res.bytes + Unread(res.window)| == |res.bytes| + |Unread(res.window)|;
    if res.window.readIdx < res.window.ackIdx { UnreadHead(res.window); }
  }

  /** The application reads all that is acknowledged. */
  lemma RecvAll(y: Sys) returns (z: Sys)
    requires Inv(y)
    ensures Leads(y, z) && Inv(z) && z.snd == y.snd && z.net == y.net
    ensures z.rcv.win.readIdx == z.rcv.win.ackIdx == y.rcv.win.ackIdx
    ensures Frontier(z.rcv) == Frontier(y.rcv) && Unread(z.rcv.win) == []
    ensures z.rcv.lastAckAck == y.rcv.lastAckAck
  {
    hide *;
    Readable(y);
    var e := Recv(|Unread(y.rcv.win)|);
    Go(y, e);
    z := Step(y, e);
    ReadAll(y.rcv.win);
    RecvStep(y, e.len);
  }

  lemma Readable(y: Sys)
    requires Inv(y)
    ensures RcvOk(y.rcv) && WindowOk(y.rcv.win) && forall i :: i in y.rcv.win.slots ==> |y.rcv.win.slots[i]| > 0
  {
  }

  lemma RecvStep(y: Sys, len: nat)
    requires RcvOk(y.rcv) && WindowOk(y.rcv.win)
    ensures var z := Step(y, Recv(len));
      && z == y.(rcv := AppRecv(y.rcv, len)) && z.rcv.win == Read(y.rcv.win, len).window
      && Frontier(z.rcv) == Frontier(y.rcv) && z.rcv.lastAckAck == y.rcv.lastAckAck
  {
    ReadOk(y.rcv, len);
    hide RcvOk, WindowOk, Frontier, Read;
  }

  /** The application reads everything that has arrived in order. */
  lemma DrainAll(y: Sys) returns (z: Sys)
    requires Inv(y)
    ensures Leads(y, z) && Inv(z) && z.snd == y.snd && y.net <= z.net
    ensures z.rcv.win.readIdx == z.rcv.win.ackIdx == Frontier(z.rcv) == Frontier(y.rcv)
    ensures Unread(z.rcv.win) == [] && z.rcv.lastAckAck == y.rcv.lastAckAck
  {
    hide *;
    var y1 := AckAll(y);
    z := RecvAll(y1);
    Join(y, y1, z);
  }

  /** The first missing number reaches a receiver with room for it. */
  lemma Arrives(y: Sys, f: int) returns (z: Sys)
    requires Inv(y) && f == Frontier(y.rcv) && y.rcv.win.readIdx == y.rcv.win.ackIdx == f <= y.snd.currSeq
    requires 0 <= f - y.snd.isn < |y.snd.blocks| && Data(f, y.snd.blocks[f - y.snd.isn]) in y.net
    ensures Leads(y, z) && Inv(z) && z.snd == y.snd && Frontier(z.rcv) > f
    ensures z.rcv.lastAckAck == y.rcv.lastAckAck
  {
    hide *;
    var p := y.snd.blocks[f - y.snd.isn];
    z := Step(y, ToReceiver(Data(f, p), false));
    Go(y, ToReceiver(Data(f, p), false));
    BlockAt(y, f - y.snd.isn);
    ArriveStep(y, f, p);
    HoleFilled(y.rcv, f, p);
  }

  lemma BlockAt(y: Sys, k: int)
    requires Inv(y) && 0 <= k < |y.snd.blocks|
    ensures RcvOk(y.rcv) && |y.snd.blocks[k]| > 0
  {
    hide RcvOk, NetOk, SlotsOk, StreamOk, FlowOk, LiveOk, Concat;
  }

  lemma ArriveStep(y: Sys, f: int, p: Payload)
    requires Data(f, p) in y.net
    ensures var z := Step(y, ToReceiver(Data(f, p), false)); z.snd == y.snd && z.rcv == OnData(y.rcv, f, p).0
  {
    hide OnData;
  }

  lemma HoleFilled(r: Receiver, f: int, p: Payload)
    requires RcvOk(r) && |p| > 0 && f == Frontier(r) && r.win.readIdx == r.win.ackIdx == f
    ensures Frontier(OnData(r, f, p).0) > f && OnData(r, f, p).0.lastAckAck == r.lastAckAck
  {
    FrontierMeans(r);
    OnDataOk(r, f, p);
    assert f in OnData(r, f, p).0.win.slots;
    FrontierMeans(OnData(r, f, p).0);
  }

  lemma ExpireAll(y: Sys, f: int) returns (z: Sys)
    requires Inv(y) && f == Frontier(y.rcv) <= y.snd.currSeq
    ensures Leads(y, z) && Inv(z) && z.rcv == y.rcv && z.net == y.net
    ensures z.snd == y.snd.(loss := z.snd.loss) && f in z.snd.loss
  {
    hide Inv, Leads, Frontier, RcvOk, SlotsOk, StreamOk;
    z := Step(y, Expire);
    Go(y, Expire);
    InvParts(y);
  }

  /** One more number arrives: everything unacknowledged is declared lost and
      sent again. */
  lemma OneMore(y: Sys) returns (z: Sys)
    requires Inv(y) && Frontier(y.rcv) <= y.snd.currSeq
    ensures Leads(y, z) && Inv(z) && SameLoad(y.snd, z.snd) && Frontier(z.rcv) > Frontier(y.rcv)
    ensures z.rcv.lastAckAck == y.rcv.lastAckAck
  {
    hide Inv, Leads, Frontier, Unread;
    var f := Frontier(y.rcv);
    var y1 := ClearPending(y);
    var y2 := DrainAll(y1);
    Join(y, y1, y2);
    var y3 := ExpireAll(y2, f);
    Join(y, y2, y3);
    var y4 := Retransmit(y3, f);
    Join(y, y3, y4);
    z := Arrives(y4, f);
    Join(y, y4, z);
  }

  /** Everything sent so far arrives. */
  lemma {:induction false} CatchUp(y: Sys) returns (z: Sys)
    requires Inv(y)
    ensures Leads(y, z) && Inv(z) && SameLoad(y.snd, z.snd) && Frontier(z.rcv) == z.snd.currSeq + 1
    ensures z.rcv.lastAckAck == y.rcv.lastAckAck
    decreases y.snd.currSeq + 1 - Frontier(y.rcv)
  {
    hide Inv, Leads, Frontier, RcvOk, SlotsOk, StreamOk;
    InvParts(y);
    FrontierMeans(y.rcv);
    z := y;
    Stay(y);
    if Frontier(y.rcv) <= y.snd.currSeq {
      var y1 := OneMore(y);
      InvParts(y1);
      FrontierMeans(y1.rcv);
      z := CatchUp(y1);
      Join(y, y1, z);
    }
  }

  lemma EmitAck(y: Sys) returns (z: Sys, m: Msg)
    requires Inv(y) && Frontier(y.rcv) > y.rcv.lastAckAck
    ensures Leads(y, z) && Inv(z) && z.snd == y.snd && z.rcv.lastAckAck == y.rcv.lastAckAck
    ensures m.FullAck? && m.ack == Frontier(y.rcv) && m in z.net
  {
    hide Inv, Leads, Frontier, StoreAck, RcvOk, StreamOk, SlotsOk;
    InvParts(y);
    FrontierMeans(y.rcv);
    z := Step(y, Full(true));
    Go(y, Full(true));
    m :| m in SendFull(y.rcv, true).1;
  }

  lemma TakeAck(s: Sender, m: Msg)
    requires SndOk(s) && m.FullAck? && m.ack == s.currSeq + 1
    ensures var s' := SenderGets(s, m, false).0;
      && SameLoad(s, s') && s'.pending == s.pending
      && s'.dataAck == s'.lastAck == s'.currSeq + 1
  {
    hide Concat;
  }

  /** A full acknowledgement is sent and gets through. */
  lemma AckThrough(y: Sys) returns (z: Sys)
    requires Inv(y) && Frontier(y.rcv) == y.snd.currSeq + 1 && Frontier(y.rcv) > y.rcv.lastAckAck
    ensures Leads(y, z) && Inv(z) && SameLoad(y.snd, z.snd) && z.snd.pending == y.snd.pending
    ensures z.snd.dataAck == z.snd.lastAck == z.snd.currSeq + 1 && z.rcv.lastAckAck == y.rcv.lastAckAck
  {
    hide Inv, Leads, Frontier, SndOk, SenderGets, RcvOk, StreamOk, SlotsOk;
    var y1, m := EmitAck(y);
    InvParts(y1);
    z := Step(y1, ToSender(m, false));
    Go(y1, ToSender(m, false));
    Join(y, y1, z);
    TakeAck(y1.snd, m);
  }

  /** When all that was sent has arrived, the sender learns of it and gets a
      window to send at least one more packet. */
  lemma OpenWindow(y: Sys) returns (z: Sys)
    requires Inv(y) && Frontier(y.rcv) == y.snd.currSeq + 1
    ensures Leads(y, z) && Inv(z) && SameLoad(y.snd, z.snd) && z.snd.pending.None?
    ensures z.snd.loss == {} && z.snd.lastAck == z.snd.currSeq + 1 && z.snd.flowWindow >= 1
    ensures z.rcv.lastAckAck == y.rcv.lastAckAck
  {
    hide Inv, Leads, Frontier, Concat, StreamOk, SlotsOk, FlowOk, RcvOk;
    var y1 := ClearPending(y);
    InvParts(y1);
    FrontierMeans(y1.rcv);
    if Frontier(y1.rcv) == y1.rcv.lastAckAck {
      z := y1;
    } else {
      z := AckThrough(y1);
      Join(y, y1, z);
    }
    InvParts(z);
    assert z.snd.loss == {} by { assert forall x :: x in z.snd.loss ==> z.snd.dataAck <= x <= z.snd.currSeq; }
  }

  lemma PackNew(s: Sender)
    requires s.loss == {} && s.lastAck == s.currSeq + 1 && s.flowWindow >= 1 && 0 <= s.curr < |s.blocks|
    ensures PackStart(s, 1).0 == s.(currSeq := s.currSeq + 1, curr := s.curr + 1)
  {
  }

  /** A new block goes out. */
  lemma SendOne(y: Sys) returns (z: Sys)
    requires Inv(y) && Frontier(y.rcv) == y.snd.currSeq + 1 && y.snd.curr < |y.snd.blocks|
    ensures Leads(y, z) && Inv(z) && z.snd.curr == y.snd.curr + 1 && z.snd.isn == y.snd.isn
    ensures z.snd.blocks == y.snd.blocks && z.snd.accepted == y.snd.accepted
    ensures z.rcv.lastAckAck == y.rcv.lastAckAck
  {
    hide Leads, Inv, Frontier, PackStart, Concat, RcvOk, StreamOk, SlotsOk;
    InvParts(y);
    var y1 := OpenWindow(y);
    z := Step(y1, Pack(1));
    Go(y1, Pack(1));
    Join(y, y1, z);
    PackNew(y1.snd);
  }

  lemma AllDelivered(y: Sys)
    requires Inv(y) && Unread(y.rcv.win) == [] && y.snd.curr == |y.snd.blocks|
    requires y.rcv.win.ackIdx == y.snd.currSeq + 1
    ensures y.rcv.delivered == y.snd.accepted
  {
    assert y.snd.blocks[..y.rcv.win.ackIdx - y.snd.isn] == y.snd.blocks;
    assert y.rcv.delivered + [] == y.rcv.delivered;
  }

  lemma {:induction false} Finish(y: Sys) returns (z: Sys)
    requires Inv(y)
    ensures Leads(y, z) && Inv(z) && z.rcv.delivered == z.snd.accepted == y.snd.accepted
    ensures z.rcv.win.ackIdx == Frontier(z.rcv) == z.snd.currSeq + 1 == y.snd.isn + |y.snd.blocks|
    ensures z.snd.isn == y.snd.isn
    ensures z.rcv.lastAckAck == y.rcv.lastAckAck
    decreases |y.snd.blocks| - y.snd.curr
  {
    hide Inv, Leads, Frontier, Unread, RcvOk, StreamOk, SlotsOk, Concat;
    InvParts(y);
    var y1 := CatchUp(y);
    if y1.snd.curr < |y1.snd.blocks| {
      var y2 := SendOne(y1);
      Join(y, y1, y2);
      z := Finish(y2);
      Join(y, y2, z);
    } else {
      z := DrainAll(y1);
      Join(y, y1, z);
      AllDelivered(z);
      InvParts(z);
    }
  }

  /** Deadlock freedom: from every reachable state, even one in which every
      packet and acknowledgement under way has been dropped, some run delivers
      all bytes accepted so far. */
  lemma NeverStuck(isn: int, size: int, window: int, es: seq<Event>, y: Sys)
    requires Reachable(isn, size, window, es, y)
    ensures exists z :: Leads(y, z) && z.rcv.delivered == z.snd.accepted == y.snd.accepted
  {
    RunKeeps(isn, size, window, es);
    var z := Finish(y);
  }
}
