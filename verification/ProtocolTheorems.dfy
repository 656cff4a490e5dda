/** The main results about an established connection, for every run. */
module ProtocolTheorems {
  import opened LossNodes
  import opened ByteStream
  import opened Protocol
  import opened ProtocolInv

  ghost predicate Reachable(isn: int, size: int, window: int, es: seq<Event>, y: Sys) {
    size >= 2 && 1 <= window <= size && y == After(Start(isn, size, window), es)
  }

  lemma ReachableIs(isn: int, size: int, window: int, es: seq<Event>, y: Sys)
    ensures Reachable(isn, size, window, es, y) <==>
      size >= 2 && 1 <= window <= size && y == After(Start(isn, size, window), es)
  {
  }

  // ----- safety -----

  /** Exactly once and in order: what the application has read is a prefix of
      what the peer's application has sent. */
  lemma DeliveredIsPrefix(isn: int, size: int, window: int, es: seq<Event>, y: Sys)
    requires Reachable(isn, size, window, es, y)
    ensures y.rcv.delivered <= y.snd.accepted
  {
    RunKeeps(isn, size, window, es);
    ConcatPrefix(y.snd.blocks, y.rcv.win.ackIdx - y.snd.isn);
  }

  /** The packet has arrived: it waits in the buffer or has been read. */
  ghost predicate Arrived(r: Receiver, i: int) { i < r.win.readIdx || i in r.win.slots }

  /** No acknowledgement, light or full, ever names a number beyond the first
      one missing; so nothing is released by the sender that has not arrived,
      and what is missing can still be sent again. */
  lemma AcksAreTrue(isn: int, size: int, window: int, es: seq<Event>, y: Sys, i: int)
    requires Reachable(isn, size, window, es, y) && i >= isn
    ensures forall a :: LiteAck(a) in y.net && i < a ==> Arrived(y.rcv, i)
    ensures forall no, a, w :: FullAck(no, a, w) in y.net && i < a ==> Arrived(y.rcv, i)
    ensures i < y.snd.lastAck ==> Arrived(y.rcv, i)
    ensures !Arrived(y.rcv, i) && i <= y.snd.currSeq ==>
      0 <= y.snd.first <= i - isn < |y.snd.blocks|
  {
    RunKeeps(isn, size, window, es);
    IsnFixed(isn, size, window, es);
    FrontierMeans(y.rcv);
    forall a | LiteAck(a) in y.net && i < a ensures Arrived(y.rcv, i) {
      assert MsgOk(LiteAck(a), y.snd, y.rcv);
    }
    forall no, a, w | FullAck(no, a, w) in y.net && i < a ensures Arrived(y.rcv, i) {
      assert MsgOk(FullAck(no, a, w), y.snd, y.rcv);
    }
  }

  /** From the acknowledged number to the current one, a number is in the
      receiver's loss list exactly when its slot is empty, and no acknowledged
      unread slot is empty. */
  lemma HolesAreLosses(isn: int, size: int, window: int, es: seq<Event>, y: Sys, i: int)
    requires Reachable(isn, size, window, es, y)
    ensures y.rcv.win.ackIdx <= i <= y.rcv.currSeq ==> (i in y.rcv.loss <==> i !in y.rcv.win.slots)
    ensures y.rcv.win.readIdx <= i < y.rcv.win.ackIdx ==> i in y.rcv.win.slots
    ensures i in y.rcv.win.slots ==> i < y.rcv.win.readIdx + size - 1
  {
    RunKeeps(isn, size, window, es);
    SizeFixed(isn, size, window, es);
  }

  /** An honest peer never trips the checks for forged reports. */
  lemma NeverBroken(isn: int, size: int, window: int, es: seq<Event>, y: Sys)
    requires Reachable(isn, size, window, es, y)
    ensures !y.snd.broken
  {
    RunKeeps(isn, size, window, es);
  }

  /** Flow control: no number is sent, and no window lets one be sent, that the
      receiver could not nearly hold; what the sender may take for lost spans
      no more than the larger of the first window and what a full
      acknowledgement can advertise. */
  lemma FlowBound(isn: int, size: int, window: int, es: seq<Event>, y: Sys)
    requires Reachable(isn, size, window, es, y)
    ensures y.snd.currSeq < (y.rcv.win.readIdx + size - 1) + 2
    ensures y.snd.lastAck + y.snd.flowWindow <= (y.rcv.win.readIdx + size - 1) + 2
    ensures forall x :: x in OnExp(y.snd).loss ==> y.snd.dataAck <= x <= y.snd.currSeq
    ensures Fits(OnExp(y.snd).loss, Larger(window, Larger(size - 1, 2)))
    ensures Fits(y.rcv.loss, if size > 2 then size - 2 else 1)
  {
    hide After, Start, Inv, OnExp;
    RunKeeps(isn, size, window, es);
    SizeFixed(isn, size, window, es);
    IsnFixed(isn, size, window, es);
    SentSpan(y);
    LostSpan(y);
  }

  lemma SentSpan(y: Sys)
    requires Inv(y)
    ensures y.snd.currSeq < Room(y.rcv) + 2 && y.snd.lastAck + y.snd.flowWindow <= Room(y.rcv) + 2
    ensures forall x :: x in OnExp(y.snd).loss ==> y.snd.dataAck <= x <= y.snd.currSeq
    ensures Fits(OnExp(y.snd).loss, Larger(y.snd.window, Larger(y.rcv.size - 1, 2)))
  {
    hide RcvOk, NetOk, SlotsOk, StreamOk, LiveOk, Frontier;
  }

  lemma LostSpan(y: Sys)
    requires Inv(y)
    ensures Fits(y.rcv.loss, if y.rcv.size > 2 then y.rcv.size - 2 else 1)
  {
    hide SndOk, NetOk, SlotsOk, StreamOk, LiveOk, FlowOk, AcksOk, Frontier;
    assert forall x :: x in y.rcv.loss ==> y.rcv.currSeq in y.rcv.win.slots;
  }

  function Larger(a: int, b: int): int { if a < b then b else a }

  /** A light acknowledgement does not let the sender go further. */
  lemma LiteKeepsLimit(s: Sender, ack: int)
    ensures var s' := OnLiteAck(s, ack); s'.lastAck + s'.flowWindow == s.lastAck + s.flowWindow
  {
  }

  lemma {:induction false} SizeFixed(isn: int, size: int, window: int, es: seq<Event>)
    ensures After(Start(isn, size, window), es).rcv.size == size
  {
    if |es| > 0 { SizeFixed(isn, size, window, es[..|es| - 1]); }
  }

  lemma {:induction false} IsnFixed(isn: int, size: int, window: int, es: seq<Event>)
    requires size >= 2 && 1 <= window <= size
    ensures After(Start(isn, size, window), es).snd.isn == isn
    ensures After(Start(isn, size, window), es).snd.window == window
  {
    if |es| > 0 {
      IsnFixed(isn, size, window, es[..|es| - 1]);
      RunKeeps(isn, size, window, es[..|es| - 1]);
      StepMoves(After(Start(isn, size, window), es[..|es| - 1]), es[|es| - 1]);
    }
  }

  /** What the sender never takes back. */
  ghost predicate SenderAdvances(s: Sender, s': Sender) {
    && s'.isn == s.isn && s'.window == s.window && s.blocks <= s'.blocks && s.accepted <= s'.accepted
    && s.dataAck <= s'.dataAck && s.lastAck <= s'.lastAck && s.currSeq <= s'.currSeq
  }

  /** What the receiver never takes back; in particular the number known to be
      confirmed only advances and never passes the one acknowledged. */
  ghost predicate ReceiverAdvances(r: Receiver, r': Receiver) {
    && r.delivered <= r'.delivered
    && r.lastAckAck <= r'.lastAckAck <= r'.win.ackIdx
    && r.win.ackIdx <= r'.win.ackIdx && r.win.readIdx <= r'.win.readIdx
  }

  lemma SenderGetsMoves(y: Sys, m: Msg, reply: bool)
    requires Inv(y) && m in y.net
    ensures SenderAdvances(y.snd, SenderGets(y.snd, m, reply).0)
  {
    hide Inv, SndOk, RcvOk, SlotsOk, StreamOk, FlowOk, LiveOk, Frontier, OnLoss, MsgOk;
    InvParts(y);
    NetIs(y, m);
    if m.Loss? { LossKeeps(y.snd, m.spans); }
  }

  lemma ReceiverGetsMoves(y: Sys, m: Msg, counted: bool)
    requires Inv(y) && m in y.net
    ensures ReceiverAdvances(y.rcv, ReceiverGets(y.rcv, m, counted).0)
  {
    hide Inv, SndOk, SlotsOk, StreamOk, FlowOk, LiveOk, Frontier, LossIsHoles, WindowOk, MsgOk;
    InvParts(y);
  }

  lemma FullMoves(r: Receiver, resend: bool)
    requires RcvOk(r)
    ensures ReceiverAdvances(r, SendFull(r, resend).0)
  {
    FrontierMeans(r);
    hide Frontier, LossIsHoles, WindowOk, StoreAck;
  }

  lemma RecvMoves(r: Receiver, len: nat)
    requires RcvOk(r)
    ensures ReceiverAdvances(r, AppRecv(r, len))
  {
    ReadIsQueue(r.win, len);
    hide Frontier, LossIsHoles, WindowOk, Read, Unread;
  }

  lemma StepMoves(y: Sys, e: Event)
    requires Inv(y)
    ensures SenderAdvances(y.snd, Step(y, e).snd) && ReceiverAdvances(y.rcv, Step(y, e).rcv)
  {
    assert ReceiverAdvances(y.rcv, y.rcv);
    match e
    case ToSender(m, reply) => if m in y.net { SenderGetsMoves(y, m, reply); }
    case ToReceiver(m, counted) => if m in y.net { ReceiverGetsMoves(y, m, counted); }
    case Full(resend) => FullMoves(y.rcv, resend);
    case Recv(len) => RecvMoves(y.rcv, len);
    case _ => hide Inv, ReceiverAdvances;
  }

  lemma {:induction false} AfterSplit(y: Sys, es: seq<Event>, more: seq<Event>)
    ensures After(y, es + more) == After(After(y, es), more)
  {
    if |more| == 0 {
      assert es + more == es;
    } else {
      assert (es + more)[..|es + more| - 1] == es + more[..|more| - 1];
      AfterSplit(y, es, more[..|more| - 1]);
    }
  }

  lemma {:induction false} MovesOn(y: Sys, more: seq<Event>)
    requires Inv(y)
    ensures Inv(After(y, more))
    ensures SenderAdvances(y.snd, After(y, more).snd)
  {
    if |more| > 0 {
      MovesOn(y, more[..|more| - 1]);
      StepKeeps(After(y, more[..|more| - 1]), more[|more| - 1]);
      StepMoves(After(y, more[..|more| - 1]), more[|more| - 1]);
    }
  }

  lemma SameBlock(y: Sys, z: Sys, x: int, p: Payload, q: Payload)
    requires NetOk(y) && NetOk(z) && SenderAdvances(y.snd, z.snd)
    requires Data(x, p) in y.net && Data(x, q) in z.net
    ensures p == q
  {
    assert MsgOk(Data(x, p), y.snd, y.rcv) && MsgOk(Data(x, q), z.snd, z.rcv);
  }

  /** A sequence number always carries the same payload: whatever happens
      between two transmissions, they agree. */
  lemma SamePayload(isn: int, size: int, window: int, es: seq<Event>, more: seq<Event>, x: int, p: Payload, q: Payload)
    requires size >= 2 && 1 <= window <= size
    requires Data(x, p) in After(Start(isn, size, window), es).net
    requires Data(x, q) in After(Start(isn, size, window), es + more).net
    ensures p == q
  {
    hide After, SenderAdvances, NetOk, SndOk, RcvOk, SlotsOk, StreamOk, FlowOk, LiveOk;
    RunKeeps(isn, size, window, es);
    RunKeeps(isn, size, window, es + more);
    AfterSplit(Start(isn, size, window), es, more);
    MovesOn(After(Start(isn, size, window), es), more);
    SameBlock(After(Start(isn, size, window), es), After(Start(isn, size, window), es + more), x, p, q);
  }
}
