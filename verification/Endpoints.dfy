/** The endpoint classes meet the runs of the protocol: in every reachable state
    their methods may be called, as long as no number in use is more than half
    the number space old. */
module Endpoints {
  import opened SeqNo
  import opened Protocol
  import opened ProtocolInv
  import opened ProtocolTheorems
  import opened ProtocolProgress
  import ProtocolLimits
  import S = SenderEnd
  import R = ReceiverEnd

  /** `x` is not older than the sequence window allows. */
  ghost predicate Recent(y: Sys, x: int) { y.snd.currSeq + 1 - TH < x }

  /** The numbers a message names are. */
  ghost predicate RecentMsg(y: Sys, m: Msg) {
    match m
    case Data(x, p) => Recent(y, x)
    case LiteAck(a) => Recent(y, a)
    case FullAck(no, a, w) => Recent(y, a)
    case Ack2(no) => y.rcv.ackNo - MOD < no
    case Loss(spans) => forall k :: 0 <= k < |spans| ==> Recent(y, spans[k].lo)
  }

  /** The sender's methods may be called in every reachable state, with a loss
      list for the largest window; twice the first window is enough exactly
      under the condition of ProtocolLimits.TwiceTheWindow. */
  lemma SenderReady(isn: int, size: int, window: int, es: seq<Event>, y: Sys)
    requires Reachable(isn, size, window, es, y) && 0 <= isn
    ensures forall span :: span >= Larger(window, Larger(size - 1, 2)) ==> S.Ready(y.snd, span)
  {
    RunKeeps(isn, size, window, es);
    IsnFixed(isn, size, window, es);
    SizeFixed(isn, size, window, es);
    hide After, RcvOk, NetOk, SlotsOk, StreamOk, LiveOk, SndOk;
  }

  /** So may the receiver's. */
  lemma ReceiverReady(isn: int, size: int, window: int, es: seq<Event>, y: Sys)
    requires Reachable(isn, size, window, es, y) && 0 <= isn && Recent(y, y.rcv.lastAckAck)
    ensures R.Close(y.rcv)
  {
    RunKeeps(isn, size, window, es);
    IsnFixed(isn, size, window, es);
    hide After, RcvOk, NetOk, StreamOk, LiveOk, SndOk;
  }

  /** Without that condition it goes wrong: in some run no acknowledgement is
      ever confirmed, though all data arrives and is read, until the receiver
      no longer sends the acknowledgement the protocol sends. */
  lemma GoesMute(isn: int, size: int, window: int) returns (es: seq<Event>, y: Sys)
    requires 0 <= isn && 2 <= size && 1 <= window <= size
    ensures Reachable(isn, size, window, es, y) && R.Behind(y.rcv, MOD)
    ensures y.rcv.delivered == y.snd.accepted && !Recent(y, y.rcv.lastAckAck)
    ensures R.Mute(y.rcv) && SendFull(y.rcv, true).1 != {}
  {
    hide *;
    StartsAt(isn, size, window);
    var y0 := ProtocolLimits.Accept(isn, size, window, TH + 3);
    y := Finish(y0);
    Join(Start(isn, size, window), y0, y);
    es := Ran(Start(isn, size, window), y);
    ReachableIs(isn, size, window, es, y);
    NumbersAt(y);
    R.MuteExact(y.rcv);
    TellsOf(y.rcv);
  }

  lemma StartsAt(isn: int, size: int, window: int)
    ensures Start(isn, size, window).rcv.lastAckAck == isn == Start(isn, size, window).snd.isn && TH > 0
  {
  }

  lemma Ran(x: Sys, y: Sys) returns (es: seq<Event>)
    requires Leads(x, y)
    ensures y == After(x, es)
  {
    es :| After(x, es) == y;
  }

  lemma NumbersAt(y: Sys)
    requires Inv(y) && y.snd.isn == y.rcv.lastAckAck >= 0 && Frontier(y.rcv) == y.snd.isn + TH + 3
    requires y.rcv.win.ackIdx == Frontier(y.rcv) == y.snd.currSeq + 1
    ensures R.Behind(y.rcv, MOD)
    ensures !Recent(y, y.rcv.lastAckAck)
  {
    InvParts(y);
    FrontierMeans(y.rcv);
  }

  lemma TellsOf(r: Receiver)
    requires Frontier(r) == r.win.ackIdx > r.lastAckAck
    ensures SendFull(r, true).1 != {}
  {
  }

  /** The numbers in use lie in one window. */
  lemma Bounds(y: Sys)
    requires Inv(y)
    ensures y.snd.isn <= y.snd.dataAck <= y.snd.currSeq + 1 <= y.snd.dataAck + y.rcv.size
    ensures y.rcv.win.ackIdx <= Frontier(y.rcv) <= y.rcv.currSeq + 1 <= y.snd.currSeq + 1
    ensures y.snd.currSeq + 1 <= y.rcv.win.ackIdx + y.rcv.size + 1
  {
    FrontierMeans(y.rcv);
    hide NetOk, StreamOk, LiveOk, Frontier, LossIsHoles, AcksOk;
  }

  /** What the invariant says of a message. */
  lemma Numbers(y: Sys, m: Msg)
    requires Inv(y) && m in y.net
    ensures match m
      case Data(x, p) => y.snd.isn <= x <= y.snd.currSeq
      case LiteAck(a) => y.snd.isn <= a <= Frontier(y.rcv)
      case FullAck(no, a, w) => y.snd.isn <= a <= y.rcv.win.ackIdx
      case Ack2(no) => no <= y.rcv.ackNo
      case Loss(spans) => forall k :: 0 <= k < |spans| ==> y.snd.isn <= spans[k].lo <= spans[k].hi <= y.rcv.currSeq
  {
    hide SndOk, RcvOk, SlotsOk, StreamOk, LiveOk, FlowOk, Frontier, Confirmed;
    assert MsgOk(m, y.snd, y.rcv);
  }

  /** Every recent message under way carries numbers the two ends can tell apart. */
  lemma MessagesReach(isn: int, size: int, window: int, es: seq<Event>, y: Sys, m: Msg)
    requires Reachable(isn, size, window, es, y) && 0 <= isn && size < TH - 1 && m in y.net && RecentMsg(y, m)
    ensures m.LiteAck? ==> S.InReach(y.snd, m.ack)
    ensures m.FullAck? ==> S.InReach(y.snd, m.ack)
    ensures m.Loss? ==> forall nd :: nd in m.spans ==> S.Told(y.snd, nd)
    ensures m.Data? ==> Near(y.rcv.win.ackIdx, m.seqno)
    ensures m.Ack2? ==> y.rcv.ackNo - MOD < m.ackNo <= y.rcv.ackNo
  {
    hide After, Start, Inv, Frontier;
    RunKeeps(isn, size, window, es);
    SizeFixed(isn, size, window, es);
    Bounds(y);
    Numbers(y, m);
  }

  /** A number popped for retransmission stays in reach until it is packed. */
  lemma PendingReach(isn: int, size: int, window: int, es: seq<Event>, y: Sys)
    requires Reachable(isn, size, window, es, y) && 0 <= isn && size < TH - 1 && y.snd.pending.Some?
    ensures S.InReach(y.snd, y.snd.pending.value)
  {
    RunKeeps(isn, size, window, es);
    IsnFixed(isn, size, window, es);
    SizeFixed(isn, size, window, es);
    hide After, RcvOk, NetOk, SlotsOk, StreamOk, LiveOk;
  }
}
