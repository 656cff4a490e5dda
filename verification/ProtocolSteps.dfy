/** What the single steps of the two ends do, told by their numbers. */
module ProtocolSteps {
  import opened LossNodes
  import opened ByteStream
  import opened Protocol
  import opened ProtocolInv
  import opened ProtocolTheorems

  // ----- sending -----

  /** Numbers sent and not acknowledged. */
  ghost function InFlight(s: Sender): int { s.currSeq + 1 - s.lastAck }

  /** A new number is sent only within both windows; with nothing lost and a
      block to send, it is sent if both have room. */
  ghost predicate Paced(s: Sender, t: Sender, congestion: int) {
    && s.currSeq <= t.currSeq <= s.currSeq + 1
    && (t.currSeq > s.currSeq ==> InFlight(t) <= congestion && InFlight(t) <= t.flowWindow)
    && (t.currSeq == s.currSeq && s.loss == {} && s.pending.None? && s.curr < |s.blocks| ==>
         InFlight(s) >= congestion || InFlight(s) >= s.flowWindow)
  }

  /** Lost numbers go first, the smallest of them before the others. */
  ghost predicate PopsLeast(s: Sender, t: Sender) {
    && t.pending.Some? && t.pending.value in s.loss && (forall y :: y in s.loss ==> t.pending.value <= y)
    && t == s.(pending := t.pending, loss := s.loss - {t.pending.value})
  }

  /** A new number is the next one, and carries the next block. */
  ghost predicate SendsNext(s: Sender, t: Sender, out: set<Msg>) {
    && 0 <= s.curr < |s.blocks| && t == s.(currSeq := s.currSeq + 1, curr := s.curr + 1)
    && out == {Data(s.currSeq + 1, s.blocks[s.curr])}
  }

  lemma PackStartIs(s: Sender, congestion: int)
    requires 0 <= s.curr
    ensures var (t, out) := PackStart(s, congestion);
      && Paced(s, t, congestion)
      && (s.loss != {} ==> PopsLeast(s, t) && out == {})
      && (s.loss == {} && t.currSeq == s.currSeq ==> t == s && out == {})
      && (t.currSeq > s.currSeq ==> s.loss == {} && SendsNext(s, t, out))
  {
  }

  /** A popped number is sent unless it was acknowledged in full since. */
  lemma PackFinishIs(s: Sender)
    requires SndOk(s) && s.pending.Some?
    ensures var (t, out) := PackFinish(s); var x := s.pending.value;
      && t == s.(pending := None)
      && (out != {} <==> s.dataAck <= x)
      && (out != {} ==> 0 <= x - s.isn < |s.blocks| && out == {Data(x, s.blocks[x - s.isn])})
  {
    hide Concat;
  }

  // ----- acknowledgements -----

  /** Number x is acknowledged, and the window shrinks by what that frees. */
  ghost predicate Credited(s: Sender, t: Sender, x: int) {
    && t == s.(lastAck := t.lastAck, flowWindow := t.flowWindow)
    && t.lastAck == Larger(s.lastAck, x)
    && t.lastAck + t.flowWindow == s.lastAck + s.flowWindow
  }

  lemma LiteAckIs(s: Sender, x: int)
    ensures Credited(s, OnLiteAck(s, x), x)
  {
  }

  /** A full acknowledgement of x: it may name the next number at most; the
      window is the one it brings, unless a later number is acknowledged already;
      and what is below x is released and no longer lost. */
  ghost predicate Released(s: Sender, t: Sender, x: int, window: int) {
    if x > s.currSeq + 1 then t == s.(broken := true)
    else
      && t == s.(lastAck := t.lastAck, flowWindow := t.flowWindow, first := t.first, dataAck := t.dataAck,
                 loss := t.loss)
      && t.lastAck == Larger(s.lastAck, x) && t.dataAck == Larger(s.dataAck, x)
      && t.flowWindow == (if x < s.lastAck then s.flowWindow else window)
      && t.first - s.first == t.dataAck - s.dataAck
      && forall y :: y in t.loss <==> y in s.loss && t.dataAck <= y
  }

  lemma FullAckIs(s: Sender, x: int, window: int)
    requires forall y :: y in s.loss ==> s.dataAck <= y
    ensures Released(s, OnFullAck(s, x, window), x, window)
  {
  }

  // ----- what is acknowledged is not listed again -----

  /** What a timeout or a report adds to the loss list. */
  ghost predicate AddsFrom(s: Sender, t: Sender, x: int) {
    s.loss <= t.loss && forall y :: y in t.loss ==> y in s.loss || x <= y
  }

  lemma ExpAdds(s: Sender)
    ensures AddsFrom(s, OnExp(s), s.lastAck)
    ensures forall y :: s.lastAck <= y <= s.currSeq ==> y in OnExp(s).loss
    ensures OnExp(s) == s.(loss := OnExp(s).loss)
  {
  }

  lemma {:induction false} LossAdds(s: Sender, spans: seq<Node>)
    ensures AddsFrom(s, OnLoss(s, spans), s.lastAck) && OnLoss(s, spans).lastAck == s.lastAck
    decreases |spans|
  {
    if |spans| > 0 {
      var nd, rest := spans[0], spans[1..];
      if nd.lo == nd.hi {
        if nd.lo < s.lastAck { LossAdds(s, rest); } else { LossAdds(s.(loss := s.loss + Range(nd.lo, nd.lo)), rest); }
      } else if nd.lo >= s.lastAck {
        LossAdds(s.(loss := s.loss + Range(nd.lo, nd.hi)), rest);
      } else if nd.hi >= s.lastAck {
        LossAdds(s.(loss := s.loss + Range(s.lastAck, nd.hi)), rest);
      } else {
        LossAdds(s, rest);
      }
    }
  }

  lemma {:induction false} RunMoves(y: Sys, es: seq<Event>)
    requires Inv(y)
    ensures Inv(After(y, es)) && y.snd.lastAck <= After(y, es).snd.lastAck
  {
    hide Inv, Step;
    if |es| > 0 {
      var some, e := es[..|es| - 1], es[|es| - 1];
      RunMoves(y, some);
      StepKeeps(After(y, some), e);
      StepMoves(After(y, some), e);
    }
  }

  /** Once x is acknowledged, lightly or in full, nothing below it is ever added
      to the loss list again, by a timeout or a report. */
  lemma AckedStays(y: Sys, x: int, es: seq<Event>, spans: seq<Node>)
    requires Inv(y) && x <= y.snd.lastAck
    ensures var s := After(y, es).snd; AddsFrom(s, OnExp(s), x) && AddsFrom(s, OnLoss(s, spans), x)
  {
    hide Inv, OnExp, OnLoss;
    RunMoves(y, es);
    var s := After(y, es).snd;
    ExpAdds(s);
    LossAdds(s, spans);
  }

  // ----- acknowledging -----

  /** Packet x has not arrived, everything below it has. */
  ghost predicate FirstMissing(r: Receiver, x: int) {
    !Arrived(r, x) && forall i :: i < x ==> Arrived(r, i)
  }

  lemma FrontierIs(r: Receiver)
    requires RcvOk(r)
    ensures FirstMissing(r, Frontier(r)) && r.lastAckAck <= r.win.ackIdx <= Frontier(r)
    ensures Arrived(r, r.lastAckAck) <==> Frontier(r) != r.lastAckAck
    ensures Arrived(r, r.win.ackIdx) <==> Frontier(r) > r.win.ackIdx
  {
    FrontierMeans(r);
    hide Frontier, LossIsHoles, AcksOk;
  }

  /** A light acknowledgement is sent if and only if the packet that the peer
      knows to be missing has arrived. */
  lemma LiteIs(r: Receiver)
    requires RcvOk(r)
    ensures SendLite(r) != {} <==> Arrived(r, r.lastAckAck)
    ensures forall m :: m in SendLite(r) ==> m.LiteAck? && FirstMissing(r, m.ack)
  {
    hide RcvOk, Frontier;
    FrontierIs(r);
  }

  /** A full one besides needs something new, or that it is time to repeat it; it
      offers the slots left, two at least. */
  lemma FullIs(r: Receiver, resend: bool)
    requires RcvOk(r)
    ensures var (t, out) := SendFull(r, resend);
      && FirstMissing(r, t.win.ackIdx)
      && (out != {} <==> Arrived(r, r.lastAckAck) && (Arrived(r, r.win.ackIdx) || resend))
      && (out != {} ==>
           out == {FullAck(r.ackNo + 1, t.win.ackIdx, Larger(2, r.win.readIdx + r.size - 1 - t.win.ackIdx))})
      && t == r.(win := r.win.(ackIdx := t.win.ackIdx), ackNo := t.ackNo, acks := t.acks)
      && t.ackNo == r.ackNo + (if out == {} then 0 else 1)
      && t.acks == if out == {} then r.acks else StoreAck(r.acks, AckRecord(t.ackNo, t.win.ackIdx))
  {
    hide RcvOk, Frontier, StoreAck;
    FrontierIs(r);
  }

  /** The history keeps the last 4095 records. */
  lemma StoreAckIs(acks: seq<AckRecord>, rec: AckRecord)
    ensures var t, all := StoreAck(acks, rec), acks + [rec];
      |acks| <= 4095 ==> t == all[if |all| > 4095 then 1 else 0..]
  {
  }
}
