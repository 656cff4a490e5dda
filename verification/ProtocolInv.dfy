/** What every reachable state of the connection satisfies, and why each step
    keeps it. */
module ProtocolInv {
  import opened LossNodes
  import opened ByteStream
  import opened Protocol

  // ----- the invariant -----

  ghost predicate SndOk(s: Sender) {
    && s.isn <= s.dataAck <= s.lastAck <= s.currSeq + 1
    && s.first == s.dataAck - s.isn && s.curr == s.currSeq + 1 - s.isn <= |s.blocks|
    && (forall x :: x in s.loss ==> s.dataAck <= x <= s.currSeq)
    && (s.pending.Some? ==> s.isn <= s.pending.value <= s.currSeq)
    && !s.broken
    && (forall k :: 0 <= k < |s.blocks| ==> |s.blocks[k]| > 0)
    && Concat(s.blocks) == s.accepted
  }

  /** The receive buffer, its loss list and the acknowledged numbers agree. */
  ghost predicate RcvOk(r: Receiver) {
    && r.size >= 2 && WindowOk(r.win) && r.win.ackIdx <= r.currSeq + 1
    && (forall i :: i in r.win.slots ==> i <= r.currSeq && i < r.win.readIdx + r.size - 1 && |r.win.slots[i]| > 0)
    && r.win.ackIdx <= r.win.readIdx + r.size - 1
    && LossIsHoles(r) && r.currSeq !in r.loss
    && r.lastAckAck <= r.win.ackIdx && AcksOk(r)
  }

  /** The history of acknowledgements: consecutive numbers up to the last one
      given, for numbers that only grow and lie between what the peer has
      confirmed and what was acknowledged last. */
  ghost predicate AcksOk(r: Receiver) {
    && |r.acks| < ACK_WINDOW && |r.acks| <= r.ackNo
    && (forall k :: 0 <= k < |r.acks| ==> r.acks[k].ackNo == r.ackNo - |r.acks| + 1 + k)
    && (forall k :: 0 <= k < |r.acks| ==> r.lastAckAck <= r.acks[k].ack <= r.win.ackIdx)
    && (forall j, k :: 0 <= j < k < |r.acks| ==> r.acks[j].ack <= r.acks[k].ack)
  }

  /** A number up to the current one is in the loss list exactly when its slot
      is empty. */
  ghost predicate LossIsHoles(r: Receiver) {
    forall i :: i in r.loss <==> r.win.ackIdx <= i <= r.currSeq && i !in r.win.slots
  }

  /** First index the receiver can never have room for, plus one. */
  ghost function Room(r: Receiver): int { r.win.readIdx + r.size - 1 }

  ghost predicate MsgOk(m: Msg, s: Sender, r: Receiver) {
    match m
    case Data(x, p) =>
      s.isn <= x <= s.currSeq && s.curr <= |s.blocks| && x - s.isn < |s.blocks| && p == s.blocks[x - s.isn]
    case LiteAck(a) => s.isn <= a <= Frontier(r)
    case FullAck(no, a, w) =>
      && s.isn <= a <= r.win.ackIdx && no <= r.ackNo && (w == 2 || 2 < w < r.size) && a + w <= Room(r) + 2
      && forall k :: 0 <= k < |r.acks| && r.acks[k].ackNo == no ==> r.acks[k].ack == a
    case Ack2(no) => no <= r.ackNo && Confirmed(s, r, no)
    case Loss(spans) => forall k :: 0 <= k < |spans| ==> s.isn <= spans[k].lo <= spans[k].hi <= r.currSeq
  }

  /** The sender has released everything below what record `no` acknowledged. */
  ghost predicate Confirmed(s: Sender, r: Receiver, no: nat) {
    forall k :: 0 <= k < |r.acks| && r.acks[k].ackNo == no ==> r.acks[k].ack <= s.dataAck
  }

  ghost predicate NetOk(y: Sys) {
    forall m :: m in y.net ==> MsgOk(m, y.snd, y.rcv)
  }

  /** What is in the receive buffer is what was sent. */
  ghost predicate SlotsOk(s: Sender, r: Receiver) {
    && s.isn <= r.win.readIdx && r.currSeq <= s.currSeq
    && (forall i :: i in r.win.slots ==> 0 <= i - s.isn < s.curr <= |s.blocks| && r.win.slots[i] == s.blocks[i - s.isn])
  }

  /** Delivered and readable bytes together are the acknowledged blocks. */
  ghost predicate StreamOk(s: Sender, r: Receiver) {
    && 0 <= r.win.ackIdx - s.isn <= |s.blocks| && WindowOk(r.win)
    && r.delivered + Unread(r.win) == Concat(s.blocks[..r.win.ackIdx - s.isn])
  }

  /** How many numbers the sender may have to keep apart: the first window, or
      what a full acknowledgement can advertise. */
  ghost function Span(s: Sender, r: Receiver): int {
    var later := if r.size - 1 < 2 then 2 else r.size - 1;
    if s.window < later then later else s.window
  }

  ghost predicate FlowOk(s: Sender, r: Receiver) {
    && 1 <= s.window <= r.size
    && s.lastAck + s.flowWindow <= Room(r) + 2
    && s.currSeq + 1 <= Room(r) + 2
    && s.lastAck + s.flowWindow <= s.dataAck + Span(s, r)
    && s.currSeq + 1 <= s.dataAck + Span(s, r)
    && s.lastAck <= Frontier(r)
    && (s.pending.Some? ==> s.currSeq + 1 <= s.pending.value + Span(s, r))
  }

  /** What keeps flow control from locking up: the receiver stops repeating an
      acknowledgement only when the sender has it, and a sender that has
      released all it knows to be acknowledged may send a packet. */
  ghost predicate LiveOk(s: Sender, r: Receiver) {
    && r.lastAckAck <= s.dataAck
    && (s.dataAck == s.lastAck ==> s.flowWindow >= 1)
  }

  ghost predicate Inv(y: Sys) {
    && SndOk(y.snd) && RcvOk(y.rcv) && NetOk(y)
    && SlotsOk(y.snd, y.rcv) && StreamOk(y.snd, y.rcv) && FlowOk(y.snd, y.rcv) && LiveOk(y.snd, y.rcv)
  }

  // ----- the frontier -----

  /** The number acknowledged next: everything below it has arrived, and it has
      not itself. */
  lemma FrontierMeans(r: Receiver)
    requires RcvOk(r)
    ensures r.win.ackIdx <= Frontier(r) <= r.currSeq + 1
    ensures forall i :: r.win.readIdx <= i < Frontier(r) ==> i in r.win.slots
    ensures Frontier(r) !in r.win.slots
    ensures Frontier(r) <= Room(r)
  {
    var f := Frontier(r);
    forall i | r.win.readIdx <= i < f ensures i in r.win.slots {
      if i >= r.win.ackIdx { assert i !in r.loss; }
    }
    if f > r.win.ackIdx { assert f - 1 in r.win.slots; }
  }

  /** Only the arrival of the frontier itself moves it, and only upwards. */
  lemma FrontierGrows(r: Receiver, r': Receiver)
    requires RcvOk(r) && RcvOk(r') && r.win.readIdx <= r'.win.readIdx
    requires forall i :: i in r.win.slots && i >= r'.win.readIdx ==> i in r'.win.slots
    requires r'.win.readIdx <= Frontier(r) || r'.win.ackIdx >= Frontier(r)
    ensures Frontier(r) <= Frontier(r')
  {
    FrontierMeans(r);
    FrontierMeans(r');
  }

  // ----- sender steps -----

  ghost function WithBlocks(s: Sender, more: seq<Payload>): Sender {
    s.(accepted := s.accepted + Concat(more), blocks := s.blocks + more)
  }

  lemma MoreBlocksOk(s: Sender, more: seq<Payload>)
    requires SndOk(s) && forall k :: 0 <= k < |more| ==> |more[k]| > 0
    ensures SndOk(WithBlocks(s, more))
  {
    ConcatSplit(s.blocks, more);
    hide Concat;
  }

  lemma MoreBlocksStream(s: Sender, r: Receiver, more: seq<Payload>)
    requires StreamOk(s, r)
    ensures StreamOk(WithBlocks(s, more), r)
  {
    hide Concat, Unread, WindowOk;
    var n := r.win.ackIdx - s.isn;
    assert (s.blocks + more)[..n] == s.blocks[..n];
  }

  /** A sender that only gets more blocks leaves everything else as it was. */
  lemma MoreBlocks(y: Sys, more: seq<Payload>)
    requires Inv(y) && forall k :: 0 <= k < |more| ==> |more[k]| > 0
    ensures Inv(y.(snd := WithBlocks(y.snd, more)))
  {
    hide SndOk, RcvOk, StreamOk, SlotsOk, MsgOk, Concat, Frontier, Unread, WindowOk;
    var s := WithBlocks(y.snd, more);
    MoreBlocksOk(y.snd, more);
    MoreBlocksStream(y.snd, y.rcv, more);
    MoreBlocksSlots(y.snd, y.rcv, more);
    forall m | m in y.net ensures MsgOk(m, s, y.rcv) { MoreBlocksMsg(m, y.snd, y.rcv, more); }
  }

  lemma MoreBlocksMsg(m: Msg, s: Sender, r: Receiver, more: seq<Payload>)
    requires MsgOk(m, s, r)
    ensures MsgOk(m, WithBlocks(s, more), r)
  {
    hide Frontier, Concat;
  }

  lemma MoreBlocksSlots(s: Sender, r: Receiver, more: seq<Payload>)
    requires SlotsOk(s, r)
    ensures SlotsOk(WithBlocks(s, more), r)
  {
    assert forall k :: 0 <= k < |s.blocks| ==> (s.blocks + more)[k] == s.blocks[k];
  }

  lemma SendKeeps(y: Sys, data: Payload, mss: int)
    requires Inv(y) && mss > 0
    ensures Inv(y.(snd := AppSend(y.snd, data, mss)))
  {
    ChunksCut(data, mss);
    MoreBlocks(y, Chunks(data, mss));
  }

  /** The same sender, as far as messages under way can tell. */
  ghost predicate SameTrail(s: Sender, s': Sender) {
    && s'.isn == s.isn && s'.window == s.window && s'.blocks == s.blocks && s'.accepted == s.accepted
    && s.currSeq <= s'.currSeq && s.curr <= s'.curr <= |s.blocks| && s.dataAck <= s'.dataAck
  }

  lemma SenderMoves(y: Sys, s': Sender, out: set<Msg>)
    requires Inv(y) && SndOk(s') && SameTrail(y.snd, s') && FlowOk(s', y.rcv) && LiveOk(s', y.rcv)
    requires forall m :: m in out ==> MsgOk(m, s', y.rcv)
    ensures Inv(y.(snd := s', net := y.net + out))
  {
    hide SndOk, RcvOk, Concat, Frontier, Unread, WindowOk;
    assert y.snd.isn == s'.isn && y.snd.blocks == s'.blocks;
    forall m | m in y.net + out ensures MsgOk(m, s', y.rcv) {
      if m in y.net { assert MsgOk(m, y.snd, y.rcv); }
    }
  }

  lemma PackStartOk(s: Sender, r: Receiver, cwnd: int)
    requires SndOk(s) && FlowOk(s, r) && LiveOk(s, r) && s.pending.None?
    ensures var (s', out) := PackStart(s, cwnd);
      SndOk(s') && FlowOk(s', r) && LiveOk(s', r) && SameTrail(s, s') && forall m :: m in out ==> MsgOk(m, s', r)
  {
    hide Concat, Frontier;
  }

  lemma PackFinishOk(s: Sender, r: Receiver)
    requires SndOk(s) && FlowOk(s, r) && LiveOk(s, r) && s.pending.Some?
    ensures var (s', out) := PackFinish(s);
      SndOk(s') && FlowOk(s', r) && LiveOk(s', r) && SameTrail(s, s') && forall m :: m in out ==> MsgOk(m, s', r)
  {
    hide Concat, Frontier;
  }

  lemma PackKeeps(y: Sys, cwnd: int)
    requires Inv(y)
    ensures Inv(Step(y, Pack(cwnd)))
  {
    var s := y.snd;
    var (s', out) := if s.pending.Some? then PackFinish(s) else PackStart(s, cwnd);
    if s.pending.Some? { PackFinishOk(s, y.rcv); } else { PackStartOk(s, y.rcv, cwnd); }
    assert Step(y, Pack(cwnd)) == y.(snd := s', net := y.net + out);
    hide Inv, SndOk, FlowOk, LiveOk, SameTrail;
    SenderMoves(y, s', out);
  }

  lemma LiteAckKeeps(y: Sys, ack: int)
    requires Inv(y) && ack <= Frontier(y.rcv)
    ensures Inv(y.(snd := OnLiteAck(y.snd, ack)))
  {
    FrontierMeans(y.rcv);
    OnLiteAckOk(y.snd, y.rcv, ack);
    assert y.net + {} == y.net;
    hide *;
    SenderMoves(y, OnLiteAck(y.snd, ack), {});
  }

  lemma OnLiteAckOk(s: Sender, r: Receiver, ack: int)
    requires SndOk(s) && FlowOk(s, r) && LiveOk(s, r) && ack <= Frontier(r) <= s.currSeq + 1
    ensures var s' := OnLiteAck(s, ack); SndOk(s') && FlowOk(s', r) && LiveOk(s', r) && SameTrail(s, s')
  {
    hide Concat, Frontier;
  }

  lemma FullAckKeeps(y: Sys, no: nat, ack: int, w: int, reply: bool)
    requires Inv(y) && MsgOk(FullAck(no, ack, w), y.snd, y.rcv)
    ensures Inv(y.(snd := OnFullAck(y.snd, ack, w), net := y.net + if reply then {Ack2(no)} else {}))
  {
    FullAckFacts(y.snd, y.rcv, no, ack, w);
    InvParts(y);
    hide *;
    SenderMoves(y, OnFullAck(y.snd, ack, w), if reply then {Ack2(no)} else {});
  }

  lemma InvParts(y: Sys)
    requires Inv(y)
    ensures SndOk(y.snd) && RcvOk(y.rcv) && FlowOk(y.snd, y.rcv) && LiveOk(y.snd, y.rcv) && SlotsOk(y.snd, y.rcv)
    ensures StreamOk(y.snd, y.rcv) && y.rcv.lastAckAck <= y.snd.dataAck && SameRecords(y.rcv, y.rcv)
    ensures y.rcv.lastAckAck <= y.rcv.win.ackIdx && !y.snd.broken
    ensures y.snd.isn <= y.rcv.win.readIdx <= y.rcv.win.ackIdx <= y.rcv.currSeq + 1
  {
  }

  lemma FullAckFacts(s: Sender, r: Receiver, no: nat, ack: int, w: int)
    requires SndOk(s) && RcvOk(r) && FlowOk(s, r) && LiveOk(s, r) && SlotsOk(s, r) && MsgOk(FullAck(no, ack, w), s, r)
    ensures var s' := OnFullAck(s, ack, w);
      SndOk(s') && SameTrail(s, s') && FlowOk(s', r) && LiveOk(s', r) && MsgOk(Ack2(no), s', r)
  {
    FrontierMeans(r);
    hide Frontier, Concat, Unread, WindowOk, LossIsHoles, AcksOk;
  }

  /** An honest report never breaks the connection and inserts nothing that was
      not sent or is already released. */
  lemma {:induction false} LossKeeps(s: Sender, spans: seq<Node>)
    requires SndOk(s)
    requires forall k :: 0 <= k < |spans| ==> spans[k].lo <= spans[k].hi <= s.currSeq
    ensures var s' := OnLoss(s, spans); SndOk(s') && s' == s.(loss := s'.loss) && s.loss <= s'.loss
    decreases |spans|
  {
    if |spans| > 0 {
      var nd, rest := spans[0], spans[1..];
      assert forall k :: 0 <= k < |rest| ==> rest[k] == spans[k + 1];
      if nd.lo == nd.hi {
        LossKeeps(if nd.lo < s.lastAck then s else s.(loss := s.loss + Range(nd.lo, nd.lo)), rest);
      } else if nd.lo >= s.lastAck {
        LossKeeps(s.(loss := s.loss + Range(nd.lo, nd.hi)), rest);
      } else if nd.hi >= s.lastAck {
        LossKeeps(s.(loss := s.loss + Range(s.lastAck, nd.hi)), rest);
      } else {
        LossKeeps(s, rest);
      }
    }
  }

  lemma ToSenderKeeps(y: Sys, m: Msg, reply: bool)
    requires Inv(y)
    ensures Inv(Step(y, ToSender(m, reply)))
  {
    hide Inv, MsgOk, OnLiteAck, OnFullAck, OnLoss, Frontier;
    if m in y.net {
      NetIs(y, m);
      match m
      case LiteAck(ack) =>
        LiteAckKeeps(y, ack);
        assert y.net + {} == y.net;
      case FullAck(no, ack, w) => FullAckKeeps(y, no, ack, w, reply);
      case Loss(spans) => LossReportKeeps(y, spans);
      case _ => assert y.net + {} == y.net;
    }
  }

  lemma LossReportKeeps(y: Sys, spans: seq<Node>)
    requires Inv(y) && forall k :: 0 <= k < |spans| ==> spans[k].lo <= spans[k].hi <= y.snd.currSeq
    ensures Inv(y.(snd := OnLoss(y.snd, spans), net := y.net + {}))
  {
    hide *;
    InvParts(y);
    OnLossOk(y.snd, y.rcv, spans);
    SenderMoves(y, OnLoss(y.snd, spans), {});
  }

  lemma OnLossOk(s: Sender, r: Receiver, spans: seq<Node>)
    requires SndOk(s) && FlowOk(s, r) && LiveOk(s, r) && SlotsOk(s, r)
    requires forall k :: 0 <= k < |spans| ==> spans[k].lo <= spans[k].hi <= s.currSeq
    ensures var s' := OnLoss(s, spans); SndOk(s') && FlowOk(s', r) && LiveOk(s', r) && SameTrail(s, s')
  {
    hide OnLoss, Frontier, Concat;
    LossKeeps(s, spans);
  }

  lemma ExpireKeeps(y: Sys)
    requires Inv(y)
    ensures Inv(Step(y, Expire))
  {
    hide Inv, SndOk, RcvOk, SlotsOk, LiveOk, FlowOk, OnExp, SameTrail;
    InvParts(y);
    ExpireOk(y.snd, y.rcv);
    SenderMoves(y, OnExp(y.snd), {});
    assert y.net + {} == y.net;
  }

  lemma ExpireOk(s: Sender, r: Receiver)
    requires SndOk(s) && FlowOk(s, r) && LiveOk(s, r)
    ensures var s' := OnExp(s); SndOk(s') && FlowOk(s', r) && LiveOk(s', r) && SameTrail(s, s')
  {
    hide Concat, Frontier;
  }

  // ----- receiver steps -----

  /** Acknowledgement records are only dropped, or added under fresh numbers. */
  ghost predicate SameRecords(r: Receiver, r': Receiver) {
    forall k :: 0 <= k < |r'.acks| ==> r'.acks[k] in r.acks || r'.acks[k].ackNo > r.ackNo
  }

  lemma ReceiverMoves(y: Sys, r': Receiver, out: set<Msg>)
    requires Inv(y) && RcvOk(r') && r'.size == y.rcv.size
    requires y.rcv.win.ackIdx <= r'.win.ackIdx && Room(y.rcv) <= Room(r') && y.rcv.ackNo <= r'.ackNo
    requires Frontier(y.rcv) <= Frontier(r') && y.rcv.currSeq <= r'.currSeq
    requires SlotsOk(y.snd, r') && StreamOk(y.snd, r') && r'.lastAckAck <= y.snd.dataAck
    requires SameRecords(y.rcv, r')
    requires forall m :: m in out ==> MsgOk(m, y.snd, r')
    ensures Inv(y.(rcv := r', net := y.net + out))
  {
    hide Unread, Concat, Frontier;
    forall m | m in y.net + out ensures MsgOk(m, y.snd, r') {
      if m in y.net { assert MsgOk(m, y.snd, y.rcv); }
    }
  }

  /** An accepted packet beyond, at, or below the current number. */
  lemma OnDataOk(r: Receiver, x: int, p: Payload)
    requires RcvOk(r) && |p| > 0
    ensures var r' := OnData(r, x, p).0;
      && RcvOk(r') && r'.size == r.size && Frontier(r) <= Frontier(r')
      && r' == r.(win := r'.win, currSeq := r'.currSeq, loss := r'.loss) && r.currSeq <= r'.currSeq
      && r'.win == r.win.(slots := r'.win.slots)
      && (r'.win.slots == r.win.slots ||
          (r'.win.slots == r.win.slots[x := p] && r.win.ackIdx <= x && x !in r.win.slots))
      && (r'.currSeq == r.currSeq || r'.currSeq == x)
  {
    var r' := OnData(r, x, p).0;
    if r'.win.slots != r.win.slots {
      assert LossIsHoles(r');
      FrontierMeans(r);
      FrontierGrows(r, r');
    }
  }

  lemma OnDataSlots(s: Sender, r: Receiver, x: int, p: Payload)
    requires RcvOk(r) && SlotsOk(s, r) && s.isn <= x <= s.currSeq && s.curr <= |s.blocks|
    requires s.curr == s.currSeq + 1 - s.isn && p == s.blocks[x - s.isn]
    ensures SlotsOk(s, OnData(r, x, p).0)
  {
    hide Unread, Concat, WindowOk, Frontier;
  }

  lemma OnDataStream(s: Sender, r: Receiver, x: int, p: Payload)
    requires StreamOk(s, r) && RcvOk(r)
    requires WindowOk(OnData(r, x, p).0.win)
    ensures StreamOk(s, OnData(r, x, p).0)
  {
    hide Concat;
    RunSame(r.win.slots, OnData(r, x, p).0.win.slots, r.win.readIdx, r.win.ackIdx);
  }

  lemma OnDataKeeps(y: Sys, x: int, p: Payload)
    requires Inv(y) && MsgOk(Data(x, p), y.snd, y.rcv)
    ensures var (r', out) := OnData(y.rcv, x, p); Inv(y.(rcv := r', net := y.net + out))
  {
    var (r', out) := OnData(y.rcv, x, p);
    hide *;
    OnDataFacts(y, x, p);
    ReceiverMoves(y, r', out);
  }

  lemma OnDataFacts(y: Sys, x: int, p: Payload)
    requires Inv(y) && MsgOk(Data(x, p), y.snd, y.rcv)
    ensures var (r', out) := OnData(y.rcv, x, p);
      && RcvOk(r') && r'.size == y.rcv.size
      && y.rcv.win.ackIdx <= r'.win.ackIdx && Room(y.rcv) <= Room(r') && y.rcv.ackNo <= r'.ackNo
      && Frontier(y.rcv) <= Frontier(r') && y.rcv.currSeq <= r'.currSeq
      && SlotsOk(y.snd, r') && StreamOk(y.snd, r') && r'.lastAckAck <= y.snd.dataAck
      && SameRecords(y.rcv, r') && forall m :: m in out ==> MsgOk(m, y.snd, r')
  {
    hide WindowOk, Frontier, StreamOk, NetOk, FlowOk, LossIsHoles, AcksOk, Range;
    InvParts(y);
    OnDataOk(y.rcv, x, p);
    OnDataSlots(y.snd, y.rcv, x, p);
    OnDataStream(y.snd, y.rcv, x, p);
    GapReport(y.snd, y.rcv, x, p);
  }

  /** The report of a gap names numbers that were sent. */
  lemma GapReport(s: Sender, r: Receiver, x: int, p: Payload)
    requires s.isn <= r.win.readIdx <= r.win.ackIdx <= r.currSeq + 1
    ensures var (r', out) := OnData(r, x, p); forall m :: m in out ==> MsgOk(m, s, r')
  {
    hide Frontier;
  }

  lemma OnAck2Ok(s: Sender, r: Receiver, no: nat, counted: bool)
    requires RcvOk(r) && Confirmed(s, r, no) && r.lastAckAck <= s.dataAck
    ensures var r' := OnAck2(r, no, counted);
      RcvOk(r') && SameRecords(r, r') && r.lastAckAck <= r'.lastAckAck <= s.dataAck
  {
    hide WindowOk, Frontier;
  }

  lemma OnAck2Keeps(y: Sys, no: nat, counted: bool)
    requires Inv(y) && Confirmed(y.snd, y.rcv, no)
    ensures Inv(y.(rcv := OnAck2(y.rcv, no, counted), net := y.net + {}))
  {
    var r' := OnAck2(y.rcv, no, counted);
    OnAck2Ok(y.snd, y.rcv, no, counted);
    assert r'.win == y.rcv.win && r'.loss == y.rcv.loss && r'.currSeq == y.rcv.currSeq;
    assert Frontier(r') == Frontier(y.rcv);
    assert SlotsOk(y.snd, r') && StreamOk(y.snd, r');
    hide Inv, RcvOk, SlotsOk, StreamOk, Frontier, MsgOk, LiveOk, SameRecords, OnAck2;
    ReceiverMoves(y, r', {});
  }

  lemma NetIs(y: Sys, m: Msg)
    requires Inv(y) && m in y.net
    ensures MsgOk(m, y.snd, y.rcv) && (m.Ack2? ==> Confirmed(y.snd, y.rcv, m.ackNo))
    ensures m.LiteAck? ==> m.ack <= Frontier(y.rcv)
    ensures m.Loss? ==> forall k :: 0 <= k < |m.spans| ==> m.spans[k].lo <= m.spans[k].hi <= y.snd.currSeq
  {
    hide SndOk, RcvOk, StreamOk, LiveOk, FlowOk, Frontier, Confirmed;
  }

  lemma ToReceiverKeeps(y: Sys, m: Msg, counted: bool)
    requires Inv(y)
    ensures Inv(Step(y, ToReceiver(m, counted)))
  {
    hide Inv, MsgOk, OnData, OnAck2;
    if m in y.net {
      NetIs(y, m);
      match m
      case Data(x, p) => OnDataKeeps(y, x, p);
      case Ack2(no) => OnAck2Keeps(y, no, counted);
      case _ => assert y.net + {} == y.net;
    }
  }

  lemma LiteKeeps(y: Sys)
    requires Inv(y)
    ensures Inv(Step(y, Lite))
  {
    hide Inv, RcvOk, StreamOk, Frontier;
    InvParts(y);
    FrontierMeans(y.rcv);
    ReceiverMoves(y, y.rcv, SendLite(y.rcv));
  }

  lemma ReportKeeps(y: Sys, spans: seq<Node>)
    requires Inv(y) && ReportOk(y.rcv, spans)
    ensures Inv(Step(y, Report(spans)))
  {
    forall k | 0 <= k < |spans| ensures y.snd.isn <= spans[k].lo && spans[k].hi <= y.rcv.currSeq {
      var nd := spans[k];
      assert nd.lo in Range(nd.lo, nd.hi) && nd.hi in Range(nd.lo, nd.hi);
      assert nd.lo in y.rcv.loss && nd.hi in y.rcv.loss;
    }
    hide Inv, RcvOk, StreamOk, Frontier;
    ReceiverMoves(y, y.rcv, {Loss(spans)});
  }

  /** Acknowledging more makes more bytes readable, behind the others. */
  lemma UnreadGrows(w: Window, ack: int)
    requires WindowOk(w) && w.ackIdx <= ack
    requires forall i :: w.readIdx <= i < ack ==> i in w.slots && |w.slots[i]| > 0
    ensures WindowOk(w.(ackIdx := ack))
    ensures Unread(w.(ackIdx := ack)) == Unread(w) + Concat(Run(w.slots, w.ackIdx, ack))
  {
    RunSplit(w.slots, w.readIdx, w.ackIdx, ack);
    NotchFits(w);
    var was, more := Concat(Run(w.slots, w.readIdx, w.ackIdx)), Concat(Run(w.slots, w.ackIdx, ack));
    hide Concat, Run;
    assert (was + more)[w.notch..] == was[w.notch..] + more;
  }

  lemma RunIsBlocks(s: Sender, r: Receiver, ack: int)
    requires RcvOk(r) && SlotsOk(s, r) && s.isn <= r.win.ackIdx <= ack <= Frontier(r)
    ensures forall i :: r.win.readIdx <= i < ack ==> i in r.win.slots && |r.win.slots[i]| > 0
    ensures 0 <= r.win.ackIdx - s.isn <= ack - s.isn && (ack > r.win.ackIdx ==> ack - s.isn <= |s.blocks|)
    ensures ack > r.win.ackIdx ==>
      Run(r.win.slots, r.win.ackIdx, ack) == s.blocks[r.win.ackIdx - s.isn..ack - s.isn]
  {
    FrontierMeans(r);
    if ack > r.win.ackIdx { assert ack - 1 in r.win.slots; }
  }

  /** Acknowledging up to the frontier turns arrived blocks into readable ones. */
  lemma AckGrowsStream(s: Sender, r: Receiver, ack: int)
    requires RcvOk(r) && SlotsOk(s, r) && StreamOk(s, r)
    requires r.win.ackIdx <= ack <= Frontier(r)
    ensures StreamOk(s, r.(win := r.win.(ackIdx := ack)))
  {
    hide Unread, Concat, Frontier, RcvOk, SlotsOk, WindowOk, Run;
    if ack > r.win.ackIdx {
      var w, m, n := r.win, r.win.ackIdx - s.isn, ack - s.isn;
      RunIsBlocks(s, r, ack);
      UnreadGrows(w, ack);
      ConcatSplit(s.blocks[..m], s.blocks[m..n]);
      assert s.blocks[..n] == s.blocks[..m] + s.blocks[m..n];
      assert (r.delivered + Unread(w)) + Concat(s.blocks[m..n]) == r.delivered + (Unread(w) + Concat(s.blocks[m..n]));
    }
  }

  lemma NotchFits(w: Window)
    requires WindowOk(w)
    ensures w.notch <= |Concat(Run(w.slots, w.readIdx, w.ackIdx))|
  {
    if w.readIdx < w.ackIdx {
      RunSplit(w.slots, w.readIdx, w.readIdx + 1, w.ackIdx);
      assert Run(w.slots, w.readIdx, w.readIdx + 1) == [w.slots[w.readIdx]];
      ConcatOne(w.slots[w.readIdx]);
    }
  }

  lemma AckedOk(r: Receiver, r': Receiver)
    requires RcvOk(r) && Frontier(r) >= r.win.ackIdx
    requires r' == r.(win := r.win.(ackIdx := Frontier(r)))
    requires WindowOk(r'.win)
    ensures RcvOk(r') && Frontier(r') == Frontier(r)
  {
    FrontierMeans(r);
  }

  /** What a full acknowledgement does to the receiver. */
  lemma SendFullOk(r: Receiver, resend: bool)
    requires RcvOk(r)
    ensures var r' := SendFull(r, resend).0;
      && (r'.win == r.win || r'.win == r.win.(ackIdx := Frontier(r)))
      && RcvOk(r') && Frontier(r') == Frontier(r)
      && r' == r.(win := r'.win, ackNo := r'.ackNo, acks := r'.acks) && r.ackNo <= r'.ackNo
  {
    hide Frontier, RcvOk, StoreAck;
    FrontierMeans(r);
    if Frontier(r) != r.lastAckAck && Frontier(r) >= r.win.ackIdx {
      AckedWindow(r);
      AckedOk(r, r.(win := r.win.(ackIdx := Frontier(r))));
      if Frontier(r) > r.lastAckAck { TellOk(r.(win := r.win.(ackIdx := Frontier(r)))); }
    }
  }

  /** The number acknowledged last joins the history. */
  lemma TellOk(r: Receiver)
    requires RcvOk(r)
    ensures var r' := r.(ackNo := r.ackNo + 1, acks := StoreAck(r.acks, AckRecord(r.ackNo + 1, r.win.ackIdx)));
      RcvOk(r') && Frontier(r') == Frontier(r)
  {
    hide WindowOk;
  }

  lemma AckedWindow(r: Receiver)
    requires RcvOk(r)
    ensures WindowOk(r.win.(ackIdx := Frontier(r)))
  {
    FrontierMeans(r);
  }

  /** Only window, delivered bytes and current number matter for the stream. */
  lemma SameView(s: Sender, r: Receiver, r': Receiver)
    requires SlotsOk(s, r) && StreamOk(s, r)
    requires r'.win == r.win && r'.delivered == r.delivered && r'.currSeq == r.currSeq && r'.size == r.size
    ensures SlotsOk(s, r') && StreamOk(s, r') && Room(r') == Room(r)
  {
    hide Unread, Concat, WindowOk;
  }

  lemma AckedView(s: Sender, r: Receiver)
    requires RcvOk(r) && SlotsOk(s, r) && StreamOk(s, r)
    ensures var r' := r.(win := r.win.(ackIdx := Frontier(r))); SlotsOk(s, r') && StreamOk(s, r') && Room(r') == Room(r)
  {
    hide Frontier, RcvOk, StreamOk;
    FrontierMeans(r);
    AckGrowsStream(s, r, Frontier(r));
  }

  lemma FullStream(s: Sender, r: Receiver, resend: bool)
    requires RcvOk(r) && SlotsOk(s, r) && StreamOk(s, r)
    ensures var r' := SendFull(r, resend).0; SlotsOk(s, r') && StreamOk(s, r') && Room(r') == Room(r)
  {
    hide *;
    var r' := SendFull(r, resend).0;
    var r1 := r.(win := r.win.(ackIdx := Frontier(r)));
    SendFullOk(r, resend);
    AckedView(s, r);
    if r'.win == r.win { SameView(s, r, r'); } else { SameView(s, r1, r'); }
  }

  lemma FullKeeps(y: Sys, resend: bool)
    requires Inv(y)
    ensures Inv(Step(y, Full(resend)))
  {
    var (r', out) := SendFull(y.rcv, resend);
    assert y.rcv.lastAckAck <= y.snd.dataAck;
    SendFullOk(y.rcv, resend);
    FrontierMeans(y.rcv);
    FullStream(y.snd, y.rcv, resend);
    FullMsgOk(y, resend);
    FullRecords(y.rcv, resend);
    assert Step(y, Full(resend)) == y.(rcv := r', net := y.net + out);
    assert y.rcv.win.ackIdx <= r'.win.ackIdx;
    hide *;
    ReceiverMoves(y, r', out);
  }

  lemma FullRecords(r: Receiver, resend: bool)
    ensures SameRecords(r, SendFull(r, resend).0)
  {
  }

  lemma FullMsgOk(y: Sys, resend: bool)
    requires Inv(y)
    ensures var (r', out) := SendFull(y.rcv, resend); forall m :: m in out ==> MsgOk(m, y.snd, r')
  {
    hide Inv, Frontier, WindowOk, LossIsHoles;
    InvParts(y);
    FrontierMeans(y.rcv);
  }

  lemma ReadOk(r: Receiver, len: nat)
    requires RcvOk(r)
    ensures RcvOk(AppRecv(r, len)) && Frontier(AppRecv(r, len)) == Frontier(r)
  {
    ReadIsQueue(r.win, len);
    hide Unread, Read;
  }

  lemma ReadKeepsSlots(s: Sender, r: Receiver, len: nat)
    requires RcvOk(r) && SlotsOk(s, r)
    ensures SlotsOk(s, AppRecv(r, len)) && Room(r) <= Room(AppRecv(r, len))
  {
    ReadIsQueue(r.win, len);
    hide Unread, Read, WindowOk;
  }

  lemma ReadKeepsStream(s: Sender, r: Receiver, len: nat)
    requires StreamOk(s, r)
    ensures StreamOk(s, AppRecv(r, len))
  {
    ReadIsQueue(r.win, len);
    var res := Read(r.win, len);
    hide Unread, Read, WindowOk, Concat;
    assert (r.delivered + res.bytes) + Unread(res.window) == r.delivered + (res.bytes + Unread(res.window));
  }

  lemma RecvKeeps(y: Sys, len: nat)
    requires Inv(y)
    ensures Inv(Step(y, Recv(len)))
  {
    hide *;
    InvParts(y);
    ReadOk(y.rcv, len);
    ReadKeepsSlots(y.snd, y.rcv, len);
    ReadKeepsStream(y.snd, y.rcv, len);
    ReadMoves(y, len);
    ReceiverMoves(y, AppRecv(y.rcv, len), {});
  }

  lemma ReadMoves(y: Sys, len: nat)
    requires RcvOk(y.rcv)
    ensures Step(y, Recv(len)) == y.(rcv := AppRecv(y.rcv, len), net := y.net + {})
    ensures var r, r' := y.rcv, AppRecv(y.rcv, len);
      && r'.size == r.size && r'.win.ackIdx == r.win.ackIdx && r'.currSeq == r.currSeq
      && r'.ackNo == r.ackNo && r'.lastAckAck == r.lastAckAck && SameRecords(r, r')
  {
    ReadIsQueue(y.rcv.win, len);
    hide Unread, Read, WindowOk, LossIsHoles, AcksOk;
  }

  // ----- runs -----

  lemma StepKeeps(y: Sys, e: Event)
    requires Inv(y)
    ensures Inv(Step(y, e))
  {
    match e
    case Send(data, mss) => if mss > 0 { SendKeeps(y, data, mss); }
    case Pack(cwnd) => PackKeeps(y, cwnd);
    case Expire => ExpireKeeps(y);
    case ToSender(m, reply) => ToSenderKeeps(y, m, reply);
    case ToReceiver(m, counted) => ToReceiverKeeps(y, m, counted);
    case Lite => LiteKeeps(y);
    case Full(resend) => FullKeeps(y, resend);
    case Report(spans) => if ReportOk(y.rcv, spans) { ReportKeeps(y, spans); }
    case Recv(len) => RecvKeeps(y, len);
    case Drop(m) =>
  }

  lemma StartOk(isn: int, size: int, window: int)
    requires size >= 2 && 1 <= window <= size
    ensures Inv(Start(isn, size, window))
  {
    var y := Start(isn, size, window);
    StartRcvOk(y.rcv, isn, size);
    StartSndOk(y.snd, y.rcv, isn, size, window);
    hide SndOk, RcvOk, SlotsOk, StreamOk, FlowOk, LiveOk;
  }

  lemma StartRcvOk(r: Receiver, isn: int, size: int)
    requires size >= 2 && r == Receiver(size, Window(map[], isn, isn, 0), isn - 1, isn, {}, 0, [], [])
    ensures RcvOk(r) && Frontier(r) == isn
  {
  }

  lemma StartSndOk(s: Sender, r: Receiver, isn: int, size: int, window: int)
    requires s == Start(isn, size, window).snd && r == Start(isn, size, window).rcv
    requires Frontier(r) == isn && size >= 2 && 1 <= window <= size
    ensures SndOk(s) && SlotsOk(s, r) && StreamOk(s, r) && FlowOk(s, r) && LiveOk(s, r)
  {
    hide Unread, Frontier, WindowOk, Run, Read;
    EmptyUnread(isn);
    assert s.blocks[..r.win.ackIdx - s.isn] == [];
  }

  lemma EmptyUnread(i: int)
    ensures WindowOk(Window(map[], i, i, 0)) && Unread(Window(map[], i, i, 0)) == []
  {
    assert Run(map[], i, i) == [];
  }

  lemma {:induction false} RunKeeps(isn: int, size: int, window: int, es: seq<Event>)
    requires size >= 2 && 1 <= window <= size
    ensures Inv(After(Start(isn, size, window), es))
  {
    if |es| == 0 {
      StartOk(isn, size, window);
    } else {
      RunKeeps(isn, size, window, es[..|es| - 1]);
      StepKeeps(After(Start(isn, size, window), es[..|es| - 1]), es[|es| - 1]);
    }
  }
}
