/** One direction of an established UDT stream connection
    (UDT4/src/core.cpp): sender, receiver and a network that may drop, reorder
    and duplicate.  Sequence numbers are unbounded indices here; Endpoints.dfy
    shows that the wrapping arithmetic of the code computes these steps. */
module Protocol {
  import opened LossNodes
  import opened ByteStream
  import opened IndexSets

  datatype Option<T> = None | Some(value: T)

  datatype Msg =
    | Data(seqno: int, payload: Payload)
    | LiteAck(ack: int)
    | FullAck(ackNo: nat, ack: int, window: int)
    | Ack2(ackNo: nat)
    | Loss(spans: seq<Node>)

  // ----- the sender -----

  datatype Sender = Sender(
    isn: int,
    window: int,                  // m_iFlowWindowSize as the handshake set it
    accepted: Payload,            // every byte taken from the application
    blocks: seq<Payload>,         // every block added to the send buffer
    first: int,                   // m_pFirstBlock: blocks released so far
    curr: int,                    // m_pCurrBlock: blocks sent for the first time so far
    dataAck: int,                 // m_iSndLastDataAck
    lastAck: int,                 // m_iSndLastAck
    currSeq: int,                 // m_iSndCurrSeqNo
    flowWindow: int,              // m_iFlowWindowSize
    loss: set<int>,               // m_pSndLossList
    pending: Option<int>,         // popped from the loss list, not yet packed
    broken: bool)                 // m_bBroken

  ghost function AppSend(s: Sender, data: Payload, mss: int): Sender
    requires mss > 0
  {
    s.(accepted := s.accepted + data, blocks := s.blocks + Chunks(data, mss))
  }

  /** packData(), first half: pop a lost number, or send a new block. */
  ghost function PackStart(s: Sender, cwnd: int): (Sender, set<Msg>) {
    if s.loss != {} then
      var x := Least(s.loss, 0);
      (s.(loss := s.loss - {x}, pending := Some(x)), {})
    else
      var w := if s.flowWindow < cwnd then s.flowWindow else cwnd;
      if w >= s.currSeq + 1 - s.lastAck + 1 && 0 <= s.curr < |s.blocks| then
        (s.(currSeq := s.currSeq + 1, curr := s.curr + 1), {Data(s.currSeq + 1, s.blocks[s.curr])})
      else (s, {})
  }

  /** packData(), second half: read the popped block, unless an
      acknowledgement has released it in between. */
  ghost function PackFinish(s: Sender): (Sender, set<Msg>)
    requires s.pending.Some?
  {
    var x := s.pending.value;
    var offset := x - s.dataAck;
    var s' := s.(pending := None);
    if offset < 0 || !(0 <= s.first + offset < |s.blocks|) then (s', {})
    else (s', {Data(x, s.blocks[s.first + offset])})
  }

  ghost function OnLiteAck(s: Sender, ack: int): Sender {
    if ack >= s.lastAck then s.(flowWindow := s.flowWindow - (ack - s.lastAck), lastAck := ack) else s
  }

  ghost function OnFullAck(s: Sender, ack: int, window: int): Sender {
    if ack > s.currSeq + 1 then s.(broken := true)
    else
      var s1 := if ack >= s.lastAck then s.(flowWindow := window, lastAck := ack) else s;
      var offset := ack - s1.dataAck;
      if offset <= 0 then s1
      else s1.(first := s1.first + offset, dataAck := ack, loss := set x | x in s1.loss && x > ack - 1)
  }

  /** The loop over a loss report. */
  ghost function OnLoss(s: Sender, spans: seq<Node>): Sender
    decreases |spans|
  {
    if |spans| == 0 then s
    else
      var nd, rest := spans[0], spans[1..];
      if nd.lo == nd.hi then
        if nd.lo < s.lastAck then OnLoss(s, rest)
        else if nd.lo > s.currSeq then s.(broken := true)
        else OnLoss(s.(loss := s.loss + Range(nd.lo, nd.lo)), rest)
      else if nd.lo > nd.hi || nd.hi > s.currSeq then s.(broken := true)
      else if nd.lo >= s.lastAck then OnLoss(s.(loss := s.loss + Range(nd.lo, nd.hi)), rest)
      else if nd.hi >= s.lastAck then OnLoss(s.(loss := s.loss + Range(s.lastAck, nd.hi)), rest)
      else OnLoss(s, rest)
  }

  /** The expiration timer: everything not acknowledged counts as lost. */
  ghost function OnExp(s: Sender): Sender {
    if s.currSeq + 1 != s.lastAck then s.(loss := s.loss + Range(s.lastAck, s.currSeq)) else s
  }

  // ----- the receiver -----

  datatype AckRecord = AckRecord(ackNo: nat, ack: int)

  datatype Receiver = Receiver(
    size: int,                    // slots of the receive buffer
    win: Window,                  // the buffer; win.ackIdx is m_iRcvLastAck
    currSeq: int,                 // m_iRcvCurrSeqNo
    lastAckAck: int,              // m_iRcvLastAckAck
    loss: set<int>,               // m_pRcvLossList
    ackNo: nat,                   // m_iAckSeqNo
    acks: seq<AckRecord>,         // m_pACKWindow, oldest first
    delivered: Payload)           // every byte handed to the application

  const ACK_WINDOW := 4096

  ghost function Avail(r: Receiver): int {
    r.size - (r.win.ackIdx - r.win.readIdx) - 1
  }

  ghost function OnData(r: Receiver, x: int, p: Payload): (Receiver, set<Msg>) {
    var offset := x - r.win.ackIdx;
    if offset < 0 || offset >= Avail(r) || x in r.win.slots then (r, {})
    else
      var r1 := r.(win := r.win.(slots := r.win.slots[x := p]));
      var gap := x > r.currSeq + 1;
      var r2 := if gap then r1.(loss := r1.loss + Range(r.currSeq + 1, x - 1)) else r1;
      var out: set<Msg> := if gap then {Loss([Node(r.currSeq + 1, x - 1)])} else {};
      if x > r.currSeq then (r2.(currSeq := x), out) else (r2.(loss := r2.loss - {x}), out)
  }

  /** The number to acknowledge: the first missing one. */
  ghost function Frontier(r: Receiver): int { Least(r.loss, r.currSeq + 1) }

  ghost function SendLite(r: Receiver): set<Msg> {
    if Frontier(r) == r.lastAckAck then {} else {LiteAck(Frontier(r))}
  }

  ghost function StoreAck(acks: seq<AckRecord>, rec: AckRecord): seq<AckRecord> {
    var a := acks + [rec];
    if |a| > ACK_WINDOW - 1 then a[1..] else a
  }

  /** A full acknowledgement; `resend` says that enough time has passed to
      repeat the last one. */
  ghost function SendFull(r: Receiver, resend: bool): (Receiver, set<Msg>) {
    var ack := Frontier(r);
    if ack == r.lastAckAck then (r, {})
    else if ack < r.win.ackIdx || (ack == r.win.ackIdx && !resend) then (r, {})
    else
      var r1 := r.(win := r.win.(ackIdx := ack));
      if ack > r.lastAckAck then
        var w := if Avail(r1) < 2 then 2 else Avail(r1);
        var no := r.ackNo + 1;
        (r1.(ackNo := no, acks := StoreAck(r.acks, AckRecord(no, ack))), {FullAck(no, ack, w)})
      else (r1, {})
  }

  /** Position of the record with this number, or the length. */
  ghost function FindAck(acks: seq<AckRecord>, no: nat): (k: nat)
    ensures k <= |acks| && (k < |acks| ==> acks[k].ackNo == no)
    ensures forall j :: 0 <= j < k ==> acks[j].ackNo != no
  {
    if |acks| == 0 then 0
    else if acks[0].ackNo == no then 0
    else
      var k := FindAck(acks[1..], no);
      assert k < |acks| - 1 ==> acks[1..][k] == acks[k + 1];
      assert forall j :: 1 <= j < k + 1 ==> acks[j] == acks[1..][j - 1];
      k + 1
  }

  /** ACK2; `counted` says that the measured round trip was positive. */
  ghost function OnAck2(r: Receiver, no: nat, counted: bool): Receiver {
    var k := FindAck(r.acks, no);
    if k == |r.acks| then r
    else
      var r1 := r.(acks := r.acks[k + 1..]);
      if counted && r.acks[k].ack > r.lastAckAck then r1.(lastAckAck := r.acks[k].ack) else r1
  }

  ghost function AppRecv(r: Receiver, len: nat): Receiver
    requires WindowOk(r.win)
  {
    var res := Read(r.win, len);
    r.(win := res.window, delivered := r.delivered + res.bytes)
  }

  // ----- the system -----

  datatype Sys = Sys(snd: Sender, rcv: Receiver, net: set<Msg>)

  /** What can happen next.  A message in `net` may be delivered any number of
      times, in any order, or be dropped. */
  datatype Event =
    | Send(data: Payload, mss: int)
    | Pack(cwnd: int)
    | Expire
    | ToSender(m: Msg, reply: bool)
    | ToReceiver(m: Msg, counted: bool)
    | Lite
    | Full(resend: bool)
    | Report(spans: seq<Node>)
    | Recv(len: nat)
    | Drop(m: Msg)

  ghost predicate ReportOk(r: Receiver, spans: seq<Node>) {
    forall k :: 0 <= k < |spans| ==> spans[k].lo <= spans[k].hi && Range(spans[k].lo, spans[k].hi) <= r.loss
  }

  ghost function SenderGets(s: Sender, m: Msg, reply: bool): (Sender, set<Msg>) {
    match m
    case LiteAck(ack) => (OnLiteAck(s, ack), {})
    case FullAck(no, ack, w) => (OnFullAck(s, ack, w), if reply then {Ack2(no)} else {})
    case Loss(spans) => (OnLoss(s, spans), {})
    case _ => (s, {})
  }

  ghost function ReceiverGets(r: Receiver, m: Msg, counted: bool): (Receiver, set<Msg>) {
    match m
    case Data(x, p) => OnData(r, x, p)
    case Ack2(no) => (OnAck2(r, no, counted), {})
    case _ => (r, {})
  }

  /** One event; an event that is not possible changes nothing. */
  ghost function Step(y: Sys, e: Event): Sys {
    match e
    case Send(data, mss) => if mss > 0 then y.(snd := AppSend(y.snd, data, mss)) else y
    case Pack(cwnd) =>
      var (s, out) := if y.snd.pending.Some? then PackFinish(y.snd) else PackStart(y.snd, cwnd);
      y.(snd := s, net := y.net + out)
    case Expire => y.(snd := OnExp(y.snd))
    case ToSender(m, reply) =>
      if m !in y.net || y.snd.broken then y else
      var (s, out) := SenderGets(y.snd, m, reply);
      y.(snd := s, net := y.net + out)
    case ToReceiver(m, counted) =>
      if m !in y.net then y else
      var (r, out) := ReceiverGets(y.rcv, m, counted);
      y.(rcv := r, net := y.net + out)
    case Lite => y.(net := y.net + SendLite(y.rcv))
    case Full(resend) =>
      var (r, out) := SendFull(y.rcv, resend);
      y.(rcv := r, net := y.net + out)
    case Report(spans) => if ReportOk(y.rcv, spans) then y.(net := y.net + {Loss(spans)}) else y
    case Recv(len) => if WindowOk(y.rcv.win) then y.(rcv := AppRecv(y.rcv, len)) else y
    case Drop(m) => y.(net := y.net - {m})
  }

  /** The state after a run of events. */
  ghost function After(y: Sys, es: seq<Event>): Sys {
    if |es| == 0 then y else Step(After(y, es[..|es| - 1]), es[|es| - 1])
  }

  /** Right after the handshake (core.cpp:558-562, 669-687): `size` slots in the
      receive buffer and the window the receiver advertised, the smaller of
      buffer and flight size (core.cpp:549, 747).  The buffer may be larger than
      the flight size: setting the latter does not look at it
      (core.cpp:243-255). */
  ghost function Start(isn: int, size: int, window: int): Sys {
    Sys(Sender(isn, window, [], [], 0, 0, isn, isn, isn - 1, window, {}, None, false),
        Receiver(size, Window(map[], isn, isn, 0), isn - 1, isn, {}, 0, [], []),
        {})
  }
}
