/** The receiving half of a connection as the code keeps it
    (UDT4/src/core.cpp): wrapped sequence numbers, the receive buffer, the
    receiver's loss list and the window of acknowledgements.  Every method
    computes the step of Protocol.Receiver with the same name. */
module ReceiverEnd {
  import opened SeqNo
  import opened LossNodes
  import opened ByteStream
  import opened Protocol
  import opened ProtocolInv
  import opened ProtocolTheorems
  import opened ProtocolSteps
  import opened SenderEnd
  import Nak
  import UnitPool
  import Reassembly
  import Messages
  import PacketHeader
  import Buf = RcvBuffer
  import Losses = RcvLossList
  import Acks = AckWindow

  /** The window's records are the protocol's, with wrapped numbers. */
  ghost predicate SameAcks(rs: seq<Acks.Record>, acks: seq<AckRecord>) {
    && |rs| == |acks|
    && forall k :: 0 <= k < |rs| ==> rs[k].seqNo == Wrap(acks[k].ackNo) && rs[k].ack == Wrap(acks[k].ack)
  }

  lemma {:induction false} SameFind(rs: seq<Acks.Record>, acks: seq<AckRecord>, no: nat)
    requires SameAcks(rs, acks) && forall k :: 0 <= k < |acks| ==> -MOD < no - acks[k].ackNo < MOD
    ensures Acks.Find(rs, Wrap(no)) == FindAck(acks, no) && |rs| == |acks|
  {
    if |rs| > 0 {
      WrapInjective(acks[0].ackNo, no);
      hide Wrap;
      SameFind(rs[1..], acks[1..], no);
    }
  }

  lemma SamePush(rs: seq<Acks.Record>, acks: seq<AckRecord>, no: nat, x: int, now: int)
    requires SameAcks(rs, acks) && |acks| < ACK_WINDOW
    ensures SameAcks(Acks.Push(rs, Acks.Record(Wrap(no), Wrap(x), now), ACK_WINDOW), StoreAck(acks, AckRecord(no, x)))
  {
    hide Wrap;
  }

  /** All numbers the receiver compares are close enough to be compared. */
  ghost predicate Close(r: Receiver) {
    RcvOk(r) && 0 <= r.win.readIdx && r.currSeq + 1 < r.lastAckAck + TH
  }

  /** The confirmed number is less than `span` behind the next one. */
  ghost predicate Behind(r: Receiver, span: int) {
    RcvOk(r) && 0 <= r.win.readIdx && r.currSeq + 1 < r.lastAckAck + span
  }

  /** There is something to acknowledge, but the comparison with the confirmed
      number says otherwise. */
  ghost predicate Mute(r: Receiver) {
    Frontier(r) > r.lastAckAck && SeqCmp(Wrap(Frontier(r)), Wrap(r.lastAckAck)) <= 0
  }

  /** Exactly when: the confirmed number is as far behind as the comparison
      reaches; at the first three distances it depends on whether the number
      space wraps in between. */
  lemma MuteExact(r: Receiver)
    requires Behind(r, MOD)
    ensures var d := Frontier(r) - r.lastAckAck;
      Mute(r) <==> d >= TH && (d >= TH + 3 || Wrap(r.lastAckAck) <= Wrap(Frontier(r)))
  {
    FrontierMeans(r);
    hide Frontier, RcvOk;
    WrapsOnce(r.lastAckAck, Frontier(r));
    hide Wrap;
  }

  lemma Hears(r: Receiver)
    requires Close(r)
    ensures Behind(r, MOD) && !Mute(r)
  {
    FrontierMeans(r);
    hide Frontier, LossIsHoles, WindowOk;
    CmpOfNear(Frontier(r), r.lastAckAck);
  }

  lemma WrapsOnce(x: int, y: int)
    requires x <= y < x + MOD
    ensures Wrap(y) == Wrap(x) + y - x || Wrap(y) == Wrap(x) + y - x - MOD
    ensures 0 <= Wrap(x) < MOD && 0 <= Wrap(y) < MOD
  {
  }

  lemma NoGap(r: Receiver, x: int)
    ensures x == r.currSeq + 1 ==> r.loss + Range(r.currSeq + 1, x - 1) == r.loss
  {
  }

  /** Where a packet can be that the buffer has room for. */
  lemma TrackBounds(r: Receiver, x: int)
    requires RcvOk(r) && 0 <= r.win.readIdx && r.win.ackIdx <= x < r.win.readIdx + r.size - 1
    ensures 0 <= x && -r.size < x - r.currSeq <= r.size && forall y :: y in r.loss ==> -r.size < y - x < r.size
    ensures x > r.currSeq ==> Fits(r.loss + Range(r.currSeq + 1, x - 1), r.size - 2)
    ensures forall y :: y in r.loss ==> y < r.currSeq + 1
  {
    assert r.currSeq in r.win.slots || r.currSeq + 1 == r.win.ackIdx;
    hide WindowOk;
  }

  lemma FrontierNear(r: Receiver)
    requires Behind(r, MOD) && r.size < TH
    ensures RcvOk(r) && r.lastAckAck <= r.win.ackIdx <= Frontier(r)
    ensures -MOD < Frontier(r) - r.lastAckAck < MOD && -MOD < Frontier(r) - r.win.ackIdx < MOD
    ensures Near(Frontier(r), r.win.ackIdx) && Near(r.win.ackIdx, Frontier(r))
    ensures Mute(r) <==> Frontier(r) > r.lastAckAck && SeqCmp(Wrap(Frontier(r)), Wrap(r.lastAckAck)) <= 0
  {
    FrontierMeans(r);
    hide Frontier, LossIsHoles, WindowOk;
  }

  /** The three cases of an arrival. */
  lemma Arrives(r: Receiver, x: int, p: Payload)
    ensures var (r', out) := OnData(r, x, p);
      if x < r.win.ackIdx || x - r.win.ackIdx >= Avail(r) || x in r.win.slots then r' == r && out == {}
      else
        && r' == r.(win := r.win.(slots := r.win.slots[x := p]), currSeq := if x > r.currSeq then x else r.currSeq,
                    loss := if x > r.currSeq then r.loss + Range(r.currSeq + 1, x - 1) else r.loss - {x})
        && out == if x > r.currSeq + 1 then {Loss([Node(r.currSeq + 1, x - 1)])} else {}
    ensures x > r.currSeq + 1 ==> |Nak.Words(Node(r.currSeq + 1, x - 1))| > 0
    ensures Avail(r) == r.size - (r.win.ackIdx - r.win.readIdx) - 1
  {
    NoGap(r, x);
  }

  /** What a full acknowledgement does. */
  lemma FullCases(r: Receiver, resend: bool)
    requires RcvOk(r)
    ensures var x, (r', out) := Frontier(r), SendFull(r, resend);
      var r1 := r.(win := r.win.(ackIdx := x));
      if x == r.lastAckAck || !(x > r.win.ackIdx || resend) then r' == r && out == {}
      else if x > r.lastAckAck then
        var no, w := r.ackNo + 1, if Avail(r1) < 2 then 2 else Avail(r1);
        r' == r1.(ackNo := no, acks := StoreAck(r.acks, AckRecord(no, x))) && out == {FullAck(no, x, w)}
      else r' == r1 && out == {}
  {
    FrontierMeans(r);
    hide Frontier, LossIsHoles, WindowOk;
  }

  lemma SameSlots(
    c: Reassembly.Cells, d: Reassembly.Cells, r: int, ackIdx: int, r': int, len: int, data: Payload, got: bool,
    a: int, b: int)
    requires Reassembly.ReadsMsg(c, r, ackIdx, d, r', len, data, got, a, b)
    ensures Buf.Payloads(d) == SlotsFrom(Buf.Payloads(c), r') && r <= r' <= ackIdx
  {
    hide Reassembly.Pending, Reassembly.Readable, Reassembly.OrderedAt;
    SamePayloads(c, d, r');
  }

  lemma SamePayloads(c: Reassembly.Cells, d: Reassembly.Cells, r: int)
    requires Reassembly.SamePackets(c, d, r)
    ensures Buf.Payloads(d) == SlotsFrom(Buf.Payloads(c), r)
  {
    var m, n := Buf.Payloads(d), SlotsFrom(Buf.Payloads(c), r);
    assert forall i :: i in m <==> i in n;
    assert forall i :: i in m ==> m[i] == n[i];
  }

  lemma RecvIs(r: Receiver, k: nat)
    requires WindowOk(r.win)
    ensures AppRecv(r, k) == r.(win := Read(r.win, k).window, delivered := AppRecv(r, k).delivered)
    ensures AppRecv(r, k).win.ackIdx == r.win.ackIdx
  {
    ReadIsQueue(r.win, k);
  }

  /** The numbers of `part` are the smallest ones of `all`. */
  ghost predicate FirstOf(part: set<int>, all: set<int>) {
    part <= all && forall x, y :: x in all && y in part && x <= y ==> x in part
  }

  lemma FirstNodes(ns: seq<Node>, k: int)
    requires Ascending(ns) && Disjoint(ns) && 0 <= k <= |ns|
    ensures FirstOf(Elems(ns[..k]), Elems(ns))
  {
    hide Elems;
    forall x, y | x in Elems(ns) && y in Elems(ns[..k]) && x <= y ensures x in Elems(ns[..k]) {
      InElems(ns, x);
      InElems(ns[..k], x);
      InElems(ns[..k], y);
      var i :| 0 <= i < |ns| && ns[i].lo <= x <= ns[i].hi;
      var j :| 0 <= j < k && ns[..k][j].lo <= y <= ns[..k][j].hi;
      assert i <= j;
      assert ns[..k][i] == ns[i];
    }
    assert ns == ns[..k] + ns[k..];
    ElemsSplit(ns[..k], ns[k..]);
  }

  lemma RangeIn(ns: seq<Node>, k: int)
    requires 0 <= k < |ns|
    ensures Range(ns[k].lo, ns[k].hi) <= Elems(ns)
  {
    forall x | x in Range(ns[k].lo, ns[k].hi) ensures x in Elems(ns) { InElems(ns, x); }
  }

  lemma SameDrop(rs: seq<Acks.Record>, acks: seq<AckRecord>, k: int)
    requires SameAcks(rs, acks) && 0 <= k < |acks|
    ensures |rs| == |acks| && SameAcks(rs[k + 1..], acks[k + 1..]) && rs[k].ack == Wrap(acks[k].ack)
  {
    hide Wrap;
  }

  /** The cases of the acknowledgement of an acknowledgement. */
  lemma Confirms(r: Receiver, no: nat)
    ensures var k := FindAck(r.acks, no); forall counted ::
      OnAck2(r, no, counted) == if k == |r.acks| then r
        else r.(acks := r.acks[k + 1..],
                lastAckAck := if counted && r.acks[k].ack > r.lastAckAck then r.acks[k].ack else r.lastAckAck)
  {
  }

  /** The numbers in the history are close to the last one given. */
  lemma NumbersNear(r: Receiver, no: nat)
    requires Close(r) && r.ackNo - MOD < no <= r.ackNo
    ensures forall k :: 0 <= k < |r.acks| ==> -MOD < no - r.acks[k].ackNo < MOD
  {
    hide LossIsHoles, WindowOk;
  }

  lemma AckNear(r: Receiver, k: int)
    requires Close(r) && 0 <= k < |r.acks|
    ensures Near(r.acks[k].ack, r.lastAckAck)
  {
    hide LossIsHoles, WindowOk;
  }

  class ReceiverEnd {
    const buffer: Buf.RcvBuffer          // m_pRcvBuffer
    const lossList: Losses.RcvLossList   // m_pRcvLossList
    const ackWindow: Acks.AckWindow      // m_pACKWindow
    var rcvCurrSeqNo: int                // m_iRcvCurrSeqNo
    var rcvLastAck: int                  // m_iRcvLastAck
    var rcvLastAckAck: int               // m_iRcvLastAckAck
    var ackSeqNo: int                    // m_iAckSeqNo
    ghost var st: Receiver

    ghost predicate Fields()
      reads this
    {
      && Shown(rcvCurrSeqNo, st.currSeq) && rcvLastAck == Wrap(st.win.ackIdx)
      && rcvLastAckAck == Wrap(st.lastAckAck) && ackSeqNo == Wrap(st.ackNo)
    }

    /** What the slots hold, message words and flags included. */
    ghost function Cells(): Reassembly.Cells
      reads buffer`readIdx, buffer.slots.units, buffer.slots.units[..]
    {
      if buffer.slots.units.Length == buffer.size > 0 then buffer.Content() else map[]
    }

    ghost predicate Holds(win: Window, size: int)
      reads buffer, buffer.queue, buffer.queue.ring, buffer.queue.members, buffer.queue.buffers
      reads buffer.slots.units, buffer.slots.units[..], set b | b in buffer.queue.buffers :: b.units
    {
      buffer.Valid() && buffer.size == size && buffer.View() == win
    }

    ghost predicate Loses(loss: set<int>, size: int)
      reads lossList, lossList.data1, lossList.data2, lossList.next, lossList.prior
    {
      lossList.Valid() && lossList.Elems() == loss && size <= lossList.size + 2 && size < TH && lossList.size < TH
    }

    ghost predicate Remembers(acks: seq<AckRecord>)
      reads ackWindow, ackWindow.seqNos, ackWindow.acks, ackWindow.times
    {
      ackWindow.Valid() && ackWindow.size == ACK_WINDOW && SameAcks(ackWindow.Contents(), acks) && |acks| < ACK_WINDOW
    }

    /** The arrays are the parts' own. */
    ghost predicate Apart() {
      && ackWindow.seqNos != lossList.data1 && ackWindow.seqNos != lossList.data2
      && ackWindow.seqNos != lossList.next && ackWindow.seqNos != lossList.prior
      && ackWindow.acks != lossList.data1 && ackWindow.acks != lossList.data2
      && ackWindow.acks != lossList.next && ackWindow.acks != lossList.prior
      && ackWindow.times != lossList.data1 && ackWindow.times != lossList.data2
      && ackWindow.times != lossList.next && ackWindow.times != lossList.prior
    }

    ghost predicate Valid()
      reads this, buffer, buffer.queue, buffer.queue.ring, buffer.queue.members, buffer.queue.buffers
      reads buffer.slots.units, buffer.slots.units[..], set b | b in buffer.queue.buffers :: b.units
      reads lossList, lossList.data1, lossList.data2, lossList.next, lossList.prior
      reads ackWindow, ackWindow.seqNos, ackWindow.acks, ackWindow.times
    {
      Apart() && Fields() && Holds(st.win, st.size) && Loses(st.loss, st.size) && Remembers(st.acks)
    }

    constructor (isn: int, size: int, flight: int, queue: UnitPool.UnitQueue)
      requires 0 <= isn <= MAX && 0 < size <= flight + 2 && 0 < flight < TH && size < TH && queue.Valid()
      modifies queue`buffers
      ensures Valid() && st == Start(isn, size, 1).rcv && buffer.queue == queue && buffer.isn == isn
      ensures Cells() == map[] && buffer.notch == 0
      ensures fresh(lossList.data1) && fresh(lossList.data2) && fresh(lossList.next) && fresh(lossList.prior)
      ensures fresh(ackWindow.seqNos) && fresh(ackWindow.acks) && fresh(ackWindow.times)
      ensures fresh(buffer) && fresh(buffer.slots.units) && fresh(lossList) && fresh(ackWindow)
    {
      hide *;
      buffer := new Buf.RcvBuffer(size, queue, isn);
      lossList := new Losses.RcvLossList(flight);
      ackWindow := new Acks.AckWindow(4096);
      rcvLastAck, rcvLastAckAck, rcvCurrSeqNo, ackSeqNo := isn, isn, isn - 1, 0;
      st := Start(isn, size, 1).rcv;
      new;
      Began(isn, size);
    }

    lemma Began(isn: int, size: int)
      requires 0 <= isn <= MAX && 0 < size <= lossList.size + 2 && size < TH && lossList.size < TH
      requires st == Start(isn, size, 1).rcv
      requires rcvLastAck == rcvLastAckAck == isn && rcvCurrSeqNo == isn - 1 && ackSeqNo == 0
      requires buffer.Valid() && buffer.size == size && buffer.Content() == map[]
      requires buffer.View() == Window(map[], isn, isn, 0)
      requires lossList.Valid() && lossList.Elems() == {} && ackWindow.Valid() && ackWindow.size == 4096
      requires ackWindow.Contents() == [] && Apart()
      ensures Valid() && Cells() == map[] && buffer.notch == 0
    {
      WrapOfSeq(isn);
      if isn > 0 { WrapOfSeq(isn - 1); }
    }

    /** What the state shows, part by part. */
    lemma Parts()
      ensures Valid() <==>
        Apart() && Holds(st.win, st.size) && Loses(st.loss, st.size) && Remembers(st.acks)
        && Shown(rcvCurrSeqNo, st.currSeq) && rcvLastAck == Wrap(st.win.ackIdx)
        && rcvLastAckAck == Wrap(st.lastAckAck) && ackSeqNo == Wrap(st.ackNo)
    {
    }

    lemma ApartIs()
      ensures Apart() ==>
        {lossList.data1, lossList.data2, lossList.next, lossList.prior} !!
          {ackWindow.seqNos, ackWindow.acks, ackWindow.times}
    {
    }

    /** The number to acknowledge. */
    method GetFrontier() returns (ack: int)
      requires Valid() && RcvOk(st)
      ensures ack == Wrap(Frontier(st))
    {
      hide Wrap, Holds, RcvOk, Apart, Remembers, Losses.RcvLossList.Valid, Losses.RcvLossList.Elems;
      ShownNext(rcvCurrSeqNo, st.currSeq);
      var n := lossList.GetLossLength();
      if 0 == n {
        ack := IncSeq(rcvCurrSeqNo);
      } else {
        ghost var s;
        ack, s := lossList.GetFirstLostSeq();
        LeastIs(st.loss, s, st.currSeq + 1);
      }
    }

    /** A light acknowledgement, unless the peer has confirmed it already. */
    method SendLite() returns (sent: bool, ack: int, ghost x: int)
      requires Valid() && Behind(st, MOD)
      ensures Protocol.SendLite(st) == if sent then {LiteAck(x)} else {}
      ensures sent <==> Arrived(st, st.lastAckAck)
      ensures ack == Wrap(x) && FirstMissing(st, x)
    {
      hide Wrap, Holds, Loses, Remembers, Frontier, LossIsHoles, WindowOk, AcksOk;
      ack := GetFrontier();
      x := Frontier(st);
      FrontierIs(st);
      FrontierMeans(st);
      WrapInjective(Frontier(st), st.lastAckAck);
      sent := ack != rcvLastAckAck;
    }

    /** recv(): the first bytes of what is readable. */
    method AppRecv(len: nat) returns (data: Payload)
      requires Valid()
      modifies this`st, buffer`startPos, buffer`notch, buffer`readIdx, buffer.slots.units
      modifies Buf.UnitsIn(buffer.slots.units[..]), buffer.queue`count
      ensures Valid() && old(WindowOk(st.win)) && st == Protocol.AppRecv(old(st), len)
      ensures st.delivered == old(st).delivered + data
    {
      hide Wrap, Loses, Remembers, Buf.RcvBuffer.Valid, Buf.RcvBuffer.View, Read;
      buffer.ViewOk();
      data := buffer.ReadBuffer(len);
      ReadIsQueue(st.win, len);
      assert Read(st.win, len).window.ackIdx == st.win.ackIdx;
      st := Protocol.AppRecv(st, len);
    }

    /** recvmsg(): a whole message, or nothing.  To the stream it is as if the
        bytes of all slots given up had been read. */
    method RecvMsg(len: int, ghost ps: seq<Messages.Packet>)
      returns (data: Payload, ghost got: bool, ghost a: int, ghost b: int, ghost k: nat)
      requires Valid() && buffer.slots.units.Length == buffer.size > 0 && buffer.MsgOk(ps)
      requires forall i :: i in st.win.slots ==> |st.win.slots[i]| > 0
      modifies this`st, buffer`startPos, buffer`readIdx, buffer.slots.units
      modifies Buf.UnitsIn(buffer.slots.units[..]), buffer.queue`count
      ensures Valid() && WindowOk(old(st.win)) && st == Protocol.AppRecv(old(st), k)
      ensures st.win.ackIdx == old(st.win.ackIdx)
      ensures buffer.slots.units.Length == buffer.size > 0 && buffer.MsgOk(ps)
      ensures Reassembly.ReadsMsg(
        old(Cells()), old(st.win.readIdx), st.win.ackIdx, Cells(), st.win.readIdx, len, data, got, a, b)
    {
      hide *;
      Parts();
      Views();
      ghost var was, c, r := st, Cells(), buffer.readIdx;
      buffer.MsgDef(ps);
      buffer.ViewOk();
      buffer.ViewIs();
      data, got, a, b := buffer.ReadMsg(len, ps);
      buffer.MsgDef(ps);
      buffer.ViewOk();
      buffer.ViewIs();
      SameSlots(c, buffer.Content(), r, buffer.ackIdx, buffer.readIdx, len, data, got, a, b);
      k := ReadSlots(was.win, buffer.readIdx);
      ReadIsQueue(was.win, k);
      st := Protocol.AppRecv(st, k);
      RecvIs(was, k);
      Views();
      Parts();
    }

    lemma Sized()
      requires Valid()
      ensures buffer.slots.units.Length == buffer.size > 0 && buffer.readIdx == st.win.readIdx
    {
      hide Wrap, Loses, Remembers, Buf.RcvBuffer.Valid;
      buffer.ViewOk();
    }

    lemma CellsAre()
      requires buffer.slots.units.Length == buffer.size > 0
      ensures Cells() == buffer.Content()
    {
    }

    lemma Views()
      ensures Holds(st.win, st.size) <==> buffer.Valid() && buffer.size == st.size && buffer.View() == st.win
      ensures buffer.slots.units.Length == buffer.size > 0 ==> Cells() == buffer.Content()
    {
    }

    /** ACK2: the record it names, if still there, advances the number the peer
        has confirmed; `rtt` is positive unless the clock did not move. */
    method OnAck2(no: int, now: int, ghost x: nat) returns (rtt: int)
      requires Valid() && Close(st) && no == Wrap(x) && st.ackNo - MOD < x <= st.ackNo
      modifies this`st, this`rcvLastAckAck, ackWindow`head, ackWindow`tail, ackWindow.seqNos
      ensures Valid() && st == Protocol.OnAck2(old(st), x, rtt > 0)
      ensures var rs := old(ackWindow.Contents()); var k := Acks.Find(rs, no);
        rtt == if k < |rs| then now - rs[k].time else -1
    {
      hide *;
      Parts();
      ApartIs();
      Records();
      ghost var was := st;
      NumbersNear(st, x);
      SameFind(ackWindow.Contents(), st.acks, x);
      Confirms(st, x);
      ghost var k := FindAck(st.acks, x);
      var ack;
      rtt, ack := ackWindow.Acknowledge(no, now);
      if k < |st.acks| {
        AckNear(st, k);
        CmpOfNear(st.acks[k].ack, st.lastAckAck);
        SameDrop(old(ackWindow.Contents()), st.acks, k);
      }
      st := Protocol.OnAck2(st, x, rtt > 0);
      Records();
      if rtt <= 0 {
        Parts();
        return;
      }
      if SeqCmp(ack, rcvLastAckAck) > 0 {
        rcvLastAckAck := ack;
      }
      Parts();
    }

    lemma Records()
      ensures Remembers(st.acks) <==>
        && ackWindow.Valid() && ackWindow.size == ACK_WINDOW
        && SameAcks(ackWindow.Contents(), st.acks) && |st.acks| < ACK_WINDOW
    {
    }

    /** The periodic report of lost numbers: intervals from the smallest on. */
    method SendNak(limit: nat, recent: bool) returns (words: seq<int>, ghost spans: seq<Node>)
      requires Valid()
      ensures Valid() && words == Nak.Encode(spans) && ReportOk(st, spans)
      ensures |words| <= limit && FirstOf(Elems(spans), st.loss)
      ensures !recent && |words| < limit - 1 ==> Elems(spans) == st.loss
    {
      hide Wrap, Holds, Remembers, Losses.RcvLossList.Valid;
      var data := new int[limit](_ => 0);
      var len;
      ghost var k;
      len, k := lossList.GetLossArray(data, limit, recent);
      words, spans := data[..len], lossList.nodes[..k];
      ReportsOk(k);
      if k == |lossList.nodes| { assert spans == lossList.nodes; }
    }

    lemma ReportsOk(k: int)
      requires lossList.Valid() && lossList.Elems() == st.loss && 0 <= k <= |lossList.nodes|
      ensures ReportOk(st, lossList.nodes[..k]) && FirstOf(Elems(lossList.nodes[..k]), st.loss)
    {
      var ns := lossList.nodes;
      assert Ascending(ns);
      FirstNodes(ns, k);
      forall j | 0 <= j < k ensures ns[j].lo <= ns[j].hi && Range(ns[j].lo, ns[j].hi) <= Elems(ns) { RangeIn(ns, j); }
    }

    /** The slot of the packet's number takes its unit, if it is empty. */
    method StoreUnit(u: UnitPool.Unit, offset: int) returns (r: int)
      requires Holds(st.win, st.size) && u in buffer.queue.members && u.flag == 0
      requires 0 <= offset < Avail(st)
      modifies buffer`maxPos, buffer.slots.units, u`flag, u`owner, u`at, buffer.queue`count
      ensures r == if st.win.ackIdx + offset in st.win.slots then -1 else 0
      ensures r == -1 ==> Holds(st.win, st.size) && Cells() == old(Cells())
      ensures r == 0 ==> Cells() == old(Cells())[st.win.ackIdx + offset := Reassembly.Held(u.payload, u.word, 1)]
      ensures r == 0 ==> st.win.ackIdx + offset !in old(Cells())
      ensures r == 0 ==> Holds(st.win.(slots := st.win.slots[st.win.ackIdx + offset := u.payload]), st.size)
    {
      hide Buf.RcvBuffer.Valid, Buf.RcvBuffer.Content, Buf.RcvBuffer.View, Buf.Payloads;
      buffer.ViewOk();
      buffer.ViewIs();
      ghost var c, h := buffer.Content(), Reassembly.Held(u.payload, u.word, 1);
      Buf.PayloadsPut(c, buffer.ackIdx + offset, h);
      r := buffer.AddData(u, offset);
      buffer.ViewOk();
      buffer.ViewIs();
    }

    /** Gaps before the packet are recorded and reported; a gap that it fills
        is closed. */
    method Track(seqno: int, ghost x: int) returns (nak: seq<int>)
      requires Loses(st.loss, st.size) && Shown(rcvCurrSeqNo, st.currSeq) && RcvOk(st) && 0 <= st.win.readIdx
      requires seqno == Wrap(x) && st.win.ackIdx <= x < st.win.readIdx + st.size - 1
      modifies this`rcvCurrSeqNo, lossList, lossList.data1, lossList.data2, lossList.next, lossList.prior
      ensures Shown(rcvCurrSeqNo, if x > st.currSeq then x else st.currSeq)
      ensures Loses(if x > st.currSeq then st.loss + Range(st.currSeq + 1, x - 1) else st.loss - {x}, st.size)
      ensures nak == if x > st.currSeq + 1 then Nak.Words(Node(st.currSeq + 1, x - 1)) else []
    {
      hide Wrap, RcvOk, Losses.RcvLossList.Valid, Losses.RcvLossList.Elems;
      nak := [];
      ghost var y := st.currSeq + 1;
      TrackBounds(st, x);
      ShownNext(rcvCurrSeqNo, st.currSeq);
      WrapStep(x);
      CmpOfNear(x, y);
      ShownCmp(x, rcvCurrSeqNo, st.currSeq);
      WrapInjective(y, x - 1);
      NoGap(st, x);
      if SeqCmp(seqno, IncSeq(rcvCurrSeqNo)) > 0 {
        var first, last := IncSeq(rcvCurrSeqNo), DecSeq(seqno);
        lossList.Insert(first, last, y, x - 1);
        nak := if first == last then [last] else [first + MOD, last];
      }
      if SeqCmp(seqno, rcvCurrSeqNo) > 0 {
        rcvCurrSeqNo := seqno;
      } else {
        var found := lossList.Remove(seqno, x);
      }
    }

    lemma UnitsAreMembers()
      requires Valid()
      ensures Buf.UnitsIn(buffer.slots.units[..]) <= buffer.queue.members
    {
      hide Wrap, Loses, Remembers, Buf.RcvBuffer.Valid, Buf.UnitsIn;
      buffer.MineAreMembers();
    }

    /** A unit of the pool for the next packet, if one is found. */
    method GetUnit() returns (u: UnitPool.Unit?)
      requires Valid()
      modifies buffer.queue, buffer.queue.ring
      ensures Valid() && Cells() == old(Cells())
      ensures u != null ==> u in buffer.queue.members && u.flag == 0
      ensures u == null <==> old(buffer.queue.Dry())
      ensures var q := buffer.queue;
        && old(q.members) <= q.members && fresh(q.members - old(q.members))
        && fresh(set e | e in q.ring && e !in old(q.ring)) && q.buffers == old(q.buffers)
    {
      hide Wrap, Loses, Remembers, Buf.RcvBuffer.Valid, Buf.RcvBuffer.Content, Buf.Payloads, UnitPool.UnitQueue.Dry;
      buffer.ViewOk();
      buffer.ViewIs();
      u := buffer.GetUnit();
      buffer.ViewOk();
      buffer.ViewIs();
    }

    /** A packet is received into a free unit. */
    method Load(u: UnitPool.Unit, payload: Payload, word: PacketHeader.Word)
      requires Valid() && u in buffer.queue.members && u.flag == 0
      modifies u`payload, u`word
      ensures Valid() && Cells() == old(Cells()) && u.payload == payload && u.word == word
    {
      hide Wrap, Loses, Remembers, Buf.RcvBuffer.Valid, Buf.RcvBuffer.Content, Buf.Payloads;
      buffer.ViewOk();
      buffer.ViewIs();
      buffer.Load(u, payload, word);
      buffer.ViewOk();
      buffer.ViewIs();
    }

    /** A data packet, from its arrival to the report of the gap before it. */
    method OnData(u: UnitPool.Unit, seqno: int, ghost x: int) returns (r: int, nak: seq<int>)
      requires Valid() && RcvOk(st) && 0 <= st.win.readIdx
      requires seqno == Wrap(x) && Near(st.win.ackIdx, x) && u in buffer.queue.members && u.flag == 0
      modifies this`st, this`rcvCurrSeqNo, buffer`maxPos, buffer.slots.units, u`flag, u`owner, u`at, buffer.queue`count
      modifies lossList, lossList.data1, lossList.data2, lossList.next, lossList.prior
      ensures Valid() && st == Protocol.OnData(old(st), x, u.payload).0
      ensures nak == [] ==> Protocol.OnData(old(st), x, u.payload).1 == {}
      ensures nak != [] ==> nak == Nak.Words(Node(old(st).currSeq + 1, x - 1))
      ensures nak != [] ==> Protocol.OnData(old(st), x, u.payload).1 == {Loss([Node(old(st).currSeq + 1, x - 1)])}
      ensures r == 0 || r == -1
      ensures r == -1 ==> st == old(st) && nak == [] && Cells() == old(Cells())
      ensures r == 0 ==> 0 <= x - old(st).win.ackIdx < Avail(old(st)) && x !in old(st).win.slots
      ensures r == 0 ==> st.win == old(st).win.(slots := old(st).win.slots[x := u.payload])
      ensures r == 0 ==> x !in old(Cells()) && Cells() == old(Cells())[x := Reassembly.Held(u.payload, u.word, 1)]
    {
      hide *;
      r, nak := -1, [];
      Parts();
      Arrives(st, x, u.payload);
      OffOfNear(st.win.ackIdx, x);
      var offset := SeqOff(rcvLastAck, seqno);
      var avail := GetAvail();
      if offset < 0 || offset >= avail {
        return;
      }
      r, nak := Accept(u, offset, seqno, x);
    }

    /** The packet is within the buffer. */
    method Accept(u: UnitPool.Unit, offset: int, seqno: int, ghost x: int) returns (r: int, nak: seq<int>)
      requires Valid() && RcvOk(st) && 0 <= st.win.readIdx && seqno == Wrap(x)
      requires offset == x - st.win.ackIdx && 0 <= offset < Avail(st)
      requires u in buffer.queue.members && u.flag == 0
      modifies this`st, this`rcvCurrSeqNo, buffer`maxPos, buffer.slots.units, u`flag, u`owner, u`at, buffer.queue`count
      modifies lossList, lossList.data1, lossList.data2, lossList.next, lossList.prior
      ensures Valid() && st == Protocol.OnData(old(st), x, u.payload).0
      ensures nak == if r == 0 && x > old(st).currSeq + 1 then Nak.Words(Node(old(st).currSeq + 1, x - 1)) else []
      ensures r == if x in old(st).win.slots then -1 else 0
      ensures r == -1 ==> st == old(st) && Cells() == old(Cells())
      ensures r == 0 ==> st.win == old(st).win.(slots := old(st).win.slots[x := u.payload])
      ensures r == 0 ==> x !in old(Cells()) && Cells() == old(Cells())[x := Reassembly.Held(u.payload, u.word, 1)]
    {
      hide *;
      Parts();
      Arrives(st, x, u.payload);
      nak := [];
      r := StoreUnit(u, offset);
      if r < 0 {
        Parts();
        return;
      }
      nak := Stored(seqno, x, u.payload);
    }

    /** What follows once the packet is in its slot. */
    method Stored(seqno: int, ghost x: int, ghost p: Payload) returns (nak: seq<int>)
      requires Apart() && Loses(st.loss, st.size) && Remembers(st.acks)
      requires Holds(st.win.(slots := st.win.slots[x := p]), st.size)
      requires Shown(rcvCurrSeqNo, st.currSeq) && rcvLastAck == Wrap(st.win.ackIdx)
      requires rcvLastAckAck == Wrap(st.lastAckAck) && ackSeqNo == Wrap(st.ackNo)
      requires RcvOk(st) && 0 <= st.win.readIdx && seqno == Wrap(x)
      requires 0 <= x - st.win.ackIdx < Avail(st) && x !in st.win.slots
      modifies this`st, this`rcvCurrSeqNo, lossList, lossList.data1, lossList.data2, lossList.next, lossList.prior
      ensures Valid() && st == Protocol.OnData(old(st), x, p).0
      ensures st.win == old(st).win.(slots := old(st).win.slots[x := p])
      ensures nak == if x > old(st).currSeq + 1 then Nak.Words(Node(old(st).currSeq + 1, x - 1)) else []
    {
      hide *;
      ApartIs();
      Arrives(st, x, p);
      nak := Track(seqno, x);
      st := Protocol.OnData(st, x, p).0;
      Parts();
    }

    method GetAvail() returns (n: int)
      requires Holds(st.win, st.size)
      ensures n == Avail(st)
    {
      hide Buf.RcvBuffer.Valid;
      buffer.ViewOk();
      n := buffer.GetAvailBufSize();
    }

    lemma Small()
      requires Valid()
      ensures st.size < TH
    {
    }

    /** A full acknowledgement: newly complete slots become readable, and unless
        the peer has confirmed them, it is told and the number remembered. */
    method SendFull(resend: bool, now: int) returns (sent: bool, ackNo: int, ack: int, window: int)
      requires Valid() && Behind(st, MOD)
      modifies this`st, this`rcvLastAck, this`ackSeqNo, buffer`lastAckPos, buffer`maxPos, buffer`ackIdx
      modifies ackWindow`head, ackWindow`tail, ackWindow.seqNos, ackWindow.acks, ackWindow.times
      ensures Valid() && (!Mute(old(st)) ==> st == Protocol.SendFull(old(st), resend).0)
      ensures !sent && !Mute(old(st)) ==> Protocol.SendFull(old(st), resend).1 == {}
      ensures Mute(old(st)) ==> !sent && st == old(st).(win := old(st).win.(ackIdx := Frontier(old(st))))
      ensures sent ==> Protocol.SendFull(old(st), resend).1 == {FullAck(old(st).ackNo + 1, Frontier(old(st)), window)}
      ensures sent ==> ackNo == Wrap(old(st).ackNo + 1) && ack == Wrap(Frontier(old(st)))
      ensures FirstMissing(old(st), st.win.ackIdx) && (sent ==> ack == Wrap(st.win.ackIdx))
      ensures !Mute(old(st)) ==>
        (sent <==> Arrived(old(st), old(st).lastAckAck) && (Arrived(old(st), old(st).win.ackIdx) || resend))
      ensures sent ==> window == Larger(2, old(st).win.readIdx + old(st).size - 1 - st.win.ackIdx)
      ensures Cells() == old(Cells())
      ensures var rs := old(ackWindow.Contents());
        ackWindow.Contents() == if sent then Acks.Push(rs, Acks.Record(ackNo, ack, now), 4096) else rs
    {
      hide *;
      sent, ackNo, window := false, 0, 0;
      ghost var was, x := st, Frontier(st);
      Parts();
      Small();
      FrontierNear(st);
      FullCases(st, resend);
      FullIs(st, resend);
      FrontierIs(st);
      ack := GetFrontier();
      WrapInjective(x, st.lastAckAck);
      if ack == rcvLastAckAck {
        return;
      }
      var go := Advance(ack, resend);
      if !go {
        return;
      }
      Parts();
      if SeqCmp(rcvLastAck, rcvLastAckAck) > 0 {
        sent := true;
        ackNo, window := Tell(now);
      }
    }

    /** The numbers below `ack` become readable; without any, only a repetition
        is left to do. */
    method Advance(ack: int, resend: bool) returns (go: bool)
      requires Valid() && Behind(st, MOD) && ack == Wrap(Frontier(st))
      modifies this`st, this`rcvLastAck, buffer`lastAckPos, buffer`maxPos, buffer`ackIdx
      ensures Valid() && go == (Frontier(old(st)) > old(st).win.ackIdx || resend)
      ensures st == old(st).(win := old(st).win.(ackIdx := Frontier(old(st)))) && Cells() == old(Cells())
    {
      hide *;
      ghost var x := Frontier(st);
      Parts();
      Small();
      FrontierNear(st);
      WrapInjective(x, st.win.ackIdx);
      CmpOfNear(x, st.win.ackIdx);
      OffOfNear(st.win.ackIdx, x);
      go := true;
      if SeqCmp(ack, rcvLastAck) > 0 {
        var acksize := SeqOff(rcvLastAck, ack);
        rcvLastAck := ack;
        Acknowledge(acksize);
      } else if ack == rcvLastAck {
        if !resend {
          go := false;
        }
      } else {
        go := false;
      }
      st := st.(win := st.win.(ackIdx := x));
      Parts();
    }

    /** The acknowledgement gets its number and is remembered. */
    method Tell(now: int) returns (ackNo: int, window: int)
      requires Valid()
      modifies this`st, this`ackSeqNo
      modifies ackWindow`head, ackWindow`tail, ackWindow.seqNos, ackWindow.acks, ackWindow.times
      ensures Valid() && ackNo == Wrap(old(st).ackNo + 1) && window == if Avail(old(st)) < 2 then 2 else Avail(old(st))
      ensures st == old(st).(ackNo := old(st).ackNo + 1,
                             acks := StoreAck(old(st).acks, AckRecord(old(st).ackNo + 1, old(st).win.ackIdx)))
      ensures ackWindow.Contents() == Acks.Push(old(ackWindow.Contents()), Acks.Record(ackNo, rcvLastAck, now), 4096)
    {
      hide *;
      Parts();
      ApartIs();
      WrapStep(st.ackNo);
      ackSeqNo := IncSeq(ackSeqNo);
      window := GetAvail();
      if window < 2 {
        window := 2;
      }
      Remember(now);
      ackNo := ackSeqNo;
      st := st.(ackNo := st.ackNo + 1, acks := StoreAck(st.acks, AckRecord(st.ackNo + 1, st.win.ackIdx)));
      Parts();
    }

    method Acknowledge(n: int)
      requires Holds(st.win, st.size) && RcvOk(st) && n == Frontier(st) - st.win.ackIdx
      modifies buffer`lastAckPos, buffer`maxPos, buffer`ackIdx
      ensures Holds(st.win.(ackIdx := Frontier(st)), st.size) && Cells() == old(Cells())
    {
      hide Buf.RcvBuffer.Valid, Buf.RcvBuffer.View, Buf.RcvBuffer.Content, Frontier, WindowOk, LossIsHoles;
      buffer.ViewOk();
      buffer.ViewIs();
      FrontierMeans(st);
      forall i | buffer.ackIdx <= i < buffer.ackIdx + n ensures i in buffer.Content() { assert i in st.win.slots; }
      buffer.AckData(n);
      buffer.ViewOk();
    }

    method Remember(now: int)
      requires Remembers(st.acks) && Apart() && rcvLastAck == Wrap(st.win.ackIdx) && ackSeqNo == Wrap(st.ackNo + 1)
      modifies ackWindow`head, ackWindow`tail, ackWindow.seqNos, ackWindow.acks, ackWindow.times
      ensures Remembers(StoreAck(st.acks, AckRecord(st.ackNo + 1, st.win.ackIdx)))
      ensures ackWindow.Contents() == Acks.Push(old(ackWindow.Contents()), Acks.Record(ackSeqNo, rcvLastAck, now), 4096)
    {
      hide Wrap, Acks.AckWindow.Valid, Acks.AckWindow.Contents;
      SamePush(ackWindow.Contents(), st.acks, st.ackNo + 1, st.win.ackIdx, now);
      ackWindow.Store(ackSeqNo, rcvLastAck, now);
    }
  }
}
