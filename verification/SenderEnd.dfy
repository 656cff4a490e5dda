/** The sending half of a connection as the code keeps it (UDT4/src/core.cpp):
    wrapped sequence numbers, the send buffer and the sender's loss list.
    Every method computes the step of Protocol.Sender with the same name. */
module SenderEnd {
  import opened Arith
  import opened SeqNo
  import opened LossNodes
  import opened ByteStream
  import opened IndexSets
  import opened Messages
  import opened Protocol
  import opened ProtocolInv
  import opened ProtocolSteps
  import Nak
  import Buf = SndBuffer
  import Losses = SndLossList

  /** The field that holds the current number: with an initial number of 0 it
      starts at -1, which no other number is (core.cpp:558-561, 675). */
  ghost predicate Shown(field: int, idx: int) {
    field == Wrap(idx) || (idx == -1 && field == -1)
  }

  lemma ShownNext(field: int, idx: int)
    requires Shown(field, idx)
    ensures IncSeq(field) == Wrap(idx + 1)
  {
    WrapStep(idx);
  }

  lemma ShownCmp(x: int, field: int, idx: int)
    requires Shown(field, idx) && Near(x, idx) && 0 <= x
    ensures SameSign(SeqCmp(Wrap(x), field), x - idx)
  {
    CmpOfNear(x, idx);
  }

  /** What the runs of Protocol keep of a sender, and how far apart its numbers are. */
  ghost predicate Ready(s: Sender, span: int) {
    SndOk(s) && 0 <= s.isn && s.currSeq + 1 <= s.dataAck + span
  }

  /** `x` can be told apart from the numbers the sender knows. */
  ghost predicate InReach(s: Sender, x: int) {
    s.isn <= x && s.currSeq + 1 - TH < x < s.dataAck + TH - 1
  }

  /** Both ends of a reported interval can be told apart from the sender's numbers. */
  ghost predicate Told(s: Sender, nd: Node) {
    InReach(s, nd.lo) && InReach(s, nd.hi) && Near(nd.lo, nd.hi)
  }

  /** The sender accepts the interval. */
  ghost predicate Secure(s: Sender, nd: Node) {
    if nd.lo == nd.hi then nd.lo < s.lastAck || nd.lo <= s.currSeq else nd.lo <= nd.hi <= s.currSeq
  }

  /** What an accepted interval adds: its numbers from the last acknowledgement on. */
  ghost function WithSpan(s: Sender, nd: Node): Sender {
    s.(loss := s.loss + Range(if nd.lo < s.lastAck then s.lastAck else nd.lo, nd.hi))
  }

  lemma OnLossStep(s: Sender, spans: seq<Node>)
    requires |spans| > 0
    ensures OnLoss(s, spans) ==
      if Secure(s, spans[0]) then OnLoss(WithSpan(s, spans[0]), spans[1..]) else s.(broken := true)
  {
    if spans[0].hi < s.lastAck { OldSpan(s, spans[0]); }
  }

  /** An interval acknowledged already adds nothing. */
  lemma OldSpan(s: Sender, nd: Node)
    requires nd.hi < s.lastAck
    ensures WithSpan(s, nd) == s
  {
    assert Range(if nd.lo < s.lastAck then s.lastAck else nd.lo, nd.hi) == {};
    assert WithSpan(s, nd).loss == s.loss;
  }

  /** How many intervals the loop over a report gets through: all up to the
      first one it refuses. */
  ghost function Accepts(s: Sender, spans: seq<Node>): (k: nat)
    ensures k <= |spans| && (k < |spans| ==> !Secure(s, spans[k]))
    ensures forall j :: 0 <= j < k ==> Secure(s, spans[j])
  {
    if |spans| == 0 || !Secure(s, spans[0]) then 0 else 1 + Accepts(s, spans[1..])
  }

  /** What the report names of the numbers that are not acknowledged. */
  ghost function Named(s: Sender, spans: seq<Node>): set<int> {
    set x | x in Elems(spans) && x >= s.lastAck
  }

  lemma NamedIs(s: Sender, spans: seq<Node>)
    ensures forall x :: x in Named(s, spans) <==> x in Elems(spans) && s.lastAck <= x
  {
  }

  /** The loss list gains what the intervals before the first refused one name,
      and the connection breaks if and only if one is refused. */
  lemma {:induction false} ReportAdds(s: Sender, spans: seq<Node>)
    ensures var k := Accepts(s, spans);
      OnLoss(s, spans) == s.(loss := s.loss + Named(s, spans[..k]), broken := s.broken || k < |spans|)
    decreases |spans|
  {
    if |spans| > 0 {
      OnLossStep(s, spans);
      if Secure(s, spans[0]) {
        var t, rest := WithSpan(s, spans[0]), spans[1..];
        SameAccepts(s, t, rest);
        ReportAdds(t, rest);
        NamedFront(s, spans, Accepts(s, spans));
      }
    }
    hide Secure;
    assert Named(s, []) == {} && s.loss + {} == s.loss;
  }

  /** An interval is refused if it runs backwards or beyond what was sent. */
  lemma AcceptsMeans(s: Sender, spans: seq<Node>)
    requires s.lastAck <= s.currSeq + 1
    ensures var k := Accepts(s, spans);
      && (forall j :: 0 <= j < k ==> spans[j].lo <= spans[j].hi <= s.currSeq)
      && (k < |spans| ==> spans[k].lo > spans[k].hi || spans[k].hi > s.currSeq)
  {
  }

  lemma {:induction false} SameAccepts(s: Sender, t: Sender, spans: seq<Node>)
    requires s.lastAck == t.lastAck && s.currSeq == t.currSeq
    ensures Accepts(s, spans) == Accepts(t, spans)
    decreases |spans|
  {
    if |spans| > 0 { SameAccepts(s, t, spans[1..]); }
  }

  lemma NamedFront(s: Sender, spans: seq<Node>, k: nat)
    requires 0 < k <= |spans|
    ensures s.loss + Named(s, spans[..k]) ==
      WithSpan(s, spans[0]).loss + Named(WithSpan(s, spans[0]), spans[1..][..k - 1])
  {
    assert spans[..k][1..] == spans[1..][..k - 1];
  }

  lemma ToldStays(s: Sender, nd: Node, other: Node)
    requires Told(s, other)
    ensures Told(WithSpan(s, nd), other)
  {
  }

  /** The words at place i code interval k. */
  lemma SpanWords(words: seq<int>, i: int, spans: seq<Node>, k: int)
    requires 0 <= i < |words| && 0 <= k <= |spans| && words[i..] == Nak.Encode(spans[k..])
    ensures k < |spans|
    ensures var nd, n := spans[k], if spans[k].lo == spans[k].hi then 1 else 2;
      i + n <= |words| && words[i + n..] == Nak.Encode(spans[k + 1..])
    ensures if spans[k].lo == spans[k].hi then words[i] == Wrap(spans[k].lo)
      else words[i] == Wrap(spans[k].lo) + MOD && words[i + 1] == Wrap(spans[k].hi)
  {
    if k < |spans| {
      assert spans[k..] == [spans[k]] + spans[k + 1..];
      Nak.EncodeFront(spans[k], spans[k + 1..]);
      hide Nak.Encode;
      var w := Nak.Words(spans[k]);
      TailOf(words, i, w, Nak.Encode(spans[k + 1..]));
      assert words[i] == words[i..i + |w|][0] && (|w| == 2 ==> words[i + 1] == words[i..i + |w|][1]);
    }
  }

  lemma NoWords(ns: seq<Node>)
    ensures Nak.Encode(ns) == [] ==> ns == []
  {
  }

  lemma TailOf(words: seq<int>, i: int, w: seq<int>, e: seq<int>)
    requires 0 <= i <= |words| && words[i..] == w + e
    ensures i + |w| <= |words| && words[i..i + |w|] == w && words[i + |w|..] == e
  {
    assert |words[i..]| == |words| - i;
    assert words[i..i + |w|] == words[i..][..|w|] && words[i + |w|..] == words[i..][|w|..];
  }

  /** Both halves of packData(), as they follow each other. */
  ghost function PackBoth(s: Sender, congestion: int): (Sender, set<Msg>) {
    if s.pending.Some? then PackFinish(s) else PackStart(s, congestion)
  }

  lemma BothIs(s: Sender, congestion: int)
    ensures PackBoth(s, congestion) == if s.pending.Some? then PackFinish(s) else PackStart(s, congestion)
    ensures PackBoth(s, congestion).0.isn == s.isn
    ensures s.pending.None? && PackStart(s, congestion).1 != {} ==> PackStart(s, congestion).0.currSeq == s.currSeq + 1
  {
  }

  lemma CursorOk(s: Sender)
    ensures SndOk(s) ==> 0 <= s.curr <= |s.blocks|
    ensures forall span :: Ready(s, span) ==> SndOk(s)
  {
    hide Concat;
  }

  lemma BothMeans(s: Sender, congestion: int)
    requires SndOk(s)
    ensures var (t, out) := PackBoth(s, congestion);
      && Paced(s, t, congestion)
      && (s.pending.Some? ==> t == s.(pending := None) && (out != {} <==> s.dataAck <= s.pending.value))
      && (s.pending.None? && s.loss != {} ==> PopsLeast(s, t) && out == {})
      && (s.pending.None? && out != {} ==> SendsNext(s, t, out))
      && (s.pending.None? ==> t.currSeq == s.currSeq + if out != {} then 1 else 0)
  {
    hide PackStart, SndOk;
    CursorOk(s);
    PackStartIs(s, congestion);
    if s.pending.Some? { PackFinishIs(s); }
  }

  /** Packet k of the stream. */
  ghost predicate At(ps: seq<Packet>, k: int, p: Packet) { 0 <= k < |ps| && p == ps[k] }

  /** What a call for sending says besides the number of bytes taken: Again is
      error 6-1, no room and no waiting; TooLarge is error 5-12. */
  datatype Status = Done | Again | TooLarge

  class SenderEnd {
    const buffer: Buf.SndBuffer          // m_pSndBuffer
    const lossList: Losses.SndLossList   // m_pSndLossList
    const sndBufSize: int                // m_iSndBufSize
    var sndCurrSeqNo: int                // m_iSndCurrSeqNo
    var sndLastAck: int                  // m_iSndLastAck
    var sndLastDataAck: int              // m_iSndLastDataAck
    var flowWindowSize: int              // m_iFlowWindowSize
    var broken: bool                     // m_bBroken
    var pendingSeq: int                  // the number popped by packData(), or -1
    ghost var st: Sender
    ghost var packets: seq<Packet>       // every packet added to the send buffer

    /** The fields show the abstract sender. */
    ghost predicate Fields()
      reads this
    {
      && Shown(sndCurrSeqNo, st.currSeq) && sndLastAck == Wrap(st.lastAck) && sndLastDataAck == Wrap(st.dataAck)
      && flowWindowSize == st.flowWindow && broken == st.broken
      && pendingSeq == if st.pending.Some? then Wrap(st.pending.value) else -1
    }

    /** The send buffer holds the packets from `first` on, the cursor is at `curr`. */
    ghost predicate Holds(ps: seq<Packet>, first: int, curr: int)
      reads buffer, buffer.chain
    {
      && buffer.Valid() && 0 <= first <= |ps|
      && buffer.Contents() == ps[first..] && buffer.cursor == curr - first
    }

    /** The loss list holds these numbers. */
    ghost predicate Loses(loss: set<int>)
      reads lossList, lossList.data1, lossList.data2, lossList.next
    {
      lossList.Valid() && lossList.Elems() == loss && lossList.size < TH
    }

    ghost predicate Valid()
      reads this, buffer, buffer.chain, lossList, lossList.data1, lossList.data2, lossList.next
    {
      Fields() && Holds(packets, st.first, st.curr) && Loses(st.loss) && Datas(packets) == st.blocks
    }

    constructor (isn: int, mss: int, window: int, sndBufSize: int, ghost size: int)
      requires 0 <= isn <= MAX && mss > 0 && 0 < 2 * window < TH
      ensures Valid() && st == Start(isn, size, window).snd && buffer.mss == mss && lossList.size == 2 * window
      ensures this.sndBufSize == sndBufSize && packets == [] && buffer.nextMsgNo == 1
      ensures fresh(buffer) && fresh(buffer.chain) && fresh(lossList)
      ensures fresh(lossList.data1) && fresh(lossList.data2) && fresh(lossList.next)
    {
      hide *;
      buffer := new Buf.SndBuffer(32, mss);
      lossList := new Losses.SndLossList(2 * window);
      sndLastAck, sndLastDataAck, sndCurrSeqNo := isn, isn, isn - 1;
      flowWindowSize, broken, pendingSeq := window, false, -1;
      this.sndBufSize, packets := sndBufSize, [];
      st := Start(isn, size, window).snd;
      new;
      Began(isn, size, window);
    }

    lemma Began(isn: int, size: int, window: int)
      requires 0 <= isn <= MAX && st == Start(isn, size, window).snd && packets == []
      requires sndLastAck == sndLastDataAck == isn && sndCurrSeqNo == isn - 1
      requires flowWindowSize == window && !broken && pendingSeq == -1
      requires buffer.Valid() && buffer.Contents() == [] && buffer.cursor == 0
      requires lossList.Valid() && lossList.Elems() == {} && lossList.size < TH
      ensures Valid()
    {
      hide Buf.SndBuffer.Valid, Buf.SndBuffer.Contents, Losses.SndLossList.Valid, Losses.SndLossList.Elems;
      WrapOfSeq(isn);
      if isn > 0 { WrapOfSeq(isn - 1); }
    }

    lemma Sizes()
      requires Valid()
      ensures buffer.mss > 0 && lossList.size < TH
    {
    }

    /** How many bytes a send buffer with `used` packets still takes. */
    function Free(used: int): int { (sndBufSize - used) * buffer.mss }

    /** How many of `len` bytes send() takes; sendmsg() takes all or none. */
    ghost function Taken(stream: bool, used: int, len: int): int {
      if stream then
        if sndBufSize <= used then 0 else if Free(used) > len then len else Free(used)
      else
        if Free(used) < len then 0 else len
    }

    /** What they say: a message may be larger than the send buffer; for want of
        room, a caller that does not wait is told so. */
    ghost function Says(stream: bool, used: int, len: int, waits: bool): Status {
      if len == 0 then Done
      else if !stream && Free(0) < len then TooLarge
      else if (if stream then sndBufSize <= used else Free(used) < len) && !waits then Again
      else Done
    }

    /** How many packets the send buffer holds. */
    ghost function Used(): int
      requires Valid()
      reads this, buffer, buffer.chain, lossList, lossList.data1, lossList.data2, lossList.next
    {
      |buffer.Contents()|
    }

    /** send(): as much of the data as the send buffer has room for, once a
        caller that is willing to has waited. */
    method Send(data: Payload, waits: bool) returns (n: int, r: Status)
      requires Valid()
      modifies this`st, this`packets, buffer, buffer.chain
      ensures Valid() && 0 <= n <= |data|
      ensures n == |data| || Used() >= sndBufSize
      ensures n > 0 ==> Used() <= sndBufSize
      ensures r == Again <==> data != [] && old(Used()) >= sndBufSize && !waits
      ensures n == Taken(true, old(Used()), |data|) && r == Says(true, old(Used()), |data|, waits)
      ensures n == 0 ==> st == old(st) && packets == old(packets)
      ensures n > 0 ==> st == Protocol.AppSend(old(st), data[..n], buffer.mss)
      ensures n > 0 ==> packets == old(packets + Cut(data[..n], false))
      ensures buffer.nextMsgNo == if n == 0 then old(buffer.nextMsgNo) else old(buffer.nextMsgNo) + 1
      ensures buffer.Own()
    {
      hide *;
      Parts();
      var used := buffer.GetCurrBufSize();
      FreePositive(used);
      FreeFills(used, data);
      Whole(data);
      TakenIs(true, used, |data|, waits);
      buffer.OwnSame();
      if |data| <= 0 {
        return 0, Done;
      }
      if sndBufSize <= used {
        return 0, if waits then Done else Again;
      }
      r := Done;
      n := Free(used);
      if n > |data| {
        n := |data|;
      }
      var part := data[..n];
      AppSend(part, false);
    }

    /** sendmsg(): the message as a whole, or nothing. */
    method SendMsg(data: Payload, order: bool, waits: bool) returns (n: int, r: Status)
      requires Valid()
      modifies this`st, this`packets, buffer, buffer.chain
      ensures Valid() && 0 <= n <= |data|
      ensures var k := |Chunks(data, buffer.mss)|;
        && (data != [] ==> (n > 0 <==> old(Used()) + k <= sndBufSize))
        && (r == TooLarge <==> data != [] && k > sndBufSize)
        && (r == Again <==> data != [] && k <= sndBufSize < old(Used()) + k && !waits)
      ensures n == Taken(false, old(Used()), |data|) && r == Says(false, old(Used()), |data|, waits)
      ensures n > 0 ==> n == |data|
      ensures n == 0 ==> st == old(st) && packets == old(packets)
      ensures n > 0 ==> st == Protocol.AppSend(old(st), data, buffer.mss) && packets == old(packets + Cut(data, order))
      ensures buffer.nextMsgNo == if n == 0 then old(buffer.nextMsgNo) else old(buffer.nextMsgNo) + 1
      ensures buffer.Own()
    {
      hide *;
      Parts();
      var used := buffer.GetCurrBufSize();
      buffer.OwnSame();
      FreeMost(used);
      FreeFits(used, data);
      FreeFits(0, data);
      TakenIs(false, used, |data|, waits);
      if |data| <= 0 {
        return 0, Done;
      }
      if Free(0) < |data| {
        return 0, TooLarge;
      }
      if Free(used) < |data| {
        return 0, if waits then Done else Again;
      }
      AppSend(data, order);
      n, r := |data|, Done;
    }

    /** send() or sendmsg(), as the kind of socket asks for. */
    method Take(stream: bool, data: Payload, order: bool, waits: bool) returns (n: int, r: Status)
      requires Valid()
      modifies this`st, this`packets, buffer, buffer.chain
      ensures Valid() && 0 <= n <= |data| && old(packets) <= packets && buffer.mss > 0
      ensures stream ==> n == |data| || Used() >= sndBufSize
      ensures stream && n > 0 ==> Used() <= sndBufSize
      ensures var k := |Chunks(data, buffer.mss)|;
        !stream && data != [] ==> (n > 0 <==> old(Used()) + k <= sndBufSize) && (r == TooLarge <==> k > sndBufSize)
      ensures n == Taken(stream, old(Used()), |data|) && r == Says(stream, old(Used()), |data|, waits)
      ensures n == 0 ==> st == old(st) && packets == old(packets)
      ensures n > 0 ==> st == Protocol.AppSend(old(st), data[..n], buffer.mss)
      ensures n > 0 && !stream ==> n == |data|
      ensures n > 0 && !stream ==>
        packets == old(packets) + Packets(Chunks(data, buffer.mss), old(buffer.nextMsgNo), order)
      ensures buffer.nextMsgNo == if n == 0 then old(buffer.nextMsgNo) else old(buffer.nextMsgNo) + 1
      ensures buffer.Own()
    {
      hide *;
      Parts();
      CutIs(data, order);
      Whole(data);
      if stream {
        n, r := Send(data, waits);
      } else {
        n, r := SendMsg(data, order, waits);
      }
    }

    lemma Parts()
      requires Valid()
      ensures buffer.Valid() && buffer.mss > 0 && Used() == |buffer.Contents()|
    {
    }

    lemma Pending()
      requires Valid()
      ensures pendingSeq == -1 <==> st.pending.None?
    {
    }

    lemma FreePositive(used: int)
      requires buffer.mss > 0
      ensures used < sndBufSize ==> Free(used) > 0
    {
      if used < sndBufSize { Positive(sndBufSize - used, buffer.mss); }
    }

    lemma TakenIs(stream: bool, used: int, len: int, waits: bool)
      requires len >= 0
      ensures Taken(stream, used, len) ==
        if stream then if sndBufSize <= used then 0 else if Free(used) > len then len else Free(used)
        else if Free(used) < len then 0 else len
      ensures Says(stream, used, len, waits) ==
        if len == 0 then Done
        else if !stream && Free(0) < len then TooLarge
        else if (if stream then sndBufSize <= used else Free(used) < len) && !waits then Again
        else Done
    {
    }

    /** Data fits if its packets do. */
    lemma FreeFits(used: int, data: Payload)
      requires buffer.mss > 0
      ensures Free(used) >= |data| <==> used + |Chunks(data, buffer.mss)| <= sndBufSize
    {
      ChunksCount(data, buffer.mss);
      if used <= sndBufSize {
        BlocksEnough(|data|, buffer.mss, sndBufSize - used);
      } else {
        Positive(used - sndBufSize, buffer.mss);
        assert (sndBufSize - used) * buffer.mss == -((used - sndBufSize) * buffer.mss);
      }
    }

    /** What does not fit is cut to as many packets as do. */
    lemma FreeFills(used: int, data: Payload)
      requires buffer.mss > 0 && used >= 0
      ensures Free(used) >= |data| ==> used + |Chunks(data, buffer.mss)| <= sndBufSize
      ensures used < sndBufSize && Free(used) < |data| ==>
        0 < Free(used) && used + |Chunks(data[..Free(used)], buffer.mss)| == sndBufSize
    {
      FreeFits(used, data);
      if used < sndBufSize && Free(used) < |data| {
        var k := sndBufSize - used;
        Positive(k, buffer.mss);
        ChunksCount(data[..Free(used)], buffer.mss);
        DivUnique(k * buffer.mss, k, 0, buffer.mss);
      }
    }

    lemma FreeMost(used: int)
      requires buffer.mss > 0 && used >= 0
      ensures Free(used) <= Free(0)
    {
      Distributed(sndBufSize, used, buffer.mss);
    }

    /** The packets that data becomes when it is sent next. */
    ghost function Cut(data: Payload, order: bool): seq<Packet>
      requires Valid()
      reads this, buffer, buffer.chain, lossList, lossList.data1, lossList.data2, lossList.next
    {
      Packets(Chunks(data, buffer.mss), buffer.nextMsgNo, order)
    }

    lemma CutIs(data: Payload, order: bool)
      requires Valid()
      ensures buffer.mss > 0 && Cut(data, order) == Packets(Chunks(data, buffer.mss), buffer.nextMsgNo, order)
    {
    }

    /** addBuffer(): the data joins the send buffer. */
    method AppSend(data: Payload, order: bool)
      requires Valid()
      modifies this`st, this`packets, buffer, buffer.chain
      ensures Valid() && st == Protocol.AppSend(old(st), data, buffer.mss) && packets == old(packets + Cut(data, order))
      ensures buffer.nextMsgNo == old(buffer.nextMsgNo) + 1
      ensures buffer.Own() && Used() == old(Used()) + |Chunks(data, buffer.mss)|
    {
      hide Wrap, Chunks, Packets, Buf.SndBuffer.Valid, Buf.SndBuffer.Contents, Losses.SndLossList.Valid, Datas;
      Sizes();
      ghost var more := Packets(Chunks(data, buffer.mss), buffer.nextMsgNo, order);
      DatasOfPackets(Chunks(data, buffer.mss), buffer.nextMsgNo, order);
      DatasJoin(packets, more);
      DatasLen(packets);
      buffer.AddBuffer(data, order);
      st := Protocol.AppSend(st, data, buffer.mss);
      packets := packets + more;
    }

    /** packData(), first half: a lost number is popped, or a new block sent. */
    method PackStart(congestion: int) returns (sent: bool, seqno: int, p: Packet)
      requires Valid() && Ready(st, lossList.size)
      modifies this`st, this`pendingSeq, this`sndCurrSeqNo, buffer`currBlock, buffer`cursor
      modifies lossList, lossList.data1, lossList.data2, lossList.next
      ensures Valid() && st == Protocol.PackStart(old(st), congestion).0
      ensures sent == (Protocol.PackStart(old(st), congestion).1 != {})
      ensures sent ==> Protocol.PackStart(old(st), congestion).1 == {Data(st.currSeq, p.data)}
      ensures sent ==> seqno == Wrap(st.currSeq) && At(packets, st.currSeq - st.isn, p)
      ensures Paced(old(st), st, congestion) && sent == (st.currSeq > old(st).currSeq)
      ensures if old(st).loss != {} then PopsLeast(old(st), st)
        else if sent then SendsNext(old(st), st, {Data(st.currSeq, p.data)})
        else st == old(st)
    {
      hide Wrap, Holds, SndOk, Buf.SndBuffer.Valid, Buf.SndBuffer.Contents;
      hide Losses.SndLossList.Valid, Losses.SndLossList.Elems, Paced, PopsLeast, SendsNext;
      CursorOk(st);
      PackStartIs(st, congestion);
      ghost var x;
      sent, p := false, Packet([], 0);
      seqno, x := lossList.GetLostSeq();
      if seqno >= 0 {
        LeastIs(st.loss, x, 0);
        pendingSeq := seqno;
        st := Protocol.PackStart(st, congestion).0;
      } else {
        sent, seqno, p := SendNew(congestion);
      }
    }

    /** A block is sent for the first time, if both windows allow. */
    method SendNew(congestion: int) returns (sent: bool, seqno: int, p: Packet)
      requires Valid() && Ready(st, lossList.size) && st.loss == {}
      modifies this`st, this`sndCurrSeqNo, buffer`currBlock, buffer`cursor
      ensures Valid() && st == Protocol.PackStart(old(st), congestion).0
      ensures sent == (Protocol.PackStart(old(st), congestion).1 != {})
      ensures sent ==> Protocol.PackStart(old(st), congestion).1 == {Data(st.currSeq, p.data)}
      ensures sent ==> seqno == Wrap(st.currSeq) && At(packets, st.currSeq - st.isn, p)
    {
      hide Wrap, Loses, Buf.SndBuffer.Valid, Buf.SndBuffer.Contents, Concat;
      sent, seqno, p := false, -1, Packet([], 0);
      var cwnd := if flowWindowSize < congestion then flowWindowSize else congestion;
      Sizes();
      ShownNext(sndCurrSeqNo, st.currSeq);
      LenOfRange(st.lastAck, st.currSeq + 1);
      if cwnd >= SeqLen(sndLastAck, IncSeq(sndCurrSeqNo)) {
        DatasLen(packets);
        sent, p := buffer.ReadNew();
        if sent {
          sndCurrSeqNo := IncSeq(sndCurrSeqNo);
          seqno := sndCurrSeqNo;
        }
      }
      st := Protocol.PackStart(st, congestion).0;
    }

    /** packData(), second half: the block of the popped number, unless an
        acknowledgement has released it in between. */
    method PackFinish() returns (sent: bool, seqno: int, p: Packet)
      requires Valid() && Ready(st, lossList.size) && st.pending.Some? && InReach(st, st.pending.value)
      modifies this`st, this`pendingSeq
      ensures Valid() && st == Protocol.PackFinish(old(st)).0
      ensures sent == (Protocol.PackFinish(old(st)).1 != {})
      ensures sent ==> Protocol.PackFinish(old(st)).1 == {Data(old(st).pending.value, p.data)}
      ensures sent ==> seqno == Wrap(old(st).pending.value) && At(packets, old(st).pending.value - st.isn, p)
      ensures st == old(st).(pending := None) && (sent <==> old(st).dataAck <= old(st).pending.value)
    {
      hide Wrap, Loses, Buf.SndBuffer.Valid, Buf.SndBuffer.Contents, Concat;
      sent, seqno, p := false, pendingSeq, Packet([], 0);
      ghost var x := st.pending.value;
      OffOfNear(st.dataAck, x);
      var offset := SeqOff(sndLastDataAck, pendingSeq);
      pendingSeq := -1;
      if offset >= 0 {
        DatasLen(packets);
        p := buffer.ReadAt(offset);
        sent := true;
      }
      st := Protocol.PackFinish(st).0;
    }

    /** packData(), either half. */
    method Pack(congestion: int) returns (sent: bool, seqno: int, p: Packet, ghost x: int)
      requires Valid() && Ready(st, lossList.size) && (st.pending.Some? ==> InReach(st, st.pending.value))
      modifies this`st, this`pendingSeq, this`sndCurrSeqNo, buffer`currBlock, buffer`cursor
      modifies lossList, lossList.data1, lossList.data2, lossList.next
      ensures Valid() && st == PackBoth(old(st), congestion).0
      ensures PackBoth(old(st), congestion).1 == if sent then {Data(x, p.data)} else {}
      ensures sent ==> seqno == Wrap(x) && At(packets, x - st.isn, p)
      ensures Paced(old(st), st, congestion)
      ensures old(st).pending.Some? ==> st == old(st).(pending := None) && (sent <==> old(st).dataAck <= x)
      ensures old(st).pending.Some? ==> x == old(st).pending.value
      ensures old(st).pending.None? && old(st).loss != {} ==> PopsLeast(old(st), st) && !sent
      ensures old(st).pending.None? && sent ==> SendsNext(old(st), st, {Data(x, p.data)}) && st.currSeq == x
      ensures old(st).pending.None? ==> st.currSeq == old(st).currSeq + if sent then 1 else 0
    {
      hide *;
      Pending();
      BothIs(st, congestion);
      CursorOk(st);
      BothMeans(st, congestion);
      x := if st.pending.Some? then st.pending.value else st.currSeq + 1;
      if pendingSeq == -1 {
        sent, seqno, p := PackStart(congestion);
      } else {
        sent, seqno, p := PackFinish();
      }
    }

    /** A light acknowledgement. */
    method OnLiteAck(ack: int, ghost x: int)
      requires Valid() && Ready(st, lossList.size) && ack == Wrap(x) && InReach(st, x)
      modifies this`st, this`flowWindowSize, this`sndLastAck
      ensures Valid() && st == Protocol.OnLiteAck(old(st), x) && Credited(old(st), st, x)
    {
      hide Wrap, Holds, Loses, Concat, Credited;
      LiteAckIs(st, x);
      Sizes();
      CmpOfNear(x, st.lastAck);
      OffOfNear(st.lastAck, x);
      if SeqCmp(ack, sndLastAck) >= 0 {
        flowWindowSize := flowWindowSize - SeqOff(sndLastAck, ack);
        sndLastAck := ack;
      }
      st := Protocol.OnLiteAck(st, x);
    }

    /** A full acknowledgement. */
    method OnFullAck(ack: int, window: int, ghost x: int)
      requires Valid() && Ready(st, lossList.size) && ack == Wrap(x) && InReach(st, x)
      modifies this`st, this`broken, this`flowWindowSize, this`sndLastAck, this`sndLastDataAck
      modifies buffer`firstBlock, buffer`count, buffer`chain, buffer`cursor
      modifies lossList, lossList.data1, lossList.data2, lossList.next
      ensures Valid() && st == Protocol.OnFullAck(old(st), x, window) && Released(old(st), st, x, window)
      ensures forall b :: b in buffer.chain <==> b in old(buffer.chain)
    {
      hide Wrap, Holds, Loses, Concat, Released;
      FullAckIs(st, x, window);
      Sizes();
      ShownNext(sndCurrSeqNo, st.currSeq);
      CmpOfNear(x, st.currSeq + 1);
      CmpOfNear(x, st.lastAck);
      OffOfNear(st.dataAck, x);
      if SeqCmp(ack, IncSeq(sndCurrSeqNo)) > 0 {
        broken := true;
        st := Protocol.OnFullAck(st, x, window);
        return;
      }
      if SeqCmp(ack, sndLastAck) >= 0 {
        flowWindowSize := window;
        sndLastAck := ack;
        st := st.(flowWindow := window, lastAck := x);
      }
      var offset := SeqOff(sndLastDataAck, ack);
      if offset > 0 {
        LetGo(offset, ack, x);
      }
    }

    /** Blocks and lost numbers below the acknowledged one are let go. */
    method LetGo(offset: int, ack: int, ghost x: int)
      requires Valid() && Ready(st, lossList.size) && ack == Wrap(x) && InReach(st, x)
      requires offset == x - st.dataAck && st.dataAck < x <= st.currSeq + 1
      modifies this`st, this`sndLastDataAck, buffer`firstBlock, buffer`count, buffer`chain, buffer`cursor
      modifies lossList, lossList.data1, lossList.data2, lossList.next
      ensures Valid() && forall b :: b in buffer.chain <==> b in old(buffer.chain)
      ensures st == old(st).(first := old(st).first + offset, dataAck := x,
                             loss := set y | y in old(st).loss && y > x - 1)
    {
      hide Wrap, Holds, Loses, Concat;
      DatasLen(packets);
      Release(offset, x);
      sndLastDataAck := ack;
      WrapStep(x);
      Forget(DecSeq(sndLastDataAck), x - 1);
      st := st.(first := st.first + offset, dataAck := x, loss := set y | y in st.loss && y > x - 1);
    }

    /** Acknowledged blocks leave the send buffer. */
    method Release(offset: int, ghost x: int)
      requires Holds(packets, st.first, st.curr) && SndOk(st) && |packets| == |st.blocks|
      requires offset == x - st.dataAck && st.dataAck < x <= st.currSeq + 1
      modifies buffer`firstBlock, buffer`count, buffer`chain, buffer`cursor
      ensures Holds(packets, st.first + offset, st.curr)
      ensures forall b :: b in buffer.chain <==> b in old(buffer.chain)
    {
      hide Buf.SndBuffer.Valid, Buf.SndBuffer.Contents, Concat;
      buffer.AckData(offset);
    }

    /** Acknowledged numbers leave the loss list. */
    method Forget(seqno: int, ghost x: int)
      requires Loses(st.loss) && seqno == Wrap(x) && forall y :: y in st.loss ==> Near(y, x)
      modifies lossList, lossList.data1, lossList.data2, lossList.next
      ensures Loses(set y | y in st.loss && y > x)
    {
      hide Wrap, Losses.SndLossList.Valid, Losses.SndLossList.Elems;
      lossList.Remove(seqno, x);
    }

    /** The expiration timer. */
    method OnExp()
      requires Valid() && Ready(st, lossList.size)
      modifies this`st, lossList, lossList.data1, lossList.data2, lossList.next
      ensures Valid() && st == Protocol.OnExp(old(st)) && st == old(st).(loss := st.loss)
      ensures forall y :: y in st.loss <==> y in old(st).loss || st.lastAck <= y <= st.currSeq
    {
      hide Wrap, Holds, Concat, Loses;
      Sizes();
      ShownNext(sndCurrSeqNo, st.currSeq);
      WrapInjective(st.currSeq + 1, st.lastAck);
      if IncSeq(sndCurrSeqNo) != sndLastAck {
        AddLoss(sndLastAck, sndCurrSeqNo, st.lastAck, st.currSeq);
      }
      st := Protocol.OnExp(st);
    }

    /** Sent and not acknowledged numbers join the loss list. */
    method AddLoss(seqno1: int, seqno2: int, ghost a: int, ghost b: int)
      requires Loses(st.loss) && Ready(st, lossList.size) && seqno1 == Wrap(a) && seqno2 == Wrap(b)
      requires st.dataAck <= a <= b <= st.currSeq
      modifies lossList, lossList.data1, lossList.data2, lossList.next
      ensures Loses(st.loss + Range(a, b))
    {
      hide Wrap, Concat, Losses.SndLossList.Valid, Losses.SndLossList.Elems;
      var num := lossList.Insert(seqno1, seqno2, a, b);
    }

    /** A loss report: the sender's list gains what it names, from the last
        acknowledgement on. */
    method OnNak(words: seq<int>, ghost spans: seq<Node>)
      requires Valid() && Ready(st, lossList.size) && words == Nak.Encode(spans)
      requires forall nd :: nd in spans ==> Told(st, nd)
      modifies this`st, this`broken, lossList, lossList.data1, lossList.data2, lossList.next
      ensures Valid() && st == OnLoss(old(st), spans)
      ensures var s, k := old(st), Accepts(old(st), spans);
        st == s.(loss := s.loss + Named(s, spans[..k]), broken := s.broken || k < |spans|)
      ensures var k := Accepts(old(st), spans); forall x ::
        x in st.loss <==> x in old(st).loss || (x in Elems(spans[..k]) && old(st).lastAck <= x)
    {
      hide Holds, Loses, SndOk, Wrap, Secure, WithSpan, Told, Valid, Fields, Nak.Words, Named, Accepts;
      ReportAdds(st, spans);
      NamedIs(st, spans[..Accepts(st, spans)]);
      var i := 0;
      ghost var k := 0;
      assert words[0..] == words && spans[0..] == spans;
      while i < |words|
        invariant 0 <= i <= |words| && 0 <= k <= |spans| && words[i..] == Nak.Encode(spans[k..])
        invariant Valid() && Ready(st, lossList.size) && OnLoss(st, spans[k..]) == OnLoss(old(st), spans)
        invariant forall nd :: nd in spans ==> Told(st, nd)
        decreases |words| - i
      {
        ghost var nd, rest := spans[k], spans[k + 1..];
        SpanWords(words, i, spans, k);
        OnLossStep(st, spans[k..]);
        ghost var was := st;
        var secure;
        if words[i] >= MOD {
          secure := OnPair(words[i] - MOD, words[i + 1], nd);
          i := i + 1;
        } else {
          secure := OnSingle(words[i], nd);
        }
        if !secure {
          SetBroken();
          return;
        }
        forall nd | nd in spans ensures Told(st, nd) { ToldStays(was, spans[k], nd); }
        i := i + 1;
        k := k + 1;
      }
      NoWords(spans[k..]);
    }

    method SetBroken()
      requires Valid()
      modifies this`st, this`broken
      ensures Valid() && st == old(st).(broken := true)
    {
      hide Holds, Loses, Wrap;
      broken := true;
      st := st.(broken := true);
    }

    /** One interval of a loss report. */
    method OnPair(first: int, last: int, ghost nd: Node) returns (secure: bool)
      requires Valid() && Ready(st, lossList.size) && Told(st, nd) && nd.lo != nd.hi
      requires first == Wrap(nd.lo) && last == Wrap(nd.hi)
      modifies this`st, lossList, lossList.data1, lossList.data2, lossList.next
      ensures Valid() && secure == Secure(old(st), nd) && st == (if secure then WithSpan(old(st), nd) else old(st))
      ensures Ready(st, lossList.size)
    {
      hide Holds, Loses, Wrap, Concat;
      CmpOfNear(nd.lo, nd.hi);
      ShownCmp(nd.hi, sndCurrSeqNo, st.currSeq);
      CmpOfNear(nd.lo, st.lastAck);
      CmpOfNear(nd.hi, st.lastAck);
      if nd.hi < st.lastAck { OldSpan(st, nd); }
      if SeqCmp(first, last) > 0 || SeqCmp(last, sndCurrSeqNo) > 0 {
        return false;
      }
      if SeqCmp(first, sndLastAck) >= 0 {
        AddLoss(first, last, nd.lo, nd.hi);
      } else if SeqCmp(last, sndLastAck) >= 0 {
        AddLoss(sndLastAck, last, st.lastAck, nd.hi);
      }
      st := WithSpan(st, nd);
      secure := true;
    }

    /** One single number of a loss report. */
    method OnSingle(at: int, ghost nd: Node) returns (secure: bool)
      requires Valid() && Ready(st, lossList.size) && Told(st, nd) && nd.lo == nd.hi && at == Wrap(nd.lo)
      modifies this`st, lossList, lossList.data1, lossList.data2, lossList.next
      ensures Valid() && secure == Secure(old(st), nd) && st == (if secure then WithSpan(old(st), nd) else old(st))
      ensures Ready(st, lossList.size)
    {
      hide Holds, Loses, Wrap, Concat;
      ShownCmp(nd.lo, sndCurrSeqNo, st.currSeq);
      CmpOfNear(nd.lo, st.lastAck);
      if nd.hi < st.lastAck { OldSpan(st, nd); }
      secure := true;
      if SeqCmp(at, sndLastAck) >= 0 {
        if SeqCmp(at, sndCurrSeqNo) > 0 {
          return false;
        }
        AddLoss(at, at, nd.lo, nd.lo);
        st := WithSpan(st, nd);
      }
    }
  }

  lemma Whole(data: Payload)
    ensures data[..|data|] == data
  {
  }

  lemma Distributed(a: int, b: int, c: int)
    requires b >= 0 && c > 0
    ensures (a - b) * c <= a * c
  {
    assert (a - b) * c == a * c - b * c && b * c >= 0;
  }

  lemma Positive(a: int, b: int)
    requires a > 0 && b > 0
    ensures a * b > 0
  {
  }

  lemma LeastIs(s: set<int>, x: int, none: int)
    requires x in s && forall y :: y in s ==> x <= y
    ensures Least(s, none) == x
  {
  }

  lemma DatasLen(ps: seq<Packet>)
    ensures |Datas(ps)| == |ps| && forall k :: 0 <= k < |ps| ==> Datas(ps)[k] == ps[k].data
  {
  }

  lemma DatasJoin(a: seq<Packet>, b: seq<Packet>)
    ensures Datas(a + b) == Datas(a) + Datas(b)
  {
  }

  lemma DatasOfPackets(chunks: seq<Payload>, no: PacketHeader.Word, order: bool)
    ensures Datas(Packets(chunks, no, order)) == chunks
  {
  }
}
