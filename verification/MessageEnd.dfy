/** The receive buffer in message mode (UDT4/src/buffer.cpp:418-693): its
    methods, called in any order, are the steps of MessageRuns. */
module MessageEnd {
  import opened ByteStream
  import opened PacketHeader
  import opened Messages
  import opened Reassembly
  import opened MessageRuns
  import UnitPool
  import Buf = RcvBuffer

  class MessageEnd {
    const buffer: Buf.RcvBuffer
    ghost const mss: int
    ghost var st: State

    /** The buffer shows the state of the run. */
    ghost predicate Valid()
      reads this, buffer, buffer.queue, buffer.queue.ring, buffer.queue.members, buffer.queue.buffers
      reads buffer.slots.units, buffer.slots.units[..], set b | b in buffer.queue.buffers :: b.units
    {
      mss > 0 && buffer.Valid() && buffer.notch == 0 && Shows()
    }

    /** The slots and positions of the buffer are those of the state. */
    ghost predicate Shows()
      requires mss > 0
      reads this, buffer, buffer.slots.units, buffer.slots.units[..]
    {
      && buffer.slots.units.Length == buffer.size > 0 && Inv(st, buffer.isn, mss)
      && st.c == buffer.Content() && st.readIdx == buffer.readIdx && st.ackIdx == buffer.ackIdx
    }

    constructor (size: int, queue: UnitPool.UnitQueue, ghost isn: int, ghost mss: int)
      requires queue.Valid() && size > 0 && mss > 0
      modifies queue`buffers
      ensures Valid() && st == State(map[], isn, isn, [], [], []) && buffer.isn == isn && this.mss == mss
      ensures fresh(buffer) && fresh(buffer.slots.units) && buffer.queue == queue && buffer.size == size
    {
      buffer := new Buf.RcvBuffer(size, queue, isn);
      this.mss := mss;
      st := State(map[], isn, isn, [], [], []);
      new;
      StartInv(isn, mss);
    }

    /** The peer sends a message. */
    ghost method Send(m: Sent)
      requires Valid() && m.no < MSG_LIMIT
      modifies this`st
      ensures Valid() && Step(old(st), MessageRuns.Send(m), st, buffer.isn, mss)
    {
      hide Inv, Buf.RcvBuffer.Valid, Buf.RcvBuffer.Content, Stream;
      buffer.ViewOk();
      ghost var was := st;
      st := st.(sent := st.sent + [m]);
      StepInv(was, MessageRuns.Send(m), st, buffer.isn, mss);
    }

    /** A packet of the stream arrives. */
    method Arrive(u: UnitPool.Unit, offset: int) returns (r: int)
      requires Valid() && u in buffer.queue.members && u.flag == 0
      requires 0 <= offset < buffer.size - (st.ackIdx - st.readIdx) - 1
      requires var k := st.ackIdx + offset - buffer.isn; var ps := Stream(st.sent, mss);
        0 <= k < |ps| && u.payload == ps[k].data && u.word == ps[k].word
      modifies this`st, buffer`maxPos, buffer.slots.units, u`flag, u`owner, u`at, buffer.queue`count
      ensures Valid()
      ensures r == -1 ==> st == old(st)
      ensures r != -1 ==> Step(old(st), MessageRuns.Arrive(old(st).ackIdx + offset), st, buffer.isn, mss)
    {
      hide Inv, Buf.RcvBuffer.Valid, Buf.RcvBuffer.Content, Stream;
      buffer.ViewOk();
      ghost var x, h := st.ackIdx + offset, Held(u.payload, u.word, 1);
      r := buffer.AddData(u, offset);
      if r == 0 {
        st := st.(c := st.c[x := h]);
        StepInv(old(st), MessageRuns.Arrive(x), st, buffer.isn, mss);
      }
    }

    /** The next slots are acknowledged. */
    method Ack(n: int)
      requires Valid() && n >= 0 && forall i :: st.ackIdx <= i < st.ackIdx + n ==> i in st.c
      modifies this`st, buffer`lastAckPos, buffer`maxPos, buffer`ackIdx
      ensures Valid() && Step(old(st), MessageRuns.Ack(n), st, buffer.isn, mss)
    {
      hide Inv, Buf.RcvBuffer.Valid, Buf.RcvBuffer.Content, Stream;
      buffer.ViewOk();
      buffer.AckData(n);
      buffer.ViewOk();
      st := st.(ackIdx := st.ackIdx + n);
      StepInv(old(st), MessageRuns.Ack(n), st, buffer.isn, mss);
    }

    /** readMsg(): one of the messages sent, which no read has returned before;
        or nothing. */
    method Read(len: int) returns (data: Payload, ghost got: bool, ghost e: Action)
      requires Valid()
      modifies this`st, buffer`startPos, buffer`readIdx, buffer.slots.units
      modifies Buf.UnitsIn(buffer.slots.units[..]), buffer.queue`count
      ensures Valid() && Step(old(st), e, st, buffer.isn, mss) && Reads(old(st), st, len, buffer.isn, mss)
      ensures if got then e.ReadOne? && e.len == len && st.out == old(st).out + [Returned(len, data)]
        else e == ReadNone && data == []
    {
      hide *;
      ghost var a, b, m;
      Parts();
      buffer.ViewOk();
      InvParts(st, buffer.isn, mss);
      buffer.MsgDef(Stream(st.sent, mss));
      data, got, a, b := buffer.ReadMsg(len, Stream(st.sent, mss));
      buffer.ViewOk();
      buffer.MsgDef(Stream(st.sent, mss));
      e := ReadNone;
      m := 0;
      if got {
        GotReadable(st, buffer.Content(), buffer.readIdx, len, data, a, b);
        m := ReadableIsSent(st, a, b, buffer.isn, mss);
        e := ReadOne(a, b, m, len);
      }
      ghost var more := if got then [Returned(len, data)] else [];
      st := State(buffer.Content(), buffer.readIdx, st.ackIdx, st.sent,
                  st.got + if got then [m] else [], st.out + more);
      IsStep(old(st), st, got, a, b, m, len, data, buffer.isn, mss);
      StepInv(old(st), e, st, buffer.isn, mss);
      IsReads(old(st), st, len, buffer.isn, mss, got, a, b, m, data);
      Parts();
    }

    lemma Parts()
      ensures Valid() <==> mss > 0 && buffer.Valid() && buffer.notch == 0 && Shows()
      ensures mss > 0 ==>
        (Shows() <==>
          && buffer.slots.units.Length == buffer.size > 0 && Inv(st, buffer.isn, mss)
          && st.c == buffer.Content() && st.readIdx == buffer.readIdx && st.ackIdx == buffer.ackIdx)
    {
    }
  }

  /** What readMsg() promises makes the call a step. */
  lemma IsStep(s: State, t: State, got: bool, a: int, b: int, m: int, len: int, data: Payload, isn: int, mss: int)
    requires mss > 0 && Messaging(t.c, t.readIdx, Stream(s.sent, mss), isn)
    requires t == State(t.c, t.readIdx, s.ackIdx, s.sent, s.got + if got then [m] else [],
                        s.out + if got then [Returned(len, data)] else [])
    requires ReadsMsg(s.c, s.readIdx, s.ackIdx, t.c, t.readIdx, len, data, got, a, b)
    requires got ==> IsSent(s.sent, mss, a - isn, b - isn, m) && forall i :: a <= i <= b ==> Pending(s.c, s.readIdx, i)
    ensures Step(s, if got then ReadOne(a, b, m, len) else ReadNone, t, isn, mss)
  {
    hide Messaging, Stream, Pending, Readable, Cut, Concat, DatasOf, IsSent, OrderedAt;
  }

  lemma IsReads(
    s: State, t: State, len: int, isn: int, mss: int, got: bool, a: int, b: int, m: int, data: Payload)
    requires mss > 0 && Step(s, if got then ReadOne(a, b, m, len) else ReadNone, t, isn, mss)
    requires ReadsMsg(s.c, s.readIdx, s.ackIdx, t.c, t.readIdx, len, data, got, a, b)
    requires !got ==> Skipped(t.c, s.ackIdx, t.readIdx)
    requires !got ==> NothingReadable(s.c, s.ackIdx, s.readIdx) || s.readIdx == s.ackIdx
    ensures Reads(s, t, len, isn, mss)
  {
    hide Step, ReadsMsg, Skipped, NothingReadable;
    assert ReadsAs(s, t, len, isn, mss, got, a, b, m, data);
  }

  lemma GotReadable(s: State, d: Cells, r: int, len: int, data: Payload, a: int, b: int)
    requires ReadsMsg(s.c, s.readIdx, s.ackIdx, d, r, len, data, true, a, b)
    ensures s.readIdx <= a && Readable(s.c, s.ackIdx, a, b)
  {
  }

  lemma InvParts(s: State, isn: int, mss: int)
    requires mss > 0 && Inv(s, isn, mss)
    ensures Numbered(s.sent) && Messaging(s.c, s.readIdx, Stream(s.sent, mss), isn)
  {
  }
}
