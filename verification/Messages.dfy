/** Messages: how the send buffer cuts them into packets (UDT4/src/buffer.cpp:
    120-162) and how the receive buffer finds whole ones (buffer.cpp:539-693). */
module Messages {
  import opened ByteStream
  import opened PacketHeader

  /** What a used block of the send buffer holds. */
  datatype Packet = Packet(data: Payload, word: Word)

  /** The packets of one message. */
  ghost function Packets(chunks: seq<Payload>, msgNo: Word, order: bool): (ps: seq<Packet>)
    ensures |ps| == |chunks|
  {
    seq(|chunks|, i requires 0 <= i < |chunks| =>
      Packet(chunks[i], Compose(msgNo, order, i == 0, i == |chunks| - 1)))
  }

  lemma PacketsFlags(chunks: seq<Payload>, msgNo: Word, order: bool, i: int)
    requires 0 <= i < |chunks| && msgNo < MSG_LIMIT
    ensures var p := Packets(chunks, msgNo, order)[i];
      StartsMsg(p.word) == (i == 0) && EndsMsg(p.word) == (i == |chunks| - 1) && OrderFlag(p.word) == order
      && MsgSeq(p.word) == msgNo && p.data == chunks[i]
  {
    ComposeFits(msgNo, order, i == 0, i == |chunks| - 1);
  }

  // ----- the stream of all packets sent -----

  /** One call of sendmsg(). */
  datatype Sent = Sent(data: Payload, order: bool, no: Word)

  ghost function Stream(msgs: seq<Sent>, mss: int): seq<Packet>
    requires mss > 0
  {
    if |msgs| == 0 then []
    else
      var m := msgs[|msgs| - 1];
      Stream(msgs[..|msgs| - 1], mss) + Packets(Chunks(m.data, mss), m.no, m.order)
  }

  ghost predicate Numbered(msgs: seq<Sent>) {
    forall m :: m in msgs ==> m.no < MSG_LIMIT
  }

  /** Packet k begins a message, or would if it were there. */
  ghost predicate Begins(ps: seq<Packet>, k: int) {
    k == |ps| || (0 <= k < |ps| && StartsMsg(ps[k].word))
  }

  ghost predicate Ends(ps: seq<Packet>, k: int) {
    0 <= k < |ps| && EndsMsg(ps[k].word)
  }

  /** Packet k and the one behind it agree on where messages end. */
  ghost predicate Follows(ps: seq<Packet>, k: int)
    requires 0 <= k < |ps|
  {
    && (EndsMsg(ps[k].word) <==> Begins(ps, k + 1))
    && (k + 1 < |ps| && !EndsMsg(ps[k].word) ==> OrderFlag(ps[k + 1].word) == OrderFlag(ps[k].word))
    && |ps[k].data| > 0
  }

  /** Every message begins where the one before it ends. */
  ghost predicate Delimited(ps: seq<Packet>) {
    Begins(ps, 0) && forall k :: 0 <= k < |ps| ==> Follows(ps, k)
  }

  /** Packets a..b are one message. */
  ghost predicate IsMessage(ps: seq<Packet>, a: int, b: int) {
    && 0 <= a <= b < |ps| && Begins(ps, a) && Ends(ps, b)
    && forall k :: a <= k < b ==> !Ends(ps, k)
  }

  ghost function Datas(ps: seq<Packet>): (ds: seq<Payload>)
    ensures |ds| == |ps|
  {
    seq(|ps|, i requires 0 <= i < |ps| => ps[i].data)
  }

  lemma PacketsDelimited(chunks: seq<Payload>, msgNo: Word, order: bool)
    requires msgNo < MSG_LIMIT && forall k :: 0 <= k < |chunks| ==> |chunks[k]| > 0
    ensures Delimited(Packets(chunks, msgNo, order))
  {
    var ps := Packets(chunks, msgNo, order);
    hide Compose, StartsMsg, EndsMsg, OrderFlag;
    if |chunks| > 0 { PacketsFlags(chunks, msgNo, order, 0); }
    forall k | 0 <= k < |ps| ensures Follows(ps, k) {
      PacketsFlags(chunks, msgNo, order, k);
      if k + 1 < |ps| { PacketsFlags(chunks, msgNo, order, k + 1); }
    }
  }

  /** Sending another message keeps the stream delimited. */
  lemma DelimitedJoin(ps: seq<Packet>, qs: seq<Packet>)
    requires Delimited(ps) && Delimited(qs)
    ensures Delimited(ps + qs)
  {
    hide StartsMsg, EndsMsg, OrderFlag;
    var all := ps + qs;
    assert Begins(all, 0) by {
      assert Begins(ps, 0) && Begins(qs, 0);
    }
    forall k | 0 <= k < |all| ensures Follows(all, k) {
      if k < |ps| {
        assert Follows(ps, k) && Begins(qs, 0);
      } else {
        assert Follows(qs, k - |ps|);
      }
    }
  }

  lemma {:induction false} StreamDelimited(msgs: seq<Sent>, mss: int)
    requires mss > 0 && Numbered(msgs)
    ensures Delimited(Stream(msgs, mss))
  {
    hide Delimited;
    if |msgs| == 0 {
      EmptyDelimited();
    } else {
      var m := msgs[|msgs| - 1];
      StreamDelimited(msgs[..|msgs| - 1], mss);
      ChunksCut(m.data, mss);
      PacketsDelimited(Chunks(m.data, mss), m.no, m.order);
      DelimitedJoin(Stream(msgs[..|msgs| - 1], mss), Packets(Chunks(m.data, mss), m.no, m.order));
    }
  }

  lemma EmptyDelimited()
    ensures Delimited([])
  {
  }

  /** Packets a..b of the stream are the m-th message sent. */
  ghost predicate IsSent(msgs: seq<Sent>, mss: int, a: int, b: int, m: int)
    requires mss > 0
  {
    && 0 <= m < |msgs| && a == |Stream(msgs[..m], mss)| && b + 1 == |Stream(msgs[..m + 1], mss)|
    && 0 <= a <= b < |Stream(msgs, mss)|
    && Concat(Datas(Stream(msgs, mss)[a..b + 1])) == msgs[m].data
    && forall k :: a <= k <= b ==> OrderFlag(Stream(msgs, mss)[k].word) == msgs[m].order
  }

  /** What looks like a message in the stream is one that was sent. */
  lemma {:induction false} MessagesAreSent(msgs: seq<Sent>, mss: int, a: int, b: int) returns (m: int)
    requires mss > 0 && Numbered(msgs) && IsMessage(Stream(msgs, mss), a, b)
    ensures IsSent(msgs, mss, a, b, m)
  {
    hide *;
    StreamLast(msgs, mss, a, b);
    var init, last := msgs[..|msgs| - 1], msgs[|msgs| - 1];
    var ps, qs := Stream(init, mss), Packets(Chunks(last.data, mss), last.no, last.order);
    StreamDelimited(init, mss);
    if b < |ps| {
      Earlier(ps, qs, a, b);
      m := MessagesAreSent(init, mss, a, b);
      StillSent(msgs, mss, a, b, m);
    } else {
      m := |msgs| - 1;
      StartsLast(ps, Chunks(last.data, mss), last, a, b);
      LastIsSent(msgs, mss, a, b);
    }
  }

  lemma StreamLast(msgs: seq<Sent>, mss: int, a: int, b: int)
    requires mss > 0 && Numbered(msgs) && IsMessage(Stream(msgs, mss), a, b)
    ensures |msgs| > 0 && Numbered(msgs[..|msgs| - 1]) && msgs[|msgs| - 1].no < MSG_LIMIT
    ensures var m := msgs[|msgs| - 1];
      Stream(msgs, mss) == Stream(msgs[..|msgs| - 1], mss) + Packets(Chunks(m.data, mss), m.no, m.order)
  {
    assert |msgs| > 0 ==> msgs[|msgs| - 1] in msgs;
  }

  /** What was sent before stays what it was. */
  lemma StillSent(msgs: seq<Sent>, mss: int, a: int, b: int, m: int)
    requires mss > 0 && |msgs| > 0 && IsSent(msgs[..|msgs| - 1], mss, a, b, m)
    ensures IsSent(msgs, mss, a, b, m)
  {
    hide Packets, OrderFlag, Chunks, Concat, Datas;
    var init := msgs[..|msgs| - 1];
    var ps, all := Stream(init, mss), Stream(msgs, mss);
    assert init[..m] == msgs[..m] && init[..m + 1] == msgs[..m + 1];
    assert all[..|ps|] == ps;
    assert all[a..b + 1] == ps[a..b + 1];
    assert forall k :: a <= k <= b ==> all[k] == ps[k];
  }

  /** The packets sent last are the last message. */
  lemma LastIsSent(msgs: seq<Sent>, mss: int, a: int, b: int)
    requires mss > 0 && |msgs| > 0 && msgs[|msgs| - 1].no < MSG_LIMIT
    requires a == |Stream(msgs[..|msgs| - 1], mss)| && b == |Stream(msgs, mss)| - 1 && a <= b
    ensures IsSent(msgs, mss, a, b, |msgs| - 1)
  {
    hide Packets, OrderFlag, Chunks, Concat, Datas;
    var m := |msgs| - 1;
    var ps, all := Stream(msgs[..m], mss), Stream(msgs, mss);
    LastMessage(ps, msgs[m], mss);
    hide Stream;
    assert msgs[..m + 1] == msgs;
    assert all[a..b + 1] == all[a..];
  }

  lemma Earlier(ps: seq<Packet>, qs: seq<Packet>, a: int, b: int)
    requires IsMessage(ps + qs, a, b) && b < |ps|
    ensures IsMessage(ps, a, b)
  {
    hide StartsMsg, EndsMsg;
    assert forall k :: 0 <= k < |ps| ==> (ps + qs)[k] == ps[k];
    assert forall k :: a <= k <= b ==> Ends(ps + qs, k) == Ends(ps, k);
  }

  /** A message that reaches into the packets sent last is all of them. */
  lemma StartsLast(ps: seq<Packet>, chunks: seq<Payload>, m: Sent, a: int, b: int)
    requires Delimited(ps) && m.no < MSG_LIMIT && b >= |ps|
    requires IsMessage(ps + Packets(chunks, m.no, m.order), a, b)
    ensures a == |ps| && b == |ps + Packets(chunks, m.no, m.order)| - 1 && b >= a
  {
    hide Compose, StartsMsg, EndsMsg, OrderFlag;
    var all := ps + Packets(chunks, m.no, m.order);
    assert |ps| > 0 ==> Follows(ps, |ps| - 1);
    assert |ps| > 0 ==> Ends(all, |ps| - 1);
    assert a >= |ps|;
    PacketsFlags(chunks, m.no, m.order, a - |ps|);
    PacketsFlags(chunks, m.no, m.order, b - |ps|);
  }

  lemma LastMessage(ps: seq<Packet>, m: Sent, mss: int)
    requires mss > 0 && m.no < MSG_LIMIT
    ensures var qs := Packets(Chunks(m.data, mss), m.no, m.order); var all := ps + qs;
      Concat(Datas(all[|ps|..])) == m.data && forall k :: |ps| <= k < |all| ==> OrderFlag(all[k].word) == m.order
  {
    hide Compose, StartsMsg, EndsMsg, OrderFlag, Chunks, Concat;
    var chunks := Chunks(m.data, mss);
    var qs := Packets(chunks, m.no, m.order);
    var all := ps + qs;
    assert all[|ps|..] == qs;
    assert Datas(qs) == chunks;
    ChunksCut(m.data, mss);
    forall k | |ps| <= k < |all| ensures OrderFlag(all[k].word) == m.order {
      PacketsFlags(chunks, m.no, m.order, k - |ps|);
    }
  }
}
