/** The message word of a data packet (UDT4/src/packet.cpp:308-324), as the
    send buffer composes it (UDT4/src/buffer.cpp:131-148). */
module PacketHeader {
  type Word = bv32

  const FIRST: Word := 0x8000_0000
  const LAST: Word := 0x4000_0000
  const ORDER: Word := 0x2000_0000
  const MSG_LIMIT: Word := 0x2000_0000   // message numbers have 29 bits

  function Compose(msgNo: Word, order: bool, first: bool, last: bool): Word {
    msgNo
    | (if order then ORDER else 0)
    | (if first then FIRST else 0)
    | (if last then LAST else 0)
  }

  function Boundary(w: Word): Word { w >> 30 }

  predicate OrderFlag(w: Word) { ((w >> 29) & 1) == 1 }

  function MsgSeq(w: Word): Word { w & 0x1FFF_FFFF }

  predicate StartsMsg(w: Word) { Boundary(w) > 1 }

  predicate EndsMsg(w: Word) { Boundary(w) == 1 || Boundary(w) == 3 }

  ghost predicate ReadsBack(msgNo: Word, order: bool, first: bool, last: bool) {
    var w := Compose(msgNo, order, first, last);
    && MsgSeq(w) == msgNo && OrderFlag(w) == order
    && StartsMsg(w) == first && EndsMsg(w) == last
  }

  lemma ComposeFits(msgNo: Word, order: bool, first: bool, last: bool)
    requires msgNo < MSG_LIMIT
    ensures ReadsBack(msgNo, order, first, last)
  {
  }

  /** The bits of the header word: ff, o and the message number. */
  lemma ComposeIs(msgNo: Word, order: bool, first: bool, last: bool)
    requires msgNo < 0x2000_0000
    ensures var w := Compose(msgNo, order, first, last);
      && (w & 0x8000_0000 != 0 <==> first) && (w & 0x4000_0000 != 0 <==> last)
      && (w & 0x2000_0000 != 0 <==> order) && w & 0x1FFF_FFFF == msgNo
  {
  }

  /** The fields of every packet of a message read back as written exactly
      while the running message number, which never wraps, is below 2^29. */
  lemma ComposeExact(msgNo: Word)
    ensures (forall order, first, last :: ReadsBack(msgNo, order, first, last)) <==> msgNo < MSG_LIMIT
  {
    if msgNo < MSG_LIMIT {
      forall order, first, last ensures ReadsBack(msgNo, order, first, last) {
        ComposeFits(msgNo, order, first, last);
      }
    } else {
      assert !ReadsBack(msgNo, false, false, false);
    }
  }

  lemma BoundaryCases(w: Word)
    ensures 0 <= Boundary(w) <= 3
    ensures StartsMsg(w) <==> Boundary(w) == 2 || Boundary(w) == 3
    ensures EndsMsg(w) <==> Boundary(w) == 1 || Boundary(w) == 3
  {
  }
}
