/** Whole messages among the slots of a receive buffer, by index of the packet
    stream (UDT4/src/buffer.cpp:539-693). */
module Reassembly {
  import opened ByteStream
  import opened PacketHeader
  import opened Messages

  /** What a slot holds; `flag` is 1, or 2 once read out of order. */
  datatype Held = Held(payload: Payload, word: Word, flag: int)
  type Cells = map<int, Held>

  ghost predicate NotRead(c: Cells, i: int) { i in c && c[i].flag == 1 }

  ghost predicate WasRead(c: Cells, i: int) { i in c && c[i].flag == 2 }

  ghost predicate StartsAt(c: Cells, i: int) { i in c && StartsMsg(c[i].word) }

  ghost predicate EndsAt(c: Cells, i: int) { i in c && EndsMsg(c[i].word) }

  ghost predicate OrderedAt(c: Cells, i: int) { i in c && OrderFlag(c[i].word) }

  // ----- what arrivals and reads keep -----

  /** The slots hold packets of the stream that starts at index `isn`. */
  ghost predicate FromStream(c: Cells, ps: seq<Packet>, isn: int) {
    Delimited(ps) && forall i :: i in c ==> PacketAt(c[i], ps, i - isn)
  }

  ghost predicate PacketAt(h: Held, ps: seq<Packet>, k: int) {
    0 <= k < |ps| && h.payload == ps[k].data && h.word == ps[k].word && 1 <= h.flag <= 2
  }

  /** Messages are read as a whole, or not at all. */
  ghost predicate Uniform(c: Cells, readIdx: int) {
    forall i :: WasRead(c, i) ==>
      && (!EndsAt(c, i) ==> WasRead(c, i + 1))
      && (!StartsAt(c, i) && readIdx < i ==> WasRead(c, i - 1))
  }

  /** The read position is not inside an unread message. */
  ghost predicate AtBoundary(c: Cells, readIdx: int, ps: seq<Packet>, isn: int) {
    0 <= readIdx - isn && (Begins(ps, readIdx - isn) || WasRead(c, readIdx))
  }

  ghost predicate Messaging(c: Cells, readIdx: int, ps: seq<Packet>, isn: int) {
    FromStream(c, ps, isn) && Uniform(c, readIdx) && AtBoundary(c, readIdx, ps, isn)
  }

  lemma Neighbours(c: Cells, ps: seq<Packet>, isn: int, i: int)
    requires FromStream(c, ps, isn) && i in c && i + 1 in c
    ensures EndsAt(c, i) <==> StartsAt(c, i + 1)
    ensures !EndsAt(c, i) ==> OrderedAt(c, i + 1) == OrderedAt(c, i)
  {
    assert PacketAt(c[i], ps, i - isn) && PacketAt(c[i + 1], ps, i + 1 - isn);
    assert Follows(ps, i - isn);
  }

  lemma CellSays(c: Cells, i: int)
    requires i in c
    ensures EndsAt(c, i) == EndsMsg(c[i].word) && StartsAt(c, i) == StartsMsg(c[i].word)
    ensures OrderedAt(c, i) == OrderFlag(c[i].word)
    ensures NotRead(c, i) == (c[i].flag == 1)
  {
  }

  lemma InCells(c: Cells, i: int)
    ensures NotRead(c, i) ==> i in c && c[i].flag == 1
  {
  }

  /** A message that is unread at one slot is unread at the next. */
  lemma WholeOrNot(c: Cells, readIdx: int, ps: seq<Packet>, isn: int, k: int)
    requires Messaging(c, readIdx, ps, isn) && readIdx <= k && NotRead(c, k) && !EndsAt(c, k) && k + 1 in c
    ensures NotRead(c, k + 1) && !StartsAt(c, k + 1)
  {
    Neighbours(c, ps, isn, k);
    assert PacketAt(c[k + 1], ps, k + 1 - isn);
    assert WasRead(c, k + 1) ==> WasRead(c, k + 1 - 1);
    hide StartsMsg, EndsMsg, OrderFlag;
  }

  /** Packets of the stream arrive in any order. */
  lemma ArrivalKeeps(c: Cells, readIdx: int, ps: seq<Packet>, isn: int, x: int)
    requires Messaging(c, readIdx, ps, isn) && x !in c && 0 <= x - isn < |ps|
    ensures Messaging(c[x := Held(ps[x - isn].data, ps[x - isn].word, 1)], readIdx, ps, isn)
  {
    hide StartsMsg, EndsMsg, Delimited;
    var d := c[x := Held(ps[x - isn].data, ps[x - isn].word, 1)];
    assert forall i :: WasRead(d, i) <==> WasRead(c, i);
    assert forall i :: i in c ==> EndsAt(d, i) == EndsAt(c, i) && StartsAt(d, i) == StartsAt(c, i);
    assert forall i :: i in d && i != x ==> i in c && d[i] == c[i];
  }

  /** Another message is sent. */
  lemma SendKeeps(c: Cells, readIdx: int, ps: seq<Packet>, qs: seq<Packet>, isn: int)
    requires Messaging(c, readIdx, ps, isn) && Delimited(qs)
    ensures Messaging(c, readIdx, ps + qs, isn)
  {
    DelimitedJoin(ps, qs);
    assert Begins(ps, readIdx - isn) ==> Begins(ps + qs, readIdx - isn) by { assert Begins(qs, 0); }
    forall i | i in c ensures PacketAt(c[i], ps + qs, i - isn) { assert PacketAt(c[i], ps, i - isn); }
  }

  /** The slot at the read position was read out of order before. */
  lemma SkipKeeps(c: Cells, readIdx: int, ps: seq<Packet>, isn: int)
    requires Messaging(c, readIdx, ps, isn) && WasRead(c, readIdx) && forall i :: i in c ==> readIdx <= i
    ensures Messaging(c - {readIdx}, readIdx + 1, ps, isn)
  {
    hide StartsMsg, EndsMsg;
    var k := readIdx - isn;
    assert PacketAt(c[readIdx], ps, k);
    assert Follows(ps, k);
    var d := c - {readIdx};
    assert forall i :: i in d ==> EndsAt(d, i) == EndsAt(c, i) && StartsAt(d, i) == StartsAt(c, i);
    assert forall i :: WasRead(d, i) <==> WasRead(c, i) && i != readIdx;
    assert EndsAt(c, readIdx) == EndsMsg(ps[k].word);
    if readIdx + 1 in c { Neighbours(c, ps, isn, readIdx); }
  }

  /** What the first slot can hold. */
  lemma FirstCase(c: Cells, readIdx: int, ps: seq<Packet>, isn: int)
    requires Messaging(c, readIdx, ps, isn) && readIdx in c && forall i :: i in c ==> readIdx <= i
    ensures (NotRead(c, readIdx) && StartsAt(c, readIdx)) || WasRead(c, readIdx)
    ensures WasRead(c, readIdx) ==> Messaging(c - {readIdx}, readIdx + 1, ps, isn)
  {
    assert PacketAt(c[readIdx], ps, readIdx - isn);
    if WasRead(c, readIdx) { SkipKeeps(c, readIdx, ps, isn); }
  }

  // ----- whole messages -----

  /** Slots a..b hold one whole unread message. */
  ghost predicate WholeIn(c: Cells, a: int, b: int) {
    && a <= b && (forall i :: a <= i <= b ==> NotRead(c, i))
    && StartsAt(c, a) && EndsAt(c, b) && (forall i :: a <= i < b ==> !EndsAt(c, i))
  }

  /** A message may be read when it is acknowledged as a whole, or when it may
      be delivered out of order. */
  ghost predicate Readable(c: Cells, ackIdx: int, a: int, b: int) {
    WholeIn(c, a, b) && (b < ackIdx || !OrderedAt(c, b))
  }

  ghost predicate NoneReadable(c: Cells, ackIdx: int, readIdx: int, k: int) {
    forall a, b :: readIdx <= a && b < k ==> !Readable(c, ackIdx, a, b)
  }

  /** The payloads of n slots from a on. */
  ghost function DatasOf(c: Cells, a: int, n: nat): seq<Payload> {
    seq(n, k requires 0 <= k < n => if a + k in c then c[a + k].payload else [])
  }

  /** A whole message in the slots is a message of the stream. */
  lemma WholeIsMessage(c: Cells, ps: seq<Packet>, isn: int, a: int, b: int)
    requires FromStream(c, ps, isn) && WholeIn(c, a, b)
    ensures IsMessage(ps, a - isn, b - isn)
    ensures DatasOf(c, a, b + 1 - a) == Datas(ps[a - isn..b + 1 - isn])
    ensures forall k :: a <= k <= b ==> OrderFlag(ps[k - isn].word) == OrderedAt(c, k)
  {
    hide StartsMsg, EndsMsg, OrderFlag, Delimited;
    forall i | a <= i <= b ensures i in c && PacketAt(c[i], ps, i - isn) && Ends(ps, i - isn) == EndsAt(c, i) {
      assert NotRead(c, i);
    }
    assert forall k :: a - isn <= k < b - isn ==> Ends(ps, k) == EndsAt(c, k + isn);
  }

  // ----- the scan for a readable message -----

  /** Slots a..k-1 are unread and begin a message, which ends in no slot before
      the last of them. */
  ghost predicate Open(c: Cells, a: int, k: int) {
    && a < k && StartsAt(c, a) && (forall i :: a <= i < k ==> NotRead(c, i))
    && (forall i :: a <= i < k - 1 ==> !EndsAt(c, i))
  }

  /** What scanMsg() knows before it looks at slot k: `p` is where the message
      around k begins, if `held`; that message may just have ended, when it has
      to wait for its acknowledgement. */
  ghost predicate ScanOk(c: Cells, ackIdx: int, readIdx: int, k: int, p: int, held: bool) {
    && readIdx <= k && NoneReadable(c, ackIdx, readIdx, k)
    && (held ==> readIdx <= p && Open(c, p, k) && (EndsAt(c, k - 1) ==> OrderedAt(c, k - 1) && ackIdx <= k - 1))
    && (!held ==> forall a :: readIdx <= a ==> !Open(c, a, k))
  }

  lemma ScanFrom(c: Cells, ackIdx: int, readIdx: int)
    ensures ScanOk(c, ackIdx, readIdx, readIdx, 0, false) && FrontOk(c, ackIdx, readIdx, readIdx, 0, false)
  {
    assert NoneReadable(c, ackIdx, readIdx, readIdx);
  }

  /** No message ends at a slot that is empty, read, or not an end. */
  lemma NoEnd(c: Cells, ackIdx: int, readIdx: int, k: int)
    requires NoneReadable(c, ackIdx, readIdx, k) && !(NotRead(c, k) && EndsAt(c, k))
    ensures NoneReadable(c, ackIdx, readIdx, k + 1)
  {
  }

  lemma OpenShrinks(c: Cells, a: int, k: int)
    requires Open(c, a, k + 1)
    ensures NotRead(c, k) && (a < k ==> Open(c, a, k) && !EndsAt(c, k - 1)) && (a == k ==> StartsAt(c, k))
  {
  }

  lemma WholeOpens(c: Cells, a: int, k: int)
    requires WholeIn(c, a, k) && a < k
    ensures Open(c, a, k) && !EndsAt(c, k - 1)
  {
  }

  lemma ScanHole(c: Cells, ackIdx: int, readIdx: int, k: int, p: int, held: bool)
    requires ScanOk(c, ackIdx, readIdx, k, p, held) && !NotRead(c, k)
    ensures ScanOk(c, ackIdx, readIdx, k + 1, p, false)
  {
    NoEnd(c, ackIdx, readIdx, k);
    hide NoneReadable;
    var next := k + 1;
    forall a | readIdx <= a ensures !Open(c, a, next) {
      if Open(c, a, next) { OpenShrinks(c, a, k); }
    }
  }

  /** A slot that neither begins nor ends a message. */
  lemma ScanMiddle(c: Cells, ps: seq<Packet>, isn: int, ackIdx: int, readIdx: int, k: int, p: int, held: bool)
    requires ScanOk(c, ackIdx, readIdx, k, p, held) && FromStream(c, ps, isn)
    requires NotRead(c, k) && !StartsAt(c, k) && !EndsAt(c, k)
    ensures ScanOk(c, ackIdx, readIdx, k + 1, p, held)
  {
    hide StartsAt, EndsAt, OrderedAt;
    NoEnd(c, ackIdx, readIdx, k);
    if held {
      assert NotRead(c, k - 1);
      Neighbours(c, ps, isn, k - 1);
    } else {
      var next := k + 1;
      forall a | readIdx <= a ensures !Open(c, a, next) {
        if Open(c, a, next) { OpenShrinks(c, a, k); }
      }
    }
  }

  /** A slot that begins a longer message. */
  lemma ScanBegin(c: Cells, ackIdx: int, readIdx: int, k: int, p: int, held: bool)
    requires ScanOk(c, ackIdx, readIdx, k, p, held) && NotRead(c, k) && StartsAt(c, k) && !EndsAt(c, k)
    ensures ScanOk(c, ackIdx, readIdx, k + 1, k, true)
  {
    hide StartsAt, EndsAt, OrderedAt;
    NoEnd(c, ackIdx, readIdx, k);
  }

  /** The end of a message whose beginning is missing. */
  lemma ScanTail(c: Cells, ackIdx: int, readIdx: int, k: int, p: int)
    requires ScanOk(c, ackIdx, readIdx, k, p, false) && NotRead(c, k) && !StartsAt(c, k) && EndsAt(c, k)
    ensures ScanOk(c, ackIdx, readIdx, k + 1, p, false)
  {
    hide StartsAt, EndsAt, OrderedAt;
    var next := k + 1;
    forall a | readIdx <= a ensures !Open(c, a, next) {
      if Open(c, a, next) { OpenShrinks(c, a, k); }
    }
    forall a, b | readIdx <= a && b < next ensures !Readable(c, ackIdx, a, b) {
      if b == k && a < k && WholeIn(c, a, b) { WholeOpens(c, a, b); }
    }
  }

  /** The end of a whole message that begins at q. */
  lemma ScanEnd(c: Cells, ps: seq<Packet>, isn: int, ackIdx: int, readIdx: int, k: int, p: int, held: bool, q: int)
    requires ScanOk(c, ackIdx, readIdx, k, p, held) && FromStream(c, ps, isn)
    requires NotRead(c, k) && EndsAt(c, k) && if StartsAt(c, k) then q == k else held && q == p
    ensures k < ackIdx || !OrderedAt(c, k) ==> Readable(c, ackIdx, q, k) && readIdx <= q
    ensures ackIdx <= k && OrderedAt(c, k) ==> ScanOk(c, ackIdx, readIdx, k + 1, q, true)
  {
    hide StartsAt, EndsAt, OrderedAt;
    if q != k {
      assert NotRead(c, k - 1);
      Neighbours(c, ps, isn, k - 1);
    }
    assert Open(c, q, k + 1);
    assert WholeIn(c, q, k);
  }

  lemma ScanOpen(c: Cells, ackIdx: int, readIdx: int, k: int, p: int, held: bool)
    requires ScanOk(c, ackIdx, readIdx, k, p, held)
    ensures held ==> readIdx <= p && Open(c, p, k)
    ensures !held ==> forall a :: readIdx <= a ==> !Open(c, a, k)
  {
  }

  /** At most one message is open at a slot. */
  lemma OpenUnique(c: Cells, ps: seq<Packet>, isn: int, a: int, b: int, k: int)
    requires FromStream(c, ps, isn) && Open(c, a, k) && Open(c, b, k) && a <= b
    ensures a == b
  {
    hide StartsAt, EndsAt, OrderedAt;
    if a < b {
      assert NotRead(c, b - 1) && NotRead(c, b);
      Neighbours(c, ps, isn, b - 1);
    }
  }

  /** An unread message fills all slots that can be filled and is not all
      acknowledged, and there is nothing to read. */
  ghost predicate FillsRing(c: Cells, ackIdx: int, readIdx: int, size: int) {
    NothingReadable(c, ackIdx, readIdx) && Open(c, readIdx, readIdx + size - 1) && ackIdx < readIdx + size - 1
  }

  lemma ReadableIsShort(c: Cells, ps: seq<Packet>, isn: int, ackIdx: int, readIdx: int, size: int, a: int, e: int)
    requires FromStream(c, ps, isn) && Readable(c, ackIdx, a, e)
    requires forall i :: i in c ==> readIdx <= i < readIdx + size - 1
    ensures IsMessage(ps, a - isn, e - isn) && e - a + 1 < size
  {
    WholeIsMessage(c, ps, isn, a, e);
    assert NotRead(c, a) && NotRead(c, e);
  }

  lemma OneEnd(ps: seq<Packet>, a: int, b: int, e: int)
    requires IsMessage(ps, a, b) && IsMessage(ps, a, e)
    ensures b == e
  {
  }

  /** A message of the stream with more packets than slots can be filled is
      never there as a whole, so it is never readable. */
  lemma TooLong(c: Cells, ps: seq<Packet>, isn: int, ackIdx: int, readIdx: int, size: int, a: int, b: int, e: int)
    requires FromStream(c, ps, isn) && IsMessage(ps, a - isn, b - isn) && b - a + 1 >= size
    requires forall i :: i in c ==> readIdx <= i < readIdx + size - 1
    ensures !Readable(c, ackIdx, a, e)
  {
    if Readable(c, ackIdx, a, e) {
      ReadableIsShort(c, ps, isn, ackIdx, readIdx, size, a, e);
      OneEnd(ps, a - isn, b - isn, e - isn);
    }
  }

  // ----- reading a message -----

  /** Slots a..b as a read out of order leaves them. */
  ghost function Marked(c: Cells, a: int, b: int): Cells {
    map i | i in c :: if a <= i <= b then c[i].(flag := 2) else c[i]
  }

  /** The slots from index `from` on. */
  ghost function From(c: Cells, from: int): Cells {
    map i | i in c && from <= i :: c[i]
  }

  /** Reading a message out of order. */
  lemma MarkKeeps(c: Cells, readIdx: int, ps: seq<Packet>, isn: int, a: int, b: int)
    requires Messaging(c, readIdx, ps, isn) && WholeIn(c, a, b)
    ensures Messaging(Marked(c, a, b), readIdx, ps, isn)
  {
    var d := Marked(c, a, b);
    hide StartsMsg, EndsMsg, OrderFlag, Delimited;
    assert forall i :: StartsAt(d, i) == StartsAt(c, i) && EndsAt(d, i) == EndsAt(c, i);
    forall i ensures WasRead(d, i) <==> WasRead(c, i) || a <= i <= b {
      if a <= i <= b { assert NotRead(c, i); }
    }
    if a - 1 in c { Neighbours(c, ps, isn, a - 1); }
    if b + 1 in c { Neighbours(c, ps, isn, b); }
    assert forall i :: a < i <= b ==> !StartsAt(c, i) by {
      forall i | a < i <= b ensures !StartsAt(c, i) {
        assert NotRead(c, i) && NotRead(c, i - 1);
        Neighbours(c, ps, isn, i - 1);
      }
    }
  }

  /** Reading the first message, whose slots are given up. */
  lemma TakeKeeps(c: Cells, readIdx: int, ps: seq<Packet>, isn: int, b: int)
    requires Messaging(c, readIdx, ps, isn) && WholeIn(c, readIdx, b)
    ensures Messaging(From(c, b + 1), b + 1, ps, isn)
  {
    var d := From(c, b + 1);
    hide StartsMsg, EndsMsg, OrderFlag, Delimited;
    assert forall i :: i > b ==> StartsAt(d, i) == StartsAt(c, i) && EndsAt(d, i) == EndsAt(c, i);
    assert forall i :: WasRead(d, i) <==> WasRead(c, i) && i > b;
    assert EndsAt(c, b) && PacketAt(c[b], ps, b - isn);
    assert Follows(ps, b - isn) by { Bounds(ps, b - isn); }
  }

  lemma Bounds(ps: seq<Packet>, k: int)
    requires Delimited(ps) && 0 <= k < |ps|
    ensures Follows(ps, k)
  {
  }

  lemma FromNone(c: Cells, readIdx: int)
    requires forall i :: i in c ==> readIdx <= i
    ensures From(c, readIdx) == c
  {
  }

  lemma FromNext(c: Cells, k: int)
    ensures From(c, k) - {k} == From(c, k + 1)
    ensures WasRead(From(c, k), k) <==> WasRead(c, k)
  {
  }

  ghost predicate NothingReadable(c: Cells, ackIdx: int, readIdx: int) {
    forall a, b :: readIdx <= a ==> !Readable(c, ackIdx, a, b)
  }

  /** While the scan is among acknowledged slots, it is within the first message. */
  ghost predicate FrontOk(c: Cells, ackIdx: int, readIdx: int, k: int, p: int, held: bool) {
    readIdx < k <= ackIdx ==> held && p == readIdx && !EndsAt(c, k - 1)
  }

  /** What scanMsg() may take for granted once its first loop is done. */
  ghost predicate Skipped(c: Cells, ackIdx: int, readIdx: int) {
    && (readIdx < ackIdx ==> NotRead(c, readIdx) && StartsAt(c, readIdx))
    && (forall k :: readIdx <= k < ackIdx ==> k in c)
  }

  lemma NothingToSkip(c: Cells, r: int)
    ensures Skipped(c, r, r)
  {
  }

  lemma FrontTurn(c: Cells, ps: seq<Packet>, isn: int, ackIdx: int, readIdx: int, k: int, p: int, held: bool)
    requires Messaging(c, readIdx, ps, isn) && Skipped(c, ackIdx, readIdx)
    requires ScanOk(c, ackIdx, readIdx, k, p, held) && FrontOk(c, ackIdx, readIdx, k, p, held)
    ensures k < ackIdx ==> NotRead(c, k)
    ensures k < ackIdx ==> if k == readIdx then StartsAt(c, k) else held && p == readIdx && !StartsAt(c, k)
  {
    hide StartsAt, EndsAt, OrderedAt;
    if readIdx < k < ackIdx {
      assert NotRead(c, k - 1);
      WholeOrNot(c, readIdx, ps, isn, k - 1);
    }
  }

  /** One turn of the second loop of scanMsg(). */
  lemma ScanTurn(c: Cells, ps: seq<Packet>, isn: int, ackIdx: int, readIdx: int, k: int, p: int, held: bool)
    requires Messaging(c, readIdx, ps, isn) && Skipped(c, ackIdx, readIdx)
    requires ScanOk(c, ackIdx, readIdx, k, p, held) && FrontOk(c, ackIdx, readIdx, k, p, held)
    ensures var q, found, held' := if NotRead(c, k) && StartsAt(c, k) then k else p,
        NotRead(c, k) && EndsAt(c, k) && (StartsAt(c, k) || held), NotRead(c, k) && (StartsAt(c, k) || held);
      if found && (k < ackIdx || !OrderedAt(c, k)) then
        && readIdx <= q && Readable(c, ackIdx, q, k) && NoneReadable(c, ackIdx, readIdx, k)
        && (k < ackIdx ==> q == readIdx)
      else ScanOk(c, ackIdx, readIdx, k + 1, q, held') && FrontOk(c, ackIdx, readIdx, k + 1, q, held')
  {
    hide StartsAt, EndsAt, OrderedAt, Open, NoneReadable, Messaging, Readable, NotRead;
    FrontTurn(c, ps, isn, ackIdx, readIdx, k, p, held);
    assert FromStream(c, ps, isn) by { MessagingIs(c, readIdx, ps, isn); }
    if !NotRead(c, k) {
      ScanHole(c, ackIdx, readIdx, k, p, held);
    } else if EndsAt(c, k) && (StartsAt(c, k) || held) {
      ScanEnd(c, ps, isn, ackIdx, readIdx, k, p, held, if StartsAt(c, k) then k else p);
    } else if EndsAt(c, k) {
      ScanTail(c, ackIdx, readIdx, k, p);
    } else if StartsAt(c, k) {
      ScanBegin(c, ackIdx, readIdx, k, p, held);
    } else {
      ScanMiddle(c, ps, isn, ackIdx, readIdx, k, p, held);
    }
  }

  lemma MessagingIs(c: Cells, readIdx: int, ps: seq<Packet>, isn: int)
    requires Messaging(c, readIdx, ps, isn)
    ensures FromStream(c, ps, isn)
  {
  }

  /** When the scan has passed all that is there, nothing can be read. */
  lemma ScanDone(c: Cells, ackIdx: int, readIdx: int, k: int, p: int, held: bool)
    requires ScanOk(c, ackIdx, readIdx, k, p, held) && forall i :: i in c ==> i < k
    ensures NothingReadable(c, ackIdx, readIdx)
  {
    forall a, b | readIdx <= a ensures !Readable(c, ackIdx, a, b) {
      assert b >= k ==> !NotRead(c, b);
    }
  }

  /** At most `len` bytes, all of them if `len` is negative. */
  ghost function Cut(all: Payload, len: int): Payload {
    if len < 0 || |all| <= len then all else all[..len]
  }

  lemma CutIs(all: Payload, len: int)
    ensures Cut(all, len) <= all && |Cut(all, len)| == if 0 <= len < |all| then len else |all|
  {
  }

  lemma CutStep(ds: seq<Payload>, p: Payload, len: int, data: Payload)
    requires data == Cut(Concat(ds), len)
    ensures var rs := len - |data|; var n := if rs >= 0 && |p| > rs then rs else |p|;
      data + p[..n] == Cut(Concat(ds + [p]), len)
  {
    ConcatSplit(ds, [p]);
    ConcatOne(p);
    hide Concat;
    assert p[..|p|] == p;
  }

  lemma DatasNext(c: Cells, a: int, n: nat)
    requires a + n in c
    ensures DatasOf(c, a, n + 1) == DatasOf(c, a, n) + [c[a + n].payload]
  {
  }

  lemma MarkNext(c: Cells, a: int, j: int)
    requires a <= j && j in c
    ensures Marked(c, a, j - 1)[j := c[j].(flag := 2)] == Marked(c, a, j)
    ensures Marked(c, a, a - 1) == c && j in Marked(c, a, j - 1) && Marked(c, a, j - 1)[j] == c[j]
  {
  }

  /** A packet of the stream that no read has returned yet. */
  ghost predicate Pending(c: Cells, readIdx: int, i: int) { readIdx <= i && !WasRead(c, i) }

  /** Giving up slots that were read before changes nothing else. */
  lemma SkipViews(c: Cells, readIdx: int, r: int, ackIdx: int)
    requires readIdx <= r && forall i :: readIdx <= i < r ==> WasRead(c, i)
    ensures forall i :: Pending(From(c, r), r, i) <==> Pending(c, readIdx, i)
    ensures forall a, b :: r <= a && Readable(From(c, r), ackIdx, a, b) ==> Readable(c, ackIdx, a, b)
    ensures forall b :: NoneReadable(From(c, r), ackIdx, r, b) ==> NoneReadable(c, ackIdx, readIdx, b)
    ensures NothingReadable(From(c, r), ackIdx, r) ==> NothingReadable(c, ackIdx, readIdx)
    ensures forall a, n :: r <= a ==> DatasOf(From(c, r), a, n) == DatasOf(c, a, n)
    ensures forall b :: r <= b ==> OrderedAt(From(c, r), b) == OrderedAt(c, b)
  {
    var d := From(c, r);
    forall i ensures Pending(d, r, i) <==> Pending(c, readIdx, i) { SkipPending(c, readIdx, r, i); }
    hide Pending;
    forall a, b | r <= a ensures Readable(d, ackIdx, a, b) <==> Readable(c, ackIdx, a, b) {
      SkipReadable(c, r, ackIdx, a, b);
    }
    forall a, b | readIdx <= a < r ensures !Readable(c, ackIdx, a, b) { NotWhole(c, a, b); }
    forall a, n | r <= a ensures DatasOf(d, a, n) == DatasOf(c, a, n) { SkipDatas(c, r, a, n); }
  }

  lemma SkipPending(c: Cells, readIdx: int, r: int, i: int)
    requires readIdx <= r && forall k :: readIdx <= k < r ==> WasRead(c, k)
    ensures Pending(From(c, r), r, i) <==> Pending(c, readIdx, i)
  {
  }

  lemma SkipReadable(c: Cells, r: int, ackIdx: int, a: int, b: int)
    requires r <= a
    ensures Readable(From(c, r), ackIdx, a, b) <==> Readable(c, ackIdx, a, b)
  {
    var d := From(c, r);
    hide OrderFlag, StartsMsg, EndsMsg;
    assert forall i :: r <= i ==> NotRead(d, i) == NotRead(c, i) && StartsAt(d, i) == StartsAt(c, i);
    assert forall i :: r <= i ==> EndsAt(d, i) == EndsAt(c, i) && OrderedAt(d, i) == OrderedAt(c, i);
  }

  lemma NotWhole(c: Cells, a: int, b: int)
    requires WasRead(c, a)
    ensures !WholeIn(c, a, b)
  {
    assert !NotRead(c, a);
  }

  lemma SkipDatas(c: Cells, r: int, a: int, n: nat)
    requires r <= a
    ensures DatasOf(From(c, r), a, n) == DatasOf(c, a, n)
  {
  }

  /** What reading message a..b leaves to be read. */
  lemma ReadLeaves(c: Cells, readIdx: int, a: int, b: int)
    requires WholeIn(c, a, b) && readIdx <= a
    ensures forall i :: Pending(Marked(c, a, b), readIdx, i) <==> Pending(c, readIdx, i) && !(a <= i <= b)
    ensures a == readIdx ==>
      forall i :: Pending(From(c, b + 1), b + 1, i) <==> Pending(c, readIdx, i) && !(a <= i <= b)
  {
    forall i
      ensures Pending(Marked(c, a, b), readIdx, i) <==> Pending(c, readIdx, i) && !(a <= i <= b)
      ensures a == readIdx ==> (Pending(From(c, b + 1), b + 1, i) <==> Pending(c, readIdx, i) && !(a <= i <= b))
    {
      if a <= i <= b { assert NotRead(c, i); }
    }
  }

  lemma CutNone(c: Cells, a: int, len: int)
    ensures Cut(Concat(DatasOf(c, a, 0)), len) == []
  {
  }

  lemma OrderNeedsAck(c: Cells, ackIdx: int, readIdx: int, a: int, b: int)
    requires Readable(c, ackIdx, a, b)
    ensures WholeIn(c, a, b) && a <= b && (OrderedAt(c, b) ==> b < ackIdx)
    ensures forall i :: i < readIdx ==> !Pending(c, readIdx, i)
  {
  }

  lemma MsgInside(c: Cells, a: int, b: int, j: int)
    requires WholeIn(c, a, b) && a <= j <= b
    ensures j in c
  {
    assert NotRead(c, j);
  }

  /** The slots from `from` on still hold the same packets, whatever their flags. */
  ghost predicate SamePackets(c: Cells, d: Cells, from: int) {
    forall i :: (i in d <==> i in c && from <= i) && (i in d ==> d[i].payload == c[i].payload && d[i].word == c[i].word)
  }

  lemma FromSame(c: Cells, from: int)
    ensures SamePackets(c, From(c, from), from)
  {
  }

  /** Marking slots or giving up more of them, after some have been given up. */
  lemma ReadSame(c: Cells, r: int, a: int, b: int)
    requires r <= b + 1
    ensures SamePackets(c, Marked(From(c, r), a, b), r) && SamePackets(c, From(From(c, r), b + 1), b + 1)
  {
  }

  /** What a call of readMsg() makes of slots `c` from `r` on: it returns the
      message in slots a..b, or nothing. */
  ghost predicate ReadsMsg(
    c: Cells, r: int, ackIdx: int, d: Cells, r': int, len: int, data: Payload, got: bool, a: int, b: int)
  {
    && r <= r' <= ackIdx && SamePackets(c, d, r')
    && (got ==> r <= a && Readable(c, ackIdx, a, b) && data == Cut(Concat(DatasOf(c, a, b + 1 - a)), len))
    && (!got ==> data == [])
    && (forall i :: Pending(d, r', i) <==> Pending(c, r, i) && !(got && a <= i <= b))
    && (got && OrderedAt(c, b) ==> forall i :: i < a ==> !Pending(c, r, i))
  }
}
