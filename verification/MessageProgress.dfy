/** Whether all messages can be read: a ring of `size` slots, in which a message
    of as many packets never fits. */
module MessageProgress {
  import opened ByteStream
  import opened LossNodes
  import opened PacketHeader
  import opened Messages
  import opened Reassembly
  import opened MessageRuns

  datatype Call =
    | Submit(msg: Sent)
    | Come(x: int)
    | Confirm(n: nat)
    | Take(len: int)

  /** The message has fewer packets than the ring has slots. */
  ghost predicate Fits(sent: seq<Sent>, m: int, mss: int, size: int)
    requires mss > 0
  {
    0 <= m < |sent| && |Chunks(sent[m].data, mss)| < size
  }

  /** What every run keeps: the slots are within one lap, acknowledged ones are
      filled, and no message that was returned is too long. */
  ghost predicate RingOk(s: State, isn: int, mss: int, size: int)
    requires mss > 0
  {
    && Inv(s, isn, mss) && isn <= s.readIdx <= s.ackIdx
    && (forall i :: i in s.c ==> s.readIdx <= i < s.readIdx + size - 1)
    && (forall i :: s.readIdx <= i < s.ackIdx ==> i in s.c)
    && forall k :: 0 <= k < |s.got| ==> Fits(s.sent, s.got[k], mss, size)
  }

  /** `read` says what readMsg() does in every state. */
  ghost predicate Honest(read: (State, int) -> State, isn: int, mss: int, size: int)
    requires mss > 0
  {
    forall s, len :: RingOk(s, isn, mss, size) ==> Reads(s, read(s, len), len, isn, mss)
  }

  /** One call; one that is not possible changes nothing. */
  ghost function Do(read: (State, int) -> State, s: State, e: Call, isn: int, mss: int, size: int): State
    requires mss > 0
  {
    match e
    case Submit(m) => if m.no < MSG_LIMIT then s.(sent := s.sent + [m]) else s
    case Come(x) =>
      var ps := Stream(s.sent, mss);
      if s.ackIdx <= x < s.readIdx + size - 1 && x !in s.c && 0 <= x - isn < |ps|
      then s.(c := s.c[x := Held(ps[x - isn].data, ps[x - isn].word, 1)]) else s
    case Confirm(n) =>
      if forall i :: s.ackIdx <= i < s.ackIdx + n ==> i in s.c then s.(ackIdx := s.ackIdx + n) else s
    case Take(len) => read(s, len)
  }

  ghost function After(read: (State, int) -> State, s: State, es: seq<Call>, isn: int, mss: int, size: int): State
    requires mss > 0
  {
    if |es| == 0 then s
    else Do(read, After(read, s, es[..|es| - 1], isn, mss, size), es[|es| - 1], isn, mss, size)
  }

  // ----- every call keeps the ring in order -----

  /** What a read does to the rest of the state. */
  lemma ReadFacts(s: State, t: State, len: int, isn: int, mss: int)
    requires mss > 0 && Inv(s, isn, mss) && Reads(s, t, len, isn, mss)
    ensures Inv(t, isn, mss) && t.sent == s.sent && t.ackIdx == s.ackIdx && s.readIdx <= t.readIdx <= s.ackIdx
    ensures forall i :: i in t.c <==> i in s.c && t.readIdx <= i
    ensures t.got == s.got || exists m :: t.got == s.got + [m]
  {
    var got, a, b, m, data :| ReadsAs(s, t, len, isn, mss, got, a, b, m, data);
    StepInv(s, if got then ReadOne(a, b, m, len) else ReadNone, t, isn, mss);
    hide Inv, Messaging, Readable, Pending, IsSent, OrderedAt, Skipped, NothingReadable, Stream, Cut, Concat, DatasOf;
  }

  /** Only a message that fits is readable. */
  lemma OneFits(s: State, a: int, b: int, m: int, isn: int, mss: int, size: int)
    requires mss > 0 && RingOk(s, isn, mss, size) && s.readIdx <= a && Readable(s.c, s.ackIdx, a, b)
    requires IsSent(s.sent, mss, a - isn, b - isn, m)
    ensures Fits(s.sent, m, mss, size)
  {
    hide Stream, Chunks, StartsMsg, EndsMsg, OrderFlag, Delimited, Accounted, Once, Fair, Faithful;
    ReadableIsShort(s.c, Stream(s.sent, mss), isn, s.ackIdx, s.readIdx, size, a, b);
    OffsetStep(s.sent, mss, m);
  }

  lemma ReadFits(s: State, t: State, len: int, isn: int, mss: int, size: int)
    requires mss > 0 && RingOk(s, isn, mss, size) && Reads(s, t, len, isn, mss)
    ensures forall k :: 0 <= k < |t.got| ==> Fits(t.sent, t.got[k], mss, size)
  {
    hide *;
    var got, a, b, m, data := ReadsParts(s, t, len, isn, mss);
    RingIs(s, isn, mss, size);
    if got { OneFits(s, a, b, m, isn, mss, size); }
  }

  lemma ReadsParts(s: State, t: State, len: int, isn: int, mss: int)
    returns (got: bool, a: int, b: int, m: int, data: Payload)
    requires mss > 0 && Reads(s, t, len, isn, mss)
    ensures t.sent == s.sent && t.got == if got then s.got + [m] else s.got
    ensures got ==> s.readIdx <= a && Readable(s.c, s.ackIdx, a, b) && IsSent(s.sent, mss, a - isn, b - isn, m)
    ensures !got ==> Skipped(t.c, s.ackIdx, t.readIdx)
    ensures !got ==> NothingReadable(s.c, s.ackIdx, s.readIdx) || s.readIdx == s.ackIdx
    ensures !got ==> forall i :: Pending(t.c, t.readIdx, i) <==> Pending(s.c, s.readIdx, i)
  {
    hide ReadsAs;
    got, a, b, m, data :| ReadsAs(s, t, len, isn, mss, got, a, b, m, data);
    AsParts(s, t, len, isn, mss, got, a, b, m, data);
  }

  lemma AsParts(
    s: State, t: State, len: int, isn: int, mss: int, got: bool, a: int, b: int, m: int, data: Payload)
    requires mss > 0 && ReadsAs(s, t, len, isn, mss, got, a, b, m, data)
    ensures t.sent == s.sent && t.got == if got then s.got + [m] else s.got
    ensures got ==> s.readIdx <= a && Readable(s.c, s.ackIdx, a, b) && IsSent(s.sent, mss, a - isn, b - isn, m)
    ensures !got ==> Skipped(t.c, s.ackIdx, t.readIdx)
    ensures !got ==> NothingReadable(s.c, s.ackIdx, s.readIdx) || s.readIdx == s.ackIdx
    ensures !got ==> forall i :: Pending(t.c, t.readIdx, i) <==> Pending(s.c, s.readIdx, i)
  {
    hide Messaging, Readable, Pending, IsSent, OrderedAt, Skipped, NothingReadable, Stream, Cut, Concat, DatasOf;
  }

  lemma RingIs(s: State, isn: int, mss: int, size: int)
    requires mss > 0
    ensures RingOk(s, isn, mss, size) <==>
      && Inv(s, isn, mss) && isn <= s.readIdx <= s.ackIdx
      && (forall i :: i in s.c ==> s.readIdx <= i < s.readIdx + size - 1)
      && (forall i :: s.readIdx <= i < s.ackIdx ==> i in s.c)
      && forall k :: 0 <= k < |s.got| ==> Fits(s.sent, s.got[k], mss, size)
  {
    hide Inv, Fits;
  }

  lemma FitsStill(sent: seq<Sent>, m: Sent, k: int, mss: int, size: int)
    requires mss > 0 && Fits(sent, k, mss, size)
    ensures Fits(sent + [m], k, mss, size)
  {
  }

  lemma SubmitKeeps(s: State, m: Sent, isn: int, mss: int, size: int)
    requires mss > 0 && RingOk(s, isn, mss, size) && m.no < MSG_LIMIT
    ensures RingOk(s.(sent := s.sent + [m]), isn, mss, size)
  {
    hide Inv, Fits;
    SendInv(s, m, isn, mss);
    forall k | 0 <= k < |s.got| ensures Fits(s.sent + [m], s.got[k], mss, size) {
      FitsStill(s.sent, m, s.got[k], mss, size);
    }
  }

  lemma ReadKeeps(s: State, t: State, len: int, isn: int, mss: int, size: int)
    requires mss > 0 && RingOk(s, isn, mss, size) && Reads(s, t, len, isn, mss)
    ensures RingOk(t, isn, mss, size)
  {
    hide *;
    RingIs(s, isn, mss, size);
    RingIs(t, isn, mss, size);
    ReadFacts(s, t, len, isn, mss);
    ReadFits(s, t, len, isn, mss, size);
  }

  /** What was sent and returned stays so. */
  ghost predicate Further(s: State, t: State) { s.sent <= t.sent && s.got <= t.got }

  lemma DoKeeps(read: (State, int) -> State, s: State, e: Call, isn: int, mss: int, size: int)
    requires mss > 0 && Honest(read, isn, mss, size) && RingOk(s, isn, mss, size)
    ensures RingOk(Do(read, s, e, isn, mss, size), isn, mss, size) && Further(s, Do(read, s, e, isn, mss, size))
    ensures !e.Submit? ==> Do(read, s, e, isn, mss, size).sent == s.sent
  {
    hide Inv, Fits, Stream, Reads;
    match e
    case Submit(m) => if m.no < MSG_LIMIT { SubmitKeeps(s, m, isn, mss, size); }
    case Come(x) =>
      var t := Do(read, s, e, isn, mss, size);
      if t != s { ArriveInv(s, x, isn, mss); }
    case Confirm(n) =>
      var t := Do(read, s, e, isn, mss, size);
      if t != s { AckInv(s, n, isn, mss); }
    case Take(len) =>
      ReadKeeps(s, read(s, len), len, isn, mss, size);
      ReadFacts(s, read(s, len), len, isn, mss);
  }

  lemma AckInv(s: State, n: nat, isn: int, mss: int)
    requires mss > 0 && Inv(s, isn, mss)
    ensures Inv(s.(ackIdx := s.ackIdx + n), isn, mss)
  {
    StepInv(s, Ack(n), s.(ackIdx := s.ackIdx + n), isn, mss);
  }

  lemma {:induction false} RunRing(
    read: (State, int) -> State, s: State, es: seq<Call>, isn: int, mss: int, size: int)
    requires mss > 0 && Honest(read, isn, mss, size) && RingOk(s, isn, mss, size)
    ensures var t := After(read, s, es, isn, mss, size); RingOk(t, isn, mss, size) && Further(s, t)
  {
    hide RingOk, Honest, Do;
    if |es| > 0 {
      var some := es[..|es| - 1];
      RunRing(read, s, some, isn, mss, size);
      DoKeeps(read, After(read, s, some, isn, mss, size), es[|es| - 1], isn, mss, size);
    }
  }

  lemma StartRing(isn: int, mss: int, size: int)
    requires mss > 0
    ensures RingOk(State(map[], isn, isn, [], [], []), isn, mss, size)
  {
    hide Inv;
    StartInv(isn, mss);
  }

  // ----- a message that does not fit blocks -----

  ghost predicate AllReturned(s: State, t: State) {
    forall m :: 0 <= m < |s.sent| && s.sent[m].data != [] ==> m in t.got
  }

  lemma TooLongStays(read: (State, int) -> State, s: State, es: seq<Call>, m: int, isn: int, mss: int, size: int)
    requires mss > 0 && Honest(read, isn, mss, size) && RingOk(s, isn, mss, size)
    requires 0 <= m < |s.sent| && !Fits(s.sent, m, mss, size)
    ensures m !in After(read, s, es, isn, mss, size).got
  {
    hide Inv, After, Honest;
    RunRing(read, s, es, isn, mss, size);
  }

  // ----- where a message is in the stream -----

  /** The slots of message m. */
  ghost function Begin(sent: seq<Sent>, mss: int, isn: int, m: int): int
    requires mss > 0 && 0 <= m <= |sent|
  {
    isn + Offset(sent, mss, m)
  }

  lemma {:induction false} StreamAt(sent: seq<Sent>, mss: int, m: int, k: int)
    requires mss > 0 && 0 <= m < |sent| && 0 <= k < |Chunks(sent[m].data, mss)|
    ensures var i := Offset(sent, mss, m) + k;
      && 0 <= i < |Stream(sent, mss)|
      && Stream(sent, mss)[i] == Packets(Chunks(sent[m].data, mss), sent[m].no, sent[m].order)[k]
    decreases |sent|
  {
    hide Packets, Chunks;
    var n := |sent| - 1;
    assert sent[..n][..m] == sent[..m];
    if m < n { StreamAt(sent[..n], mss, m, k); }
  }

  /** Every packet before those of message m is one of an earlier message. */
  lemma {:induction false} CarrierOf(sent: seq<Sent>, mss: int, m: int, i: int) returns (j: int)
    requires mss > 0 && 0 <= m <= |sent| && 0 <= i < Offset(sent, mss, m)
    ensures 0 <= j < m && Offset(sent, mss, j) <= i < Offset(sent, mss, j + 1) && sent[j].data != []
    decreases m
  {
    hide Chunks;
    j := m - 1;
    assert sent[..0] == [];
    OffsetStep(sent, mss, j);
    if i < Offset(sent, mss, j) {
      j := CarrierOf(sent, mss, j, i);
    } else {
      NoChunks(sent[j].data, mss);
    }
  }

  lemma NoChunks(data: Payload, mss: int)
    requires mss > 0
    ensures |Chunks(data, mss)| == 0 <==> data == []
  {
  }

  /** The first message that waits to be returned. */
  ghost predicate IsNext(s: State, m: int) {
    && 0 <= m < |s.sent| && s.sent[m].data != [] && m !in s.got
    && forall j :: 0 <= j < m && s.sent[j].data != [] ==> j in s.got
  }

  lemma {:induction false} NextOf(s: State, n: nat) returns (m: int)
    requires n <= |s.sent| && forall j :: 0 <= j < n && s.sent[j].data != [] ==> j in s.got
    requires exists j :: 0 <= j < |s.sent| && s.sent[j].data != [] && j !in s.got
    ensures IsNext(s, m)
    decreases |s.sent| - n
  {
    if s.sent[n].data != [] && n !in s.got {
      m := n;
    } else {
      m := NextOf(s, n + 1);
    }
  }

  /** All its packets wait, and everything before it was read. */
  lemma Waiting(s: State, m: int, isn: int, mss: int, size: int)
    requires mss > 0 && RingOk(s, isn, mss, size) && IsNext(s, m)
    ensures var a, b := Begin(s.sent, mss, isn, m), Begin(s.sent, mss, isn, m + 1) - 1;
      && 0 <= m < |s.sent| && s.readIdx <= a <= b && b - a + 1 == |Chunks(s.sent[m].data, mss)|
      && (forall i :: a <= i <= b ==> Pending(s.c, s.readIdx, i))
      && (forall i :: s.readIdx <= i < a ==> WasRead(s.c, i))
  {
    hide Messaging, Stream, Chunks, Fits, Once, Fair, Faithful, Pending, WasRead;
    var a, b := Begin(s.sent, mss, isn, m), Begin(s.sent, mss, isn, m + 1) - 1;
    OffsetStep(s.sent, mss, m);
    forall i | a <= i <= b ensures Pending(s.c, s.readIdx, i) { assert Carries(s.sent, mss, isn, i, m); }
    PendingFrom(s.c, s.readIdx, a);
    forall i | s.readIdx <= i < a ensures WasRead(s.c, i) {
      var j := CarrierOf(s.sent, mss, m, i - isn);
      assert Carries(s.sent, mss, isn, i, j);
      PendingFrom(s.c, s.readIdx, i);
    }
  }

  lemma PendingFrom(c: Cells, r: int, i: int)
    ensures Pending(c, r, i) <==> r <= i && !WasRead(c, i)
  {
  }

  /** Once all its packets are there, they are a whole message. */
  lemma WholeAt(s: State, m: int, isn: int, mss: int, size: int)
    requires mss > 0 && RingOk(s, isn, mss, size) && IsNext(s, m)
    requires forall i :: Begin(s.sent, mss, isn, m) <= i < Begin(s.sent, mss, isn, m + 1) ==> i in s.c
    ensures WholeIn(s.c, Begin(s.sent, mss, isn, m), Begin(s.sent, mss, isn, m + 1) - 1)
  {
    Waiting(s, m, isn, mss, size);
    InvOf(s, isn, mss, size);
    hide RingOk, Inv, Stream, Chunks, StartsMsg, EndsMsg, Fits, Pending;
    var a, b := Begin(s.sent, mss, isn, m), Begin(s.sent, mss, isn, m + 1) - 1;
    forall i | a <= i <= b
      ensures NotRead(s.c, i) && (StartsAt(s.c, i) <==> i == a) && (EndsAt(s.c, i) <==> i == b)
    {
      assert Pending(s.c, s.readIdx, i);
      CellOf(s, m, i, isn, mss);
    }
  }

  /** A packet of message m that is there and was not read. */
  lemma CellOf(s: State, m: int, i: int, isn: int, mss: int)
    requires mss > 0 && Inv(s, isn, mss) && 0 <= m < |s.sent| && i in s.c && Pending(s.c, s.readIdx, i)
    requires 0 <= i - Begin(s.sent, mss, isn, m) < |Chunks(s.sent[m].data, mss)|
    ensures var k, x := i - Begin(s.sent, mss, isn, m), s.sent[m];
      && NotRead(s.c, i) && (StartsAt(s.c, i) <==> k == 0)
      && (EndsAt(s.c, i) <==> k == |Chunks(x.data, mss)| - 1)
  {
    hide Stream, Chunks, Packets, StartsMsg, EndsMsg, OrderFlag, Delimited, Once, Fair, Faithful, Accounted;
    var x, k := s.sent[m], i - Begin(s.sent, mss, isn, m);
    assert x in s.sent;
    StreamAt(s.sent, mss, m, k);
    PacketsFlags(Chunks(x.data, mss), x.no, x.order, k);
    assert PacketAt(s.c[i], Stream(s.sent, mss), i - isn);
  }

  // ----- a run that returns one more message -----

  ghost predicate Leads(read: (State, int) -> State, s: State, t: State, isn: int, mss: int, size: int)
    requires mss > 0
  {
    exists es :: After(read, s, es, isn, mss, size) == t
  }

  lemma Stay(read: (State, int) -> State, s: State, isn: int, mss: int, size: int)
    requires mss > 0
    ensures Leads(read, s, s, isn, mss, size)
  {
    assert After(read, s, [], isn, mss, size) == s;
  }

  lemma {:induction false} AfterJoin(
    read: (State, int) -> State, s: State, es: seq<Call>, more: seq<Call>, isn: int, mss: int, size: int)
    requires mss > 0
    ensures After(read, s, es + more, isn, mss, size) ==
      After(read, After(read, s, es, isn, mss, size), more, isn, mss, size)
    decreases |more|
  {
    hide Do;
    if |more| == 0 {
      assert es + more == es;
    } else {
      var last := |more| - 1;
      assert (es + more)[..|es + more| - 1] == es + more[..last];
      AfterJoin(read, s, es, more[..last], isn, mss, size);
    }
  }

  /** One more call. */
  lemma Go(read: (State, int) -> State, s: State, t: State, e: Call, isn: int, mss: int, size: int)
    requires mss > 0 && Leads(read, s, t, isn, mss, size)
    ensures Leads(read, s, Do(read, t, e, isn, mss, size), isn, mss, size)
  {
    hide Do;
    var es :| After(read, s, es, isn, mss, size) == t;
    AfterJoin(read, s, es, [e], isn, mss, size);
    assert [e][..0] == [] && After(read, t, [], isn, mss, size) == t;
    assert After(read, t, [e], isn, mss, size) == Do(read, t, e, isn, mss, size);
  }

  lemma Join(read: (State, int) -> State, s: State, t: State, u: State, isn: int, mss: int, size: int)
    requires mss > 0 && Leads(read, s, t, isn, mss, size) && Leads(read, t, u, isn, mss, size)
    ensures Leads(read, s, u, isn, mss, size)
  {
    hide Do;
    var es :| After(read, s, es, isn, mss, size) == t;
    var more :| After(read, t, more, isn, mss, size) == u;
    AfterJoin(read, s, es, more, isn, mss, size);
  }

  /** Everything below `x` is there and is acknowledged. */
  lemma AckTo(read: (State, int) -> State, s: State, x: int, isn: int, mss: int, size: int) returns (t: State)
    requires mss > 0 && Honest(read, isn, mss, size) && RingOk(s, isn, mss, size)
    requires forall i :: s.readIdx <= i < x ==> i in s.c
    ensures Leads(read, s, t, isn, mss, size) && RingOk(t, isn, mss, size)
    ensures t == s.(ackIdx := t.ackIdx) && x <= t.ackIdx
  {
    hide Inv, Fits, After, Honest, Leads;
    t := s;
    Stay(read, s, isn, mss, size);
    if s.ackIdx < x {
      var e := Confirm(x - s.ackIdx);
      t := Do(read, s, e, isn, mss, size);
      Go(read, s, s, e, isn, mss, size);
      DoKeeps(read, s, e, isn, mss, size);
    }
  }

  /** The packets of message m from `x` on arrive. */
  lemma {:induction false} Fill(
    read: (State, int) -> State, s: State, m: int, x: int, isn: int, mss: int, size: int)
    returns (t: State)
    requires mss > 0 && Honest(read, isn, mss, size) && RingOk(s, isn, mss, size)
    requires IsNext(s, m) && Fits(s.sent, m, mss, size) && s.readIdx == Begin(s.sent, mss, isn, m)
    requires s.readIdx <= x <= Begin(s.sent, mss, isn, m + 1) && forall i :: s.readIdx <= i < x ==> i in s.c
    ensures Leads(read, s, t, isn, mss, size) && RingOk(t, isn, mss, size) && t == s.(c := t.c)
    ensures forall i :: s.readIdx <= i < Begin(s.sent, mss, isn, m + 1) ==> i in t.c
    decreases Begin(s.sent, mss, isn, m + 1) - x
  {
    hide Inv, After, Honest, Leads, Stream, Chunks;
    t := s;
    Stay(read, s, isn, mss, size);
    if x < Begin(s.sent, mss, isn, m + 1) {
      OffsetStep(s.sent, mss, m);
      StreamAt(s.sent, mss, m, x - s.readIdx);
      var u := Do(read, s, Come(x), isn, mss, size);
      Go(read, s, s, Come(x), isn, mss, size);
      DoKeeps(read, s, Come(x), isn, mss, size);
      t := Fill(read, u, m, x + 1, isn, mss, size);
      Join(read, s, u, t, isn, mss, size);
    }
  }

  /** A read that returns nothing leaves the read position at the first message
      that waits, if everything before it is acknowledged. */
  lemma SkipsTo(s: State, t: State, m: int, isn: int, mss: int, size: int)
    requires mss > 0 && RingOk(s, isn, mss, size) && IsNext(s, m) && Skipped(t.c, s.ackIdx, t.readIdx)
    requires Begin(s.sent, mss, isn, m) <= s.ackIdx && t.readIdx <= s.ackIdx
    requires forall i :: Pending(t.c, t.readIdx, i) <==> Pending(s.c, s.readIdx, i)
    ensures t.readIdx == Begin(s.sent, mss, isn, m)
  {
    Waiting(s, m, isn, mss, size);
    hide RingOk, Stream, Chunks;
    var a := Begin(s.sent, mss, isn, m);
    assert Pending(s.c, s.readIdx, a);
    assert Pending(t.c, t.readIdx, t.readIdx) == Pending(s.c, s.readIdx, t.readIdx);
  }

  /** A read when message m is there and acknowledged. */
  lemma MustReturn(s: State, t: State, m: int, len: int, isn: int, mss: int, size: int)
    requires mss > 0 && RingOk(s, isn, mss, size) && IsNext(s, m) && Reads(s, t, len, isn, mss)
    requires s.readIdx <= Begin(s.sent, mss, isn, m) && s.readIdx < s.ackIdx
    requires WholeIn(s.c, Begin(s.sent, mss, isn, m), Begin(s.sent, mss, isn, m + 1) - 1)
    requires Begin(s.sent, mss, isn, m + 1) <= s.ackIdx
    ensures |t.got| == |s.got| + 1
  {
    hide RingOk, Stream, Chunks, Reads, WholeIn, OrderedAt, IsSent;
    var a, b := Begin(s.sent, mss, isn, m), Begin(s.sent, mss, isn, m + 1) - 1;
    assert Readable(s.c, s.ackIdx, a, b);
    var got, x, y, n, data := ReadsParts(s, t, len, isn, mss);
  }

  /** The next message that waits, or another one, is returned. */
  lemma ReturnOne(read: (State, int) -> State, s: State, m: int, isn: int, mss: int, size: int) returns (t: State)
    requires mss > 0 && Honest(read, isn, mss, size) && RingOk(s, isn, mss, size)
    requires IsNext(s, m) && Fits(s.sent, m, mss, size)
    ensures Leads(read, s, t, isn, mss, size) && RingOk(t, isn, mss, size)
    ensures t.sent == s.sent && |t.got| == |s.got| + 1
  {
    hide *;
    Waiting(s, m, isn, mss, size);
    ReadIn(s);
    var s1 := AckTo(read, s, Begin(s.sent, mss, isn, m), isn, mss, size);
    var s2 := read(s1, 0);
    ReadOnce(read, s, s1, isn, mss, size);
    var got, x, y, n, data := ReadsParts(s1, s2, 0, isn, mss);
    if got {
      t := s2;
    } else {
      SameNext(s, s1, m);
      SkipsTo(s1, s2, m, isn, mss, size);
      SameNext(s1, s2, m);
      t := FillAndRead(read, s2, m, isn, mss, size);
      Join(read, s, s2, t, isn, mss, size);
    }
  }

  lemma ReadIn(s: State)
    ensures forall i :: WasRead(s.c, i) ==> i in s.c
  {
  }

  lemma SameNext(s: State, t: State, m: int)
    requires IsNext(s, m) && t.sent == s.sent && t.got == s.got
    ensures IsNext(t, m)
  {
  }

  /** A read at the end of a run. */
  lemma ReadOnce(read: (State, int) -> State, s: State, t: State, isn: int, mss: int, size: int)
    requires mss > 0 && Honest(read, isn, mss, size) && RingOk(t, isn, mss, size)
    requires Leads(read, s, t, isn, mss, size)
    ensures var u := read(t, 0);
      && Leads(read, s, u, isn, mss, size) && RingOk(u, isn, mss, size) && Reads(t, u, 0, isn, mss)
      && u.sent == t.sent && u.readIdx <= t.ackIdx
  {
    hide RingOk, Leads, Reads;
    Go(read, s, t, Take(0), isn, mss, size);
    DoKeeps(read, t, Take(0), isn, mss, size);
    InvOf(t, isn, mss, size);
    ReadFacts(t, read(t, 0), 0, isn, mss);
  }

  lemma InvOf(s: State, isn: int, mss: int, size: int)
    requires mss > 0 && RingOk(s, isn, mss, size)
    ensures Inv(s, isn, mss)
  {
  }

  lemma FillAndRead(read: (State, int) -> State, s: State, m: int, isn: int, mss: int, size: int) returns (t: State)
    requires mss > 0 && Honest(read, isn, mss, size) && RingOk(s, isn, mss, size)
    requires IsNext(s, m) && Fits(s.sent, m, mss, size) && s.readIdx == Begin(s.sent, mss, isn, m)
    ensures Leads(read, s, t, isn, mss, size) && RingOk(t, isn, mss, size)
    ensures t.sent == s.sent && |t.got| == |s.got| + 1
  {
    hide *;
    Waiting(s, m, isn, mss, size);
    var s1 := Fill(read, s, m, s.readIdx, isn, mss, size);
    var s2 := AckTo(read, s1, Begin(s.sent, mss, isn, m + 1), isn, mss, size);
    Join(read, s, s1, s2, isn, mss, size);
    SameNext(s, s2, m);
    WholeAt(s2, m, isn, mss, size);
    t := read(s2, 0);
    ReadOnce(read, s, s2, isn, mss, size);
    MustReturn(s2, t, m, 0, isn, mss, size);
  }

  // ----- when all messages can be read -----

  /** Messages returned are messages sent, so there are no more of them. */
  lemma GotFew(s: State, isn: int, mss: int)
    requires mss > 0 && Inv(s, isn, mss)
    ensures |s.got| <= |s.sent|
  {
    hide Messaging, Accounted, Faithful, Numbered;
    assert forall k :: 0 <= k < |s.got| ==> InTurn(s.sent, s.got[k], s.got[..k]);
    OnceFew(s.got, |s.sent|);
  }

  lemma {:induction false} OnceFew(got: seq<int>, n: nat)
    requires Once(got) && forall k :: 0 <= k < |got| ==> 0 <= got[k] < n
    ensures |got| <= n
  {
    OnceCard(got);
    RangeCard(0, n - 1);
    SubsetCard((set m | m in got), Range(0, n - 1));
  }

  lemma {:induction false} OnceCard(got: seq<int>)
    requires Once(got)
    ensures |set m | m in got| == |got|
  {
    if |got| > 0 {
      var some, last := got[..|got| - 1], got[|got| - 1];
      OnceCard(some);
      assert (set m | m in got) == (set m | m in some) + {last};
    }
  }

  lemma SubsetCard(a: set<int>, b: set<int>)
    requires a <= b
    ensures |a| <= |b|
  {
    assert b == a + (b - a);
  }

  lemma {:induction false} ReturnAll(read: (State, int) -> State, s: State, isn: int, mss: int, size: int)
    returns (t: State)
    requires mss > 0 && Honest(read, isn, mss, size) && RingOk(s, isn, mss, size)
    requires forall m :: 0 <= m < |s.sent| && s.sent[m].data != [] ==> Fits(s.sent, m, mss, size)
    ensures Leads(read, s, t, isn, mss, size) && AllReturned(s, t)
    decreases |s.sent| - |s.got|
  {
    hide RingOk, Leads, Fits, Honest;
    if forall m :: 0 <= m < |s.sent| && s.sent[m].data != [] ==> m in s.got {
      t := s;
      Stay(read, s, isn, mss, size);
    } else {
      var m := NextOf(s, 0);
      var u := ReturnOne(read, s, m, isn, mss, size);
      InvOf(u, isn, mss, size);
      GotFew(u, isn, mss);
      t := ReturnAll(read, u, isn, mss, size);
      Join(read, s, u, t, isn, mss, size);
    }
  }

  /** From every state that a run reaches, some run returns all messages sent so
      far if and only if each of them has fewer packets than the ring has slots. */
  lemma AllCanBeReturned(read: (State, int) -> State, es: seq<Call>, isn: int, mss: int, size: int)
    requires mss > 0 && Honest(read, isn, mss, size)
    ensures var s := After(read, State(map[], isn, isn, [], [], []), es, isn, mss, size);
      (exists t :: Leads(read, s, t, isn, mss, size) && AllReturned(s, t)) <==>
      (forall m :: 0 <= m < |s.sent| && s.sent[m].data != [] ==> Fits(s.sent, m, mss, size))
  {
    hide RingOk, Honest, Fits, After, AllReturned;
    StartRing(isn, mss, size);
    RunRing(read, State(map[], isn, isn, [], [], []), es, isn, mss, size);
    var s := After(read, State(map[], isn, isn, [], [], []), es, isn, mss, size);
    if forall m :: 0 <= m < |s.sent| && s.sent[m].data != [] ==> Fits(s.sent, m, mss, size) {
      var t := ReturnAll(read, s, isn, mss, size);
    } else {
      var m :| 0 <= m < |s.sent| && s.sent[m].data != [] && !Fits(s.sent, m, mss, size);
      forall t | Leads(read, s, t, isn, mss, size) ensures !AllReturned(s, t) {
        NotAll(read, s, t, m, isn, mss, size);
      }
    }
  }

  lemma NotAll(read: (State, int) -> State, s: State, t: State, m: int, isn: int, mss: int, size: int)
    requires mss > 0 && Honest(read, isn, mss, size) && RingOk(s, isn, mss, size)
    requires 0 <= m < |s.sent| && s.sent[m].data != [] && !Fits(s.sent, m, mss, size)
    requires Leads(read, s, t, isn, mss, size)
    ensures !AllReturned(s, t)
  {
    hide RingOk, Honest, Fits, After;
    var es :| After(read, s, es, isn, mss, size) == t;
    TooLongStays(read, s, es, m, isn, mss, size);
  }

  // ----- there is always something readMsg() can do -----

  /** The first loop of scanMsg(), on the slots. */
  lemma {:induction false} SkipTo(c: Cells, r: int, k: int, ackIdx: int, ps: seq<Packet>, isn: int) returns (to: int)
    requires Messaging(From(c, k), k, ps, isn) && r <= k <= ackIdx
    requires (forall i :: i in c ==> r <= i) && forall i :: r <= i < ackIdx ==> i in c
    requires forall i :: r <= i < k ==> WasRead(c, i)
    ensures k <= to <= ackIdx && Messaging(From(c, to), to, ps, isn) && Skipped(From(c, to), ackIdx, to)
    ensures forall i :: r <= i < to ==> WasRead(c, i)
    decreases ackIdx - k
  {
    hide Messaging, StartsMsg;
    to := k;
    if k < ackIdx {
      FirstCase(From(c, k), k, ps, isn);
      FromNext(c, k);
      if WasRead(c, k) { to := SkipTo(c, r, k + 1, ackIdx, ps, isn); }
    }
  }

  /** Of all readable messages, the one that ends first. */
  lemma {:induction false} Earliest(c: Cells, ackIdx: int, r: int, x: int, y: int) returns (a: int, b: int)
    requires r <= x && Readable(c, ackIdx, x, y)
    ensures r <= a && Readable(c, ackIdx, a, b) && NoneReadable(c, ackIdx, r, b)
    decreases y - r
  {
    hide Readable;
    a, b := x, y;
    if !NoneReadable(c, ackIdx, r, y) {
      var u, v :| r <= u && v < y && Readable(c, ackIdx, u, v);
      ReadableAscends(c, ackIdx, u, v);
      a, b := Earliest(c, ackIdx, r, u, v);
    }
  }

  lemma ReadableAscends(c: Cells, ackIdx: int, a: int, b: int)
    requires Readable(c, ackIdx, a, b)
    ensures a <= b
  {
  }

  /** An unread message ends before the next one begins. */
  lemma {:induction false} EndBefore(c: Cells, r: int, k: int, a: int, ps: seq<Packet>, isn: int) returns (e: int)
    requires Messaging(c, r, ps, isn) && StartsAt(c, r) && r <= k < a && StartsAt(c, a)
    requires (forall i :: r <= i <= a ==> i in c) && (forall i :: r <= i <= k ==> NotRead(c, i))
    requires forall i :: r <= i < k ==> !EndsAt(c, i)
    ensures r <= e < a && WholeIn(c, r, e)
    decreases a - k
  {
    hide StartsMsg, EndsMsg, OrderFlag, Delimited;
    e := k;
    if !EndsAt(c, k) {
      Neighbours(c, ps, isn, k);
      assert PacketAt(c[k + 1], ps, k + 1 - isn);
      assert NotRead(c, k) && !StartsAt(c, k + 1) && !WasRead(c, k);
      assert Uniform(c, r);
      assert !WasRead(c, k + 1) && NotRead(c, k + 1);
      e := EndBefore(c, r, k + 1, a, ps, isn);
    }
  }

  lemma AckedWhole(c: Cells, ackIdx: int, a: int, b: int)
    requires WholeIn(c, a, b) && b < ackIdx
    ensures Readable(c, ackIdx, a, b)
  {
  }

  /** So among acknowledged slots the message that ends first is the first one. */
  lemma FirstOne(c: Cells, r: int, ackIdx: int, a: int, b: int, ps: seq<Packet>, isn: int)
    requires Messaging(c, r, ps, isn) && Skipped(c, ackIdx, r) && r <= a && b < ackIdx
    requires Readable(c, ackIdx, a, b) && NoneReadable(c, ackIdx, r, b)
    ensures a == r
  {
    hide Messaging, StartsMsg, EndsMsg, OrderFlag;
    if r < a {
      var e := EndBefore(c, r, r, a, ps, isn);
      AckedWhole(c, ackIdx, r, e);
    }
  }

  /** In every state readMsg() has an answer. */
  lemma CanRead(s: State, len: int, isn: int, mss: int, size: int) returns (t: State)
    requires mss > 0 && RingOk(s, isn, mss, size)
    ensures Reads(s, t, len, isn, mss)
  {
    hide *;
    var ps := Stream(s.sent, mss);
    RingParts(s, isn, mss, size);
    FromNone(s.c, s.readIdx);
    var r := SkipTo(s.c, s.readIdx, s.readIdx, s.ackIdx, ps, isn);
    var c := From(s.c, r);
    SkipViews(s.c, s.readIdx, r, s.ackIdx);
    FromSame(s.c, r);
    var found, x, y := Found(c, s.ackIdx, r);
    if found {
      var a, b := Earliest(c, s.ackIdx, r, x, y);
      t := Return(s, r, a, b, len, isn, mss);
    } else {
      t := s.(c := c, readIdx := r);
      IsReturn(s, t, len, isn, mss, false, 0, 0, 0, []);
    }
  }

  lemma RingParts(s: State, isn: int, mss: int, size: int)
    requires mss > 0 && RingOk(s, isn, mss, size)
    ensures Inv(s, isn, mss) && Messaging(s.c, s.readIdx, Stream(s.sent, mss), isn) && s.readIdx <= s.ackIdx
    ensures (forall i :: i in s.c ==> s.readIdx <= i) && forall i :: s.readIdx <= i < s.ackIdx ==> i in s.c
  {
    hide Messaging, Stream;
  }

  lemma Found(c: Cells, ackIdx: int, r: int) returns (found: bool, x: int, y: int)
    ensures if found then r <= x && Readable(c, ackIdx, x, y) else NothingReadable(c, ackIdx, r)
  {
    hide Readable;
    found, x, y := false, 0, 0;
    if a, b :| r <= a && Readable(c, ackIdx, a, b) {
      found, x, y := true, a, b;
    }
  }

  lemma IsReturn(
    s: State, t: State, len: int, isn: int, mss: int, got: bool, a: int, b: int, m: int, data: Payload)
    requires mss > 0 && s.readIdx <= t.readIdx <= s.ackIdx && SamePackets(s.c, t.c, t.readIdx)
    requires Messaging(t.c, t.readIdx, Stream(s.sent, mss), isn)
    requires t == State(t.c, t.readIdx, s.ackIdx, s.sent, s.got + if got then [m] else [],
                        s.out + if got then [Returned(len, data)] else [])
    requires forall i :: Pending(t.c, t.readIdx, i) <==> Pending(s.c, s.readIdx, i) && !(got && a <= i <= b)
    requires got ==> s.readIdx <= a && Readable(s.c, s.ackIdx, a, b)
    requires got ==> data == Cut(Concat(DatasOf(s.c, a, b + 1 - a)), len) && IsSent(s.sent, mss, a - isn, b - isn, m)
    requires got ==> forall i :: a <= i <= b ==> Pending(s.c, s.readIdx, i)
    requires got && OrderedAt(s.c, b) ==> forall i :: i < a ==> !Pending(s.c, s.readIdx, i)
    requires !got ==> data == [] && Skipped(t.c, s.ackIdx, t.readIdx) && NothingReadable(s.c, s.ackIdx, s.readIdx)
    ensures Reads(s, t, len, isn, mss)
  {
    hide Messaging, Stream, Pending, Readable, Cut, Concat, DatasOf, IsSent, OrderedAt, Skipped, NothingReadable;
    hide SamePackets;
    assert ReadsAs(s, t, len, isn, mss, got, a, b, m, data);
  }

  /** The earliest message is given up, if it is acknowledged, or marked. */
  lemma Return(s: State, r: int, a: int, b: int, len: int, isn: int, mss: int) returns (t: State)
    requires mss > 0 && Inv(s, isn, mss) && s.readIdx <= r <= s.ackIdx && r <= a
    requires Messaging(From(s.c, r), r, Stream(s.sent, mss), isn) && Skipped(From(s.c, r), s.ackIdx, r)
    requires Readable(From(s.c, r), s.ackIdx, a, b) && NoneReadable(From(s.c, r), s.ackIdx, r, b)
    requires forall i :: s.readIdx <= i < r ==> WasRead(s.c, i)
    ensures Reads(s, t, len, isn, mss)
  {
    hide *;
    var ps, c := Stream(s.sent, mss), From(s.c, r);
    SkipViews(s.c, s.readIdx, r, s.ackIdx);
    SkipReadable(s.c, r, s.ackIdx, a, b);
    MsgParts(c, s.ackIdx, a, b, r);
    MessageOf(s, isn, mss);
    var m := ReadableIsSent(s, a, b, isn, mss);
    ReadSame(s.c, r, a, b);
    ReadLeaves(c, r, a, b);
    var data := Cut(Concat(DatasOf(s.c, a, b + 1 - a)), len);
    if b < s.ackIdx {
      FirstOne(c, r, s.ackIdx, a, b, ps, isn);
      TakeKeeps(c, r, ps, isn, b);
      t := State(From(c, b + 1), b + 1, s.ackIdx, s.sent, s.got + [m], s.out + [Returned(len, data)]);
      NonePending(c, r);
    } else {
      MarkKeeps(c, r, ps, isn, a, b);
      t := State(Marked(c, a, b), r, s.ackIdx, s.sent, s.got + [m], s.out + [Returned(len, data)]);
    }
    IsReturn(s, t, len, isn, mss, true, a, b, m, data);
  }

  lemma MsgParts(c: Cells, ackIdx: int, a: int, b: int, r: int)
    requires Readable(c, ackIdx, a, b) && r <= a
    ensures WholeIn(c, a, b) && a <= b && (b >= ackIdx ==> !OrderedAt(c, b))
  {
  }

  lemma MessageOf(s: State, isn: int, mss: int)
    requires mss > 0 && Inv(s, isn, mss)
    ensures Numbered(s.sent) && Messaging(s.c, s.readIdx, Stream(s.sent, mss), isn)
  {
  }

  lemma NonePending(c: Cells, r: int)
    ensures forall i :: i < r ==> !Pending(c, r, i)
  {
  }

  /** So there is a reader. */
  lemma SomeHonest(isn: int, mss: int, size: int) returns (read: (State, int) -> State)
    requires mss > 0
    ensures Honest(read, isn, mss, size)
  {
    hide RingOk, Reads;
    forall s: State, len: int | RingOk(s, isn, mss, size) ensures Reads(s, Answer(s, len, isn, mss), len, isn, mss) {
      var t := CanRead(s, len, isn, mss, size);
    }
    read := (s: State, len: int) => Answer(s, len, isn, mss);
  }

  ghost function Answer(s: State, len: int, isn: int, mss: int): State {
    if mss > 0 && exists t :: Reads(s, t, len, isn, mss) then
      var t :| Reads(s, t, len, isn, mss); t
    else s
  }
}
