/** Runs in message mode: calls of sendmsg(), arrivals, acknowledgements and
    calls of readMsg() in any order.  MessageEnd.dfy shows that the methods of
    the receive buffer are these steps. */
module MessageRuns {
  import opened ByteStream
  import opened PacketHeader
  import opened Messages
  import opened Reassembly

  /** What a read was asked for and what it returned. */
  datatype Returned = Returned(len: int, data: Payload)

  /** `got` lists the messages that reads have returned, by their place in
      `sent`, and `out` what was returned of them. */
  datatype State = State(
    c: Cells, readIdx: int, ackIdx: int, sent: seq<Sent>, got: seq<int>, out: seq<Returned>)

  datatype Action =
    | Send(msg: Sent)
    | Arrive(x: int)
    | Ack(n: nat)
    | ReadOne(a: int, b: int, m: int, len: int)
    | ReadNone

  ghost predicate SlotsKept(s: State, t: State, isn: int, mss: int)
    requires mss > 0
  {
    Messaging(t.c, t.readIdx, Stream(t.sent, mss), isn) && t.ackIdx == s.ackIdx && t.sent == s.sent
  }

  ghost predicate Step(s: State, e: Action, t: State, isn: int, mss: int)
    requires mss > 0
  {
    match e
    case Send(m) => m.no < MSG_LIMIT && t == s.(sent := s.sent + [m])
    case Arrive(x) =>
      var ps := Stream(s.sent, mss);
      && s.readIdx <= x && x !in s.c && 0 <= x - isn < |ps|
      && t == s.(c := s.c[x := Held(ps[x - isn].data, ps[x - isn].word, 1)])
    case Ack(n) => t == s.(ackIdx := s.ackIdx + n)
    case ReadOne(a, b, m, len) =>
      && SlotsKept(s, t, isn, mss) && Readable(s.c, s.ackIdx, a, b) && IsSent(s.sent, mss, a - isn, b - isn, m)
      && (forall i :: Pending(t.c, t.readIdx, i) <==> Pending(s.c, s.readIdx, i) && !(a <= i <= b))
      && (forall i :: a <= i <= b ==> Pending(s.c, s.readIdx, i))
      && (OrderedAt(s.c, b) ==> forall i :: i < a ==> !Pending(s.c, s.readIdx, i))
      && t.got == s.got + [m] && t.out == s.out + [Returned(len, Cut(Concat(DatasOf(s.c, a, b + 1 - a)), len))]
    case ReadNone =>
      && SlotsKept(s, t, isn, mss) && t.got == s.got && t.out == s.out
      && forall i :: Pending(t.c, t.readIdx, i) <==> Pending(s.c, s.readIdx, i)
  }

  /** A call of readMsg(): it returns message m from slots a..b, or nothing; then
      nothing is readable, unless the buffer is taken for empty, and slots that
      were read are given up as far as they are acknowledged. */
  ghost predicate ReadsAs(
    s: State, t: State, len: int, isn: int, mss: int, got: bool, a: int, b: int, m: int, data: Payload)
    requires mss > 0
  {
    && ReadsMsg(s.c, s.readIdx, s.ackIdx, t.c, t.readIdx, len, data, got, a, b)
    && Step(s, if got then ReadOne(a, b, m, len) else ReadNone, t, isn, mss)
    && (!got ==> Skipped(t.c, s.ackIdx, t.readIdx)
                 && (NothingReadable(s.c, s.ackIdx, s.readIdx) || s.readIdx == s.ackIdx))
  }

  ghost predicate Reads(s: State, t: State, len: int, isn: int, mss: int)
    requires mss > 0
  {
    exists got, a, b, m, data :: ReadsAs(s, t, len, isn, mss, got, a, b, m, data)
  }

  /** Where the packets of message m begin. */
  ghost function Offset(sent: seq<Sent>, mss: int, m: int): int
    requires mss > 0 && 0 <= m <= |sent|
  {
    |Stream(sent[..m], mss)|
  }

  /** Index i carries a packet of message m. */
  ghost predicate Carries(sent: seq<Sent>, mss: int, isn: int, i: int, m: int)
    requires mss > 0
  {
    0 <= m < |sent| && Offset(sent, mss, m) <= i - isn < Offset(sent, mss, m + 1)
  }

  /** A packet is waiting to be read exactly while its message is. */
  ghost predicate Accounted(s: State, isn: int, mss: int)
    requires mss > 0
  {
    forall i, m :: Carries(s.sent, mss, isn, i, m) ==> (Pending(s.c, s.readIdx, i) <==> m !in s.got)
  }

  /** No message twice. */
  ghost predicate Once(got: seq<int>) {
    forall j, k :: 0 <= j < k < |got| ==> got[j] != got[k]
  }

  /** Message m may come after the messages `before`: if it is to be in order,
      nothing sent before it is missing. */
  ghost predicate InTurn(sent: seq<Sent>, m: int, before: seq<int>) {
    0 <= m < |sent| && (sent[m].order ==> forall j :: 0 <= j < m && sent[j].data != [] ==> j in before)
  }

  ghost predicate Fair(s: State) {
    forall k :: 0 <= k < |s.got| ==> InTurn(s.sent, s.got[k], s.got[..k])
  }

  /** Every read returned its message, byte for byte, cut to what was asked for. */
  ghost predicate Faithful(s: State) {
    && |s.out| == |s.got|
    && forall k :: 0 <= k < |s.got| ==> Gives(s.sent, s.got[k], s.out[k])
  }

  ghost predicate Gives(sent: seq<Sent>, m: int, r: Returned) {
    0 <= m < |sent| && r.data == Cut(sent[m].data, r.len)
  }

  ghost predicate Inv(s: State, isn: int, mss: int)
    requires mss > 0
  {
    && Numbered(s.sent) && Messaging(s.c, s.readIdx, Stream(s.sent, mss), isn)
    && Accounted(s, isn, mss) && Once(s.got) && Fair(s) && Faithful(s)
  }

  // ----- where messages are in the stream -----

  lemma OffsetStep(sent: seq<Sent>, mss: int, m: int)
    requires mss > 0 && 0 <= m < |sent|
    ensures Offset(sent, mss, m + 1) == Offset(sent, mss, m) + |Chunks(sent[m].data, mss)|
    ensures sent[m].data != [] ==> Offset(sent, mss, m) < Offset(sent, mss, m + 1)
  {
    var up := sent[..m + 1];
    assert up[..|up| - 1] == sent[..m] && up[|up| - 1] == sent[m];
  }

  lemma {:induction false} OffsetMono(sent: seq<Sent>, mss: int, j: int, m: int)
    requires mss > 0 && 0 <= j <= m <= |sent|
    ensures Offset(sent, mss, j) <= Offset(sent, mss, m)
    decreases m
  {
    if j < m {
      OffsetMono(sent, mss, j, m - 1);
      OffsetStep(sent, mss, m - 1);
    }
  }

  /** An index carries a packet of one message only. */
  lemma CarriesOne(sent: seq<Sent>, mss: int, isn: int, i: int, j: int, m: int)
    requires mss > 0 && Carries(sent, mss, isn, i, j) && Carries(sent, mss, isn, i, m)
    ensures j == m
  {
    if j < m { OffsetMono(sent, mss, j + 1, m); }
    if m < j { OffsetMono(sent, mss, m + 1, j); }
  }

  lemma OffsetSame(sent: seq<Sent>, x: Sent, mss: int, m: int)
    requires mss > 0 && 0 <= m <= |sent|
    ensures Offset(sent + [x], mss, m) == Offset(sent, mss, m) && Offset(sent, mss, |sent|) == |Stream(sent, mss)|
  {
    assert (sent + [x])[..m] == sent[..m] && sent[..|sent|] == sent;
  }

  // ----- every step keeps the account -----

  lemma SendStream(s: State, x: Sent, isn: int, mss: int)
    requires mss > 0 && Inv(s, isn, mss) && x.no < MSG_LIMIT
    ensures Messaging(s.c, s.readIdx, Stream(s.sent + [x], mss), isn)
    ensures s.readIdx - isn <= |Stream(s.sent, mss)|
    ensures forall i :: i - isn >= |Stream(s.sent, mss)| ==> i !in s.c
  {
    var ps := Stream(s.sent, mss);
    ChunksCut(x.data, mss);
    PacketsDelimited(Chunks(x.data, mss), x.no, x.order);
    SendKeeps(s.c, s.readIdx, ps, Packets(Chunks(x.data, mss), x.no, x.order), isn);
    assert (s.sent + [x])[..|s.sent|] == s.sent;
    hide Stream, Delimited, StartsMsg, EndsMsg;
    assert forall i :: i in s.c ==> PacketAt(s.c[i], ps, i - isn);
  }

  lemma SendInv(s: State, x: Sent, isn: int, mss: int)
    requires mss > 0 && Inv(s, isn, mss) && x.no < MSG_LIMIT
    ensures Inv(s.(sent := s.sent + [x]), isn, mss)
  {
    var t := s.(sent := s.sent + [x]);
    SendStream(s, x, isn, mss);
    hide Messaging, Stream, Offset;
    forall i, m | Carries(t.sent, mss, isn, i, m) ensures Pending(s.c, s.readIdx, i) <==> m !in s.got {
      OffsetSame(s.sent, x, mss, m);
      if m < |s.sent| {
        OffsetSame(s.sent, x, mss, m + 1);
        assert Carries(s.sent, mss, isn, i, m);
      } else {
        assert forall k :: 0 <= k < |s.got| ==> InTurn(s.sent, s.got[k], s.got[..k]);
      }
    }
    forall k | 0 <= k < |t.got| ensures InTurn(t.sent, t.got[k], t.got[..k]) && Gives(t.sent, t.got[k], t.out[k]) {
      assert InTurn(s.sent, s.got[k], s.got[..k]) && Gives(s.sent, s.got[k], s.out[k]);
    }
  }

  lemma ArriveInv(s: State, x: int, isn: int, mss: int)
    requires mss > 0 && Inv(s, isn, mss) && s.readIdx <= x && x !in s.c && 0 <= x - isn < |Stream(s.sent, mss)|
    ensures var p := Stream(s.sent, mss)[x - isn]; Inv(s.(c := s.c[x := Held(p.data, p.word, 1)]), isn, mss)
  {
    var p := Stream(s.sent, mss)[x - isn];
    var d := s.c[x := Held(p.data, p.word, 1)];
    ArrivalKeeps(s.c, s.readIdx, Stream(s.sent, mss), isn, x);
    assert forall i :: Pending(d, s.readIdx, i) == Pending(s.c, s.readIdx, i);
    hide Messaging, Stream, Pending, Carries;
  }

  /** Reading a message is reading one that was not read before. */
  lemma ReadInv(s: State, t: State, a: int, b: int, m: int, len: int, isn: int, mss: int)
    requires mss > 0 && Inv(s, isn, mss) && Step(s, ReadOne(a, b, m, len), t, isn, mss)
    ensures Inv(t, isn, mss)
  {
    hide Messaging, Stream, Pending, Readable, Carries, Once, Gives, Cut, Concat, DatasOf;
    Within(s.sent, mss, isn, a, b, m);
    assert m !in s.got;
    forall i, j | Carries(t.sent, mss, isn, i, j) ensures Pending(t.c, t.readIdx, i) <==> j !in t.got {
      if j != m && a <= i <= b { CarriesOne(s.sent, mss, isn, i, j, m); }
    }
    OnceMore(s.got, m);
    GivesOne(s, a, b, m, len, isn, mss);
    forall k | 0 <= k < |t.got| ensures InTurn(t.sent, t.got[k], t.got[..k]) && Gives(t.sent, t.got[k], t.out[k]) {
      if k < |s.got| {
        assert InTurn(s.sent, s.got[k], s.got[..k]) && t.got[..k] == s.got[..k];
      } else {
        assert t.got[..k] == s.got;
        TurnOf(s, a, b, m, isn, mss);
      }
    }
  }

  /** The bytes in the slots of a sent message are its bytes. */
  lemma GivesOne(s: State, a: int, b: int, m: int, len: int, isn: int, mss: int)
    requires mss > 0 && Inv(s, isn, mss) && IsSent(s.sent, mss, a - isn, b - isn, m) && Readable(s.c, s.ackIdx, a, b)
    ensures Concat(DatasOf(s.c, a, b + 1 - a)) == s.sent[m].data
    ensures Gives(s.sent, m, Returned(len, Cut(Concat(DatasOf(s.c, a, b + 1 - a)), len)))
  {
    hide StartsMsg, EndsMsg, OrderFlag, Chunks, Stream, Concat, Delimited, Datas, DatasOf, Cut;
    var ps := Stream(s.sent, mss);
    WholeIsMessage(s.c, ps, isn, a, b);
    assert ps[a - isn..b - isn + 1] == ps[a - isn..b + 1 - isn];
  }

  lemma Within(sent: seq<Sent>, mss: int, isn: int, a: int, b: int, m: int)
    requires mss > 0 && IsSent(sent, mss, a - isn, b - isn, m)
    ensures forall i :: Carries(sent, mss, isn, i, m) <==> a <= i <= b
    ensures Carries(sent, mss, isn, a, m)
  {
  }

  lemma OnceMore(got: seq<int>, m: int)
    requires Once(got) && m !in got
    ensures Once(got + [m])
  {
  }

  lemma TurnOf(s: State, a: int, b: int, m: int, isn: int, mss: int)
    requires mss > 0 && Inv(s, isn, mss) && IsSent(s.sent, mss, a - isn, b - isn, m) && Readable(s.c, s.ackIdx, a, b)
    requires OrderedAt(s.c, b) ==> forall i :: i < a ==> !Pending(s.c, s.readIdx, i)
    ensures InTurn(s.sent, m, s.got)
  {
    hide StartsMsg, EndsMsg, OrderFlag, Chunks, Stream;
    var ps := Stream(s.sent, mss);
    assert NotRead(s.c, b) && PacketAt(s.c[b], ps, b - isn);
    if s.sent[m].order {
      forall j | 0 <= j < m && s.sent[j].data != [] ensures j in s.got {
        var i := isn + Offset(s.sent, mss, j);
        OffsetStep(s.sent, mss, j);
        OffsetMono(s.sent, mss, j + 1, m);
        assert Carries(s.sent, mss, isn, i, j) && i < a;
      }
    }
  }

  lemma StepInv(s: State, e: Action, t: State, isn: int, mss: int)
    requires mss > 0 && Inv(s, isn, mss) && Step(s, e, t, isn, mss)
    ensures Inv(t, isn, mss)
  {
    match e
    case Send(x) => SendInv(s, x, isn, mss);
    case Arrive(x) => ArriveInv(s, x, isn, mss);
    case Ack(n) =>
    case ReadOne(a, b, m, len) => ReadInv(s, t, a, b, m, len, isn, mss);
    case ReadNone =>
  }

  /** What readMsg() finds readable is one of the messages sent, byte for byte. */
  lemma ReadableIsSent(s: State, a: int, b: int, isn: int, mss: int) returns (m: int)
    requires mss > 0 && Numbered(s.sent) && Messaging(s.c, s.readIdx, Stream(s.sent, mss), isn)
    requires Readable(s.c, s.ackIdx, a, b) && s.readIdx <= a
    ensures IsSent(s.sent, mss, a - isn, b - isn, m) && a <= b
    ensures Concat(DatasOf(s.c, a, b + 1 - a)) == s.sent[m].data && OrderedAt(s.c, b) == s.sent[m].order
    ensures forall i :: a <= i <= b ==> Pending(s.c, s.readIdx, i)
  {
    hide StartsMsg, EndsMsg, OrderFlag, Chunks, Stream, Concat, Delimited, Datas, DatasOf;
    var ps := Stream(s.sent, mss);
    WholeIsMessage(s.c, ps, isn, a, b);
    m := MessagesAreSent(s.sent, mss, a - isn, b - isn);
    assert ps[a - isn..b - isn + 1] == ps[a - isn..b + 1 - isn];
    forall i | a <= i <= b ensures Pending(s.c, s.readIdx, i) { assert NotRead(s.c, i); }
  }

  lemma StartInv(isn: int, mss: int)
    requires mss > 0
    ensures Inv(State(map[], isn, isn, [], [], []), isn, mss)
  {
    assert Begins([], 0);
    assert Stream([], mss) == [] && Messaging(map[], isn, [], isn);
  }

  ghost predicate IsRun(ss: seq<State>, es: seq<Action>, isn: int, mss: int)
    requires mss > 0
  {
    && |ss| == |es| + 1 && ss[0] == State(map[], isn, isn, [], [], [])
    && forall k :: 0 <= k < |es| ==> Step(ss[k], es[k], ss[k + 1], isn, mss)
  }

  /** In every run: no message is read twice, an ordered one only after all
      before it, every read returns its message byte for byte, and what is not
      read stays to be read. */
  lemma {:induction false} MessagesOnceInTurn(ss: seq<State>, es: seq<Action>, isn: int, mss: int)
    requires mss > 0 && IsRun(ss, es, isn, mss)
    ensures Inv(ss[|es|], isn, mss)
    decreases |es|
  {
    if |es| == 0 {
      StartInv(isn, mss);
    } else {
      var n := |es| - 1;
      assert IsRun(ss[..n + 1], es[..n], isn, mss);
      MessagesOnceInTurn(ss[..n + 1], es[..n], isn, mss);
      assert Step(ss[n], es[n], ss[n + 1], isn, mss);
      StepInv(ss[n], es[n], ss[n + 1], isn, mss);
    }
  }
}
