/** How much room the two loss lists need: for which array sizes no run can make
    a list outgrow its array. */
module ProtocolLimits {
  import opened LossNodes
  import opened ByteStream
  import opened Protocol
  import opened ProtocolInv
  import opened ProtocolTheorems
  import opened ProtocolProgress

  /** What the sender's list holds fits an array of `n` slots in every run. */
  ghost predicate SenderFits(isn: int, size: int, window: int, n: int) {
    forall es :: Fits(After(Start(isn, size, window), es).snd.loss, n)
  }

  ghost predicate ReceiverFits(isn: int, size: int, window: int, n: int) {
    forall es :: Fits(After(Start(isn, size, window), es).rcv.loss, n)
  }

  // ----- runs that fill the lists -----

  /** A sender with nothing lost that may send `n` more blocks. */
  ghost predicate MaySend(s: Sender, n: nat) {
    && s.loss == {} && s.pending.None? && 0 <= s.curr && s.curr + n <= |s.blocks|
    && s.currSeq + 1 - s.lastAck + n <= s.flowWindow
  }

  lemma PackOne(y: Sys)
    requires MaySend(y.snd, 1)
    ensures var z, s := Step(y, Pack(y.snd.flowWindow)), y.snd;
      && z.snd == s.(currSeq := s.currSeq + 1, curr := s.curr + 1) && z.rcv == y.rcv
      && Data(s.currSeq + 1, s.blocks[s.curr]) in z.net
  {
  }

  /** All of them go out. */
  lemma {:induction false} PackMany(y: Sys, n: nat) returns (z: Sys)
    requires Inv(y) && MaySend(y.snd, n)
    ensures Leads(y, z) && Inv(z) && z.rcv == y.rcv
    ensures z.snd == y.snd.(currSeq := y.snd.currSeq + n, curr := y.snd.curr + n)
    ensures n > 0 ==> Data(y.snd.currSeq + n, y.snd.blocks[y.snd.curr + n - 1]) in z.net
  {
    hide Inv, Leads, Step;
    z := y;
    Stay(y);
    if n > 0 {
      var y1 := PackMany(y, n - 1);
      PackOne(y1);
      z := Step(y1, Pack(y1.snd.flowWindow));
      Go(y1, Pack(y1.snd.flowWindow));
      Join(y, y1, z);
    }
  }

  /** Data that makes `n` blocks. */
  ghost function Bytes(n: nat): Payload { seq(n, _ => 0 as Byte) }

  lemma Accept(isn: int, size: int, window: int, n: nat) returns (z: Sys)
    requires size >= 2 && 1 <= window <= size
    ensures var y := Start(isn, size, window);
      && Leads(y, z) && Inv(z) && z.rcv == y.rcv && z.net == {} && |z.snd.blocks| == n
      && z.snd == y.snd.(accepted := z.snd.accepted, blocks := z.snd.blocks)
      && forall k :: 0 <= k < n ==> |z.snd.blocks[k]| == 1
  {
    var y := Start(isn, size, window);
    StartOk(isn, size, window);
    Go(y, Send(Bytes(n), 1));
    z := Step(y, Send(Bytes(n), 1));
    ChunksCount(Bytes(n), 1);
    ChunksCut(Bytes(n), 1);
    hide Inv, Leads, Chunks, Concat;
    assert n / 1 == n && n % 1 == 0;
  }

  /** The first window, sent and given up for lost. */
  lemma FirstWindow(isn: int, size: int, window: int) returns (z: Sys)
    requires size >= 2 && 1 <= window <= size
    ensures Leads(Start(isn, size, window), z) && z.snd.loss == Range(isn, isn + window - 1)
  {
    hide *;
    var y1 := Accept(isn, size, window, window);
    StartIs(isn, size, window);
    MayAll(y1.snd, window);
    var y2 := PackMany(y1, window);
    Join(Start(isn, size, window), y1, y2);
    z := Expires(y2);
    Join(Start(isn, size, window), y2, z);
  }

  lemma StartIs(isn: int, size: int, window: int)
    ensures Start(isn, size, window).snd ==
      Sender(isn, window, [], [], 0, 0, isn, isn, isn - 1, window, {}, None, false)
    ensures Start(isn, size, window).rcv == Receiver(size, Window(map[], isn, isn, 0), isn - 1, isn, {}, 0, [], [])
  {
  }

  lemma MayAll(s: Sender, n: nat)
    requires s.loss == {} && s.pending.None? && 0 <= s.curr && s.curr + n <= |s.blocks|
    requires s.lastAck == s.currSeq + 1 && n <= s.flowWindow
    ensures MaySend(s, n)
  {
  }

  lemma Expires(y: Sys) returns (z: Sys)
    requires Inv(y) && y.snd.loss == {} && y.snd.lastAck <= y.snd.currSeq
    ensures Leads(y, z) && z.snd.loss == Range(y.snd.lastAck, y.snd.currSeq)
  {
    hide *;
    Go(y, Expire);
    z := Step(y, Expire);
    ExpireStep(y);
  }

  lemma ExpireStep(y: Sys)
    requires y.snd.loss == {} && y.snd.lastAck <= y.snd.currSeq
    ensures Step(y, Expire).snd.loss == Range(y.snd.lastAck, y.snd.currSeq)
  {
  }

  // ----- a receiver that has read the first packet -----

  /** The state once the first packet has been delivered, read and acknowledged:
      the advertised window is all the receive buffer can hold. */
  ghost predicate Opened(y: Sys, isn: int, size: int, blocks: nat) {
    && y.snd.loss == {} && y.snd.pending.None? && y.snd.curr == 1 && |y.snd.blocks| == blocks
    && y.snd.dataAck == y.snd.lastAck == y.snd.currSeq + 1 == isn + 1
    && y.snd.flowWindow == Larger(size - 1, 2)
    && y.rcv.size == size && y.rcv.win == Window(map[], isn + 1, isn + 1, 0) && y.rcv.currSeq == isn
    && y.rcv.loss == {}
  }

  /** The receiver around its first packet: `read` of it and `ack`ed. */
  ghost function FirstPacket(isn: int, size: int, p: Payload, slots: map<int, Payload>, read: int, ack: int): Receiver {
    Receiver(size, Window(slots, read, ack, 0), isn, isn, {}, if ack > isn then 1 else 0,
             if ack > isn then [AckRecord(1, ack)] else [], if read > isn then p else [])
  }

  lemma FirstArrives(y: Sys, isn: int, size: int, p: Payload) returns (z: Sys)
    requires Inv(y) && size >= 2 && y.rcv == Receiver(size, Window(map[], isn, isn, 0), isn - 1, isn, {}, 0, [], [])
    requires Data(isn, p) in y.net
    ensures Leads(y, z) && Inv(z) && z.snd == y.snd
    ensures z.rcv == FirstPacket(isn, size, p, map[isn := p], isn, isn)
  {
    hide *;
    var e := ToReceiver(Data(isn, p), false);
    Go(y, e);
    z := Step(y, e);
    ArriveStep(y, isn, size, p);
  }

  lemma ArriveStep(y: Sys, isn: int, size: int, p: Payload)
    requires size >= 2 && y.rcv == Receiver(size, Window(map[], isn, isn, 0), isn - 1, isn, {}, 0, [], [])
    requires Data(isn, p) in y.net
    ensures var z := Step(y, ToReceiver(Data(isn, p), false));
      z.snd == y.snd && z.rcv == FirstPacket(isn, size, p, map[isn := p], isn, isn)
  {
    assert OnData(y.rcv, isn, p).0 == FirstPacket(isn, size, p, map[isn := p], isn, isn);
  }

  lemma FirstAcked(y: Sys, isn: int, size: int, p: Payload) returns (z: Sys)
    requires Inv(y) && y.rcv == FirstPacket(isn, size, p, map[isn := p], isn, isn)
    ensures Leads(y, z) && Inv(z) && z.snd == y.snd
    ensures z.rcv == FirstPacket(isn, size, p, map[isn := p], isn, isn + 1)
  {
    hide *;
    Go(y, Full(true));
    z := Step(y, Full(true));
    FullStep(y, isn, size, p);
  }

  lemma FullStep(y: Sys, isn: int, size: int, p: Payload)
    requires y.rcv == FirstPacket(isn, size, p, map[isn := p], isn, isn)
    ensures var z := Step(y, Full(true));
      z.snd == y.snd && z.rcv == FirstPacket(isn, size, p, map[isn := p], isn, isn + 1)
  {
    assert Frontier(y.rcv) == isn + 1;
    assert [] + [AckRecord(1, isn + 1)] == [AckRecord(1, isn + 1)];
    assert SendFull(y.rcv, true).0 == FirstPacket(isn, size, p, map[isn := p], isn, isn + 1);
  }

  lemma FirstRead(y: Sys, isn: int, size: int, p: Payload) returns (z: Sys)
    requires Inv(y) && y.rcv == FirstPacket(isn, size, p, map[isn := p], isn, isn + 1) && |p| == 1
    ensures Leads(y, z) && Inv(z) && z.snd == y.snd
    ensures z.rcv == FirstPacket(isn, size, p, map[], isn + 1, isn + 1)
  {
    hide *;
    Go(y, Recv(1));
    z := Step(y, Recv(1));
    ReadStep(y, isn, size, p);
  }

  lemma ReadStep(y: Sys, isn: int, size: int, p: Payload)
    requires y.rcv == FirstPacket(isn, size, p, map[isn := p], isn, isn + 1) && |p| == 1
    ensures var z := Step(y, Recv(1)); z.snd == y.snd && z.rcv == FirstPacket(isn, size, p, map[], isn + 1, isn + 1)
  {
    assert WindowOk(y.rcv.win);
    hide WindowOk;
    assert map[isn := p] - {isn} == map[];
    assert Read(Window(map[], isn + 1, isn + 1, 0), 0) == ReadResult([], Window(map[], isn + 1, isn + 1, 0));
    assert Read(y.rcv.win, 1) == ReadResult(p[0..] + [], Window(map[], isn + 1, isn + 1, 0));
  }

  /** The acknowledgement repeated, now with all of the buffer on offer. */
  lemma FirstTold(y: Sys, isn: int, size: int, p: Payload) returns (z: Sys)
    requires Inv(y) && size >= 2 && y.rcv == FirstPacket(isn, size, p, map[], isn + 1, isn + 1)
    ensures Leads(y, z) && Inv(z) && z.snd == y.snd && z.rcv.win == y.rcv.win && z.rcv.currSeq == isn
    ensures z.rcv.size == size && z.rcv.loss == {} && FullAck(2, isn + 1, Larger(size - 1, 2)) in z.net
  {
    Go(y, Full(true));
    z := Step(y, Full(true));
    hide Inv, Leads, StoreAck;
    assert Frontier(y.rcv) == isn + 1;
  }

  lemma FirstConfirmed(y: Sys, isn: int, w: int) returns (z: Sys)
    requires Inv(y) && FullAck(2, isn + 1, w) in y.net
    requires y.snd.loss == {} && y.snd.dataAck == y.snd.lastAck == y.snd.currSeq == isn && y.snd.first == 0
    ensures Leads(y, z) && Inv(z) && z.rcv == y.rcv && z.snd.loss == {}
    ensures z.snd == y.snd.(flowWindow := w, lastAck := isn + 1, dataAck := isn + 1, first := 1, loss := z.snd.loss)
  {
    hide *;
    var e := ToSender(FullAck(2, isn + 1, w), false);
    Go(y, e);
    z := Step(y, e);
    NotBroken(y);
    AckStep(y, isn, w);
  }

  lemma NotBroken(y: Sys)
    requires Inv(y)
    ensures !y.snd.broken
  {
  }

  lemma AckStep(y: Sys, isn: int, w: int)
    requires FullAck(2, isn + 1, w) in y.net && !y.snd.broken
    requires y.snd.loss == {} && y.snd.dataAck == y.snd.lastAck == y.snd.currSeq == isn && y.snd.first == 0
    ensures var z := Step(y, ToSender(FullAck(2, isn + 1, w), false));
      && z.rcv == y.rcv && z.snd.loss == {}
      && z.snd == y.snd.(flowWindow := w, lastAck := isn + 1, dataAck := isn + 1, first := 1, loss := z.snd.loss)
  {
    var left := OnFullAck(y.snd, isn + 1, w).loss;
    assert left <= y.snd.loss;
  }

  lemma OpenUp(isn: int, size: int, window: int, blocks: nat) returns (z: Sys)
    requires size >= 2 && 1 <= window <= size && blocks > 0
    ensures Leads(Start(isn, size, window), z) && Inv(z) && Opened(z, isn, size, blocks)
  {
    hide *;
    var y := Start(isn, size, window);
    StartIs(isn, size, window);
    var y1 := Accept(isn, size, window, blocks);
    var p := y1.snd.blocks[0];
    MayAll(y1.snd, 1);
    var y2 := PackMany(y1, 1);
    Join(y, y1, y2);
    var y3 := FirstArrives(y2, isn, size, p);
    Join(y, y2, y3);
    var y4 := FirstAcked(y3, isn, size, p);
    Join(y, y3, y4);
    var y5 := FirstRead(y4, isn, size, p);
    Join(y, y4, y5);
    var y6 := FirstTold(y5, isn, size, p);
    Join(y, y5, y6);
    z := FirstConfirmed(y6, isn, Larger(size - 1, 2));
    Join(y, y6, z);
    IsOpened(y5.rcv, z, isn, size, p, blocks);
  }

  lemma IsOpened(r: Receiver, z: Sys, isn: int, size: int, p: Payload, blocks: nat)
    requires r == FirstPacket(isn, size, p, map[], isn + 1, isn + 1)
    requires z.rcv.win == r.win && z.rcv.currSeq == isn && z.rcv.size == size && z.rcv.loss == {}
    requires z.snd.loss == {} && z.snd.pending.None? && z.snd.curr == 1 && |z.snd.blocks| == blocks
    requires z.snd.dataAck == z.snd.lastAck == isn + 1 && z.snd.currSeq == isn
    requires z.snd.flowWindow == Larger(size - 1, 2)
    ensures Opened(z, isn, size, blocks)
  {
  }

  /** The largest advertised window, sent and given up for lost. */
  lemma LaterWindow(isn: int, size: int, window: int) returns (z: Sys)
    requires size >= 2 && 1 <= window <= size
    ensures Leads(Start(isn, size, window), z) && z.snd.loss == Range(isn + 1, isn + Larger(size - 1, 2))
  {
    var n := Larger(size - 1, 2);
    var y1 := OpenUp(isn, size, window, n + 1);
    assert MaySend(y1.snd, n);
    hide Inv, Leads;
    var y2 := PackMany(y1, n);
    Join(Start(isn, size, window), y1, y2);
    z := Expires(y2);
    Join(Start(isn, size, window), y2, z);
  }

  /** All packets the receive buffer can hold but the last one are missing. */
  lemma OnlyLastArrives(isn: int, size: int, window: int) returns (z: Sys)
    requires size >= 3 && 1 <= window <= size
    ensures Leads(Start(isn, size, window), z) && z.rcv.loss == Range(isn + 1, isn + size - 2)
  {
    hide *;
    var y1 := OpenUp(isn, size, window, size);
    OpenFacts(y1, isn, size);
    var y2 := PackMany(y1, size - 1);
    Join(Start(isn, size, window), y1, y2);
    var p := y2.snd.blocks[size - 1];
    var e := ToReceiver(Data(isn + size - 1, p), false);
    Go(y2, e);
    z := Step(y2, e);
    Join(Start(isn, size, window), y2, z);
    LastStep(y2, isn, size, p);
  }

  lemma OpenFacts(y: Sys, isn: int, size: int)
    requires size >= 3 && Opened(y, isn, size, size)
    ensures MaySend(y.snd, size - 1) && y.snd.currSeq == isn && y.snd.curr == 1 && |y.snd.blocks| == size
    ensures y.rcv.size == size && y.rcv.win == Window(map[], isn + 1, isn + 1, 0)
    ensures y.rcv.currSeq == isn && y.rcv.loss == {}
  {
  }

  lemma LastStep(y: Sys, isn: int, size: int, p: Payload)
    requires Data(isn + size - 1, p) in y.net && size >= 3
    requires y.rcv.size == size && y.rcv.win == Window(map[], isn + 1, isn + 1, 0)
    requires y.rcv.currSeq == isn && y.rcv.loss == {}
    ensures Step(y, ToReceiver(Data(isn + size - 1, p), false)).rcv.loss == Range(isn + 1, isn + size - 2)
  {
    assert {} + Range(isn + 1, isn + size - 2) == Range(isn + 1, isn + size - 2);
  }

  // ----- exactly how large the arrays must be -----

  lemma RangeFits(lo: int, hi: int, n: int)
    requires lo <= hi
    ensures Fits(Range(lo, hi), n) <==> hi - lo < n
  {
    assert lo in Range(lo, hi) && hi in Range(lo, hi);
  }

  /** The sender's list needs exactly as many slots as the largest window there
      can be. */
  lemma SenderNeeds(isn: int, size: int, window: int, n: int)
    requires size >= 2 && 1 <= window <= size
    ensures SenderFits(isn, size, window, n) <==> Larger(window, Larger(size - 1, 2)) <= n
  {
    var y := Start(isn, size, window);
    if Larger(window, Larger(size - 1, 2)) <= n {
      forall es ensures Fits(After(y, es).snd.loss, n) {
        RunKeeps(isn, size, window, es);
        FlowBound(isn, size, window, es, After(y, es));
        LossGrows(After(y, es).snd);
      }
    } else {
      var z, lo, hi;
      if window > n {
        z := FirstWindow(isn, size, window);
        lo, hi := isn, isn + window - 1;
      } else {
        z := LaterWindow(isn, size, window);
        lo, hi := isn + 1, isn + Larger(size - 1, 2);
      }
      RangeFits(lo, hi, n);
      hide Fits, Range;
      var es :| After(y, es) == z;
      assert !Fits(After(y, es).snd.loss, n);
    }
  }

  lemma LossGrows(s: Sender)
    ensures s.loss <= OnExp(s).loss
  {
  }

  /** Twice the first window, which the source gives the list (core.cpp:686), is
      enough if and only if the buffer is not larger than that, one slot aside. */
  lemma TwiceTheWindow(isn: int, size: int, window: int)
    requires size >= 2 && 1 <= window <= size
    ensures SenderFits(isn, size, window, 2 * window) <==> size <= 2 * window + 1
  {
    SenderNeeds(isn, size, window, 2 * window);
  }

  /** The flight size, which the source gives the receiver's list
      (core.cpp:687), is enough if and only if the buffer has at most two slots
      more. */
  lemma FlightSize(isn: int, size: int, window: int, flight: int)
    requires size >= 2 && 1 <= window <= size && flight >= 1
    ensures ReceiverFits(isn, size, window, flight) <==> size <= flight + 2
  {
    var y := Start(isn, size, window);
    if size <= flight + 2 {
      forall es ensures Fits(After(y, es).rcv.loss, flight) { FlowBound(isn, size, window, es, After(y, es)); }
    } else {
      var z := OnlyLastArrives(isn, size, window);
      RangeFits(isn + 1, isn + size - 2, flight);
      hide Fits, Range;
      var es :| After(y, es) == z;
      assert !Fits(After(y, es).rcv.loss, flight);
    }
  }
}
