/** Concrete inputs on which the source does not do what one would expect. */
module Inputs {
  import opened ByteStream
  import opened PacketHeader
  import opened Messages
  import opened Reassembly
  import opened UnitPool
  import opened RcvBuffer

  // ----- a readable message that is not read -----

  /** One packet that is a message and need not wait for its acknowledgement. */
  lemma SoloReadable(x: int, p: Payload, word: Word)
    requires word == Compose(1, false, true, true) && |p| > 0
    ensures var c: Cells := map[x := Held(p, word, 1)];
      Readable(c, x, x, x) && !NothingReadable(c, x, x) && NotRead(c, x)
    ensures Messaging(map[], x, [Packet(p, word)], x) && Messaging(map[x := Held(p, word, 1)], x, [Packet(p, word)], x)
  {
    ComposeFits(1, false, true, true);
    var c: Cells, ps := map[x := Held(p, word, 1)], [Packet(p, word)];
    hide Compose, StartsMsg, EndsMsg, OrderFlag;
    assert Readable(c, x, x, x);
    assert Begins(ps, 0) && Follows(ps, 0);
    assert Messaging(map[], x, ps, x);
  }

  /** It arrives alone at the next slot of an empty buffer: it is readable, but
      the test for an empty buffer (UDT4/src/buffer.cpp:590) turns it away. */
  method SoloTurnedAway(b: RcvBuffer, u: Unit) returns (data: Payload, ghost got: bool)
    requires b.Valid() && b.notch == 0 && b.Content() == map[] && b.maxPos == -1
    requires b.readIdx == b.ackIdx == b.isn && b.size >= 2
    requires u in b.queue.members && u.flag == 0 && u.word == Compose(1, false, true, true) && |u.payload| > 0
    modifies b, b.slots.units, b.queue.members, b.queue`count
    ensures b.Valid() && !NothingReadable(b.Content(), b.ackIdx, b.readIdx)
    ensures !got && data == []
  {
    hide *;
    b.ViewOk();
    ghost var ps := [Packet(u.payload, u.word)];
    SoloReadable(b.isn, u.payload, u.word);
    FromNone(map[b.isn := Held(u.payload, u.word, 1)], b.isn);
    var r := b.AddData(u, 0);
    b.ViewOk();
    b.MsgDef(ps);
    b.MineAreMembers();
    ghost var a, e;
    data, got, a, e := b.ReadMsg(1, ps);
    b.ViewOk();
    NotSkipped(map[b.isn := Held(u.payload, u.word, 1)], b.isn, b.readIdx);
  }

  /** Unread slots are not given up. */
  lemma NotSkipped(c: Cells, r: int, s: int)
    requires r <= s && NotRead(c, r) && forall i :: r <= i < s ==> WasRead(c, i)
    ensures r == s
  {
    assert !WasRead(c, r);
  }

  // ----- a message that fills the ring -----

  ghost function Unread(x: int, ps: seq<Packet>, i: int): Held
    requires x <= i < x + |ps|
  {
    Held(ps[i - x].data, ps[i - x].word, 1)
  }

  /** The first `n` packets of the stream, unread, from index `x` on. */
  ghost function First(x: int, ps: seq<Packet>, n: nat): Cells
    requires n <= |ps|
  {
    map i | x <= i < x + n :: Unread(x, ps, i)
  }

  /** The message does not end within the first `n` packets. */
  ghost predicate Unended(ps: seq<Packet>, n: nat) {
    n <= |ps| && forall k :: 0 <= k < n ==> !EndsMsg(ps[k].word)
  }

  lemma FirstFills(x: int, ps: seq<Packet>, n: nat)
    requires n >= 2 && Unended(ps, n) && StartsMsg(ps[0].word)
    ensures var c := First(x, ps, n);
      && FillsRing(c, x, x, n + 1) && !FillsRing(c, x + n, x, n + 1)
      && NothingReadable(c, x, x) && NothingReadable(c, x + n, x)
      && From(c, x) == c && NotRead(c, x)
  {
    var c := First(x, ps, n);
    hide StartsMsg, EndsMsg, OrderFlag;
    assert Open(c, x, x + n);
    forall ack, a, b ensures !Readable(c, ack, a, b) { assert !EndsAt(c, b); }
  }

  /** One more packet. */
  lemma FirstNext(x: int, ps: seq<Packet>, n: nat)
    requires n < |ps| && Messaging(First(x, ps, n), x, ps, x)
    ensures First(x, ps, n + 1) == First(x, ps, n)[x + n := Held(ps[n].data, ps[n].word, 1)]
    ensures Messaging(First(x, ps, n + 1), x, ps, x) && x + n !in First(x, ps, n)
  {
    ArrivalKeeps(First(x, ps, n), x, ps, x, x + n);
    assert First(x, ps, n + 1) == First(x, ps, n)[x + n := Held(ps[n].data, ps[n].word, 1)];
  }

  lemma FirstNone(x: int, ps: seq<Packet>)
    requires Delimited(ps) && |ps| > 0
    ensures First(x, ps, 0) == map[] && Messaging(map[], x, ps, x) && StartsMsg(ps[0].word)
  {
  }

  /** Unit k holds packet k and is free. */
  ghost predicate Carry(q: UnitQueue, us: seq<Unit>, ps: seq<Packet>, from: nat)
    reads q, us
  {
    && |us| <= |ps| && (forall k :: 0 <= k < |us| ==> us[k] in q.members)
    && (forall j, k :: 0 <= j < k < |us| ==> us[j] != us[k])
    && (forall k :: from <= k < |us| ==> us[k].flag == 0 && us[k].payload == ps[k].data && us[k].word == ps[k].word)
  }

  /** A message of at least as many packets as the ring has slots.  As many as
      fit arrive.  While they are not all acknowledged, getRcvMsgNum() counts the
      message and readMsg() returns nothing of it; once they are, neither finds it. */
  method LongMessage(b: RcvBuffer, us: seq<Unit>, ghost ps: seq<Packet>)
    returns (before: int, data: Payload, after: int)
    requires b.Valid() && b.notch == 0 && b.Content() == map[] && b.maxPos == -1
    requires b.readIdx == b.ackIdx == b.isn && b.size == |us| + 1 >= 3
    requires Delimited(ps) && Unended(ps, |us|) && Carry(b.queue, us, ps, 0)
    modifies b, b.slots.units, b.queue.members, b.queue`count
    ensures before == 1 && data == [] && after == 0
  {
    hide *;
    ghost var x := b.isn;
    UnendedIs(ps, |us|);
    FirstNone(x, ps);
    FirstFills(x, ps, |us|);
    ghost var c := First(x, ps, |us|);
    AllArrive(b, us, ps);
    before := b.GetRcvMsgNum(ps);
    b.ViewOk();
    NotSkipped(c, x, b.readIdx);
    ghost var got, a, e;
    data, got, a, e := b.ReadMsg(1, ps);
    b.ViewOk();
    NotSkipped(c, x, b.readIdx);
    FirstHas(x, ps, |us|);
    b.AckData(|us|);
    b.ViewOk();
    b.MsgDef(ps);
    b.MineAreMembers();
    after := b.GetRcvMsgNum(ps);
    b.ViewOk();
    NotSkipped(c, x, b.readIdx);
  }

  lemma UnendedIs(ps: seq<Packet>, n: nat)
    requires Unended(ps, n)
    ensures n <= |ps|
  {
  }

  lemma FirstHas(x: int, ps: seq<Packet>, n: nat)
    requires n <= |ps|
    ensures forall i :: x <= i < x + n ==> i in First(x, ps, n)
  {
  }

  method AllArrive(b: RcvBuffer, us: seq<Unit>, ghost ps: seq<Packet>)
    requires b.Valid() && b.notch == 0 && b.Content() == map[] && b.maxPos == -1
    requires b.readIdx == b.ackIdx == b.isn && b.size == |us| + 1 && |us| <= |ps|
    requires Messaging(map[], b.isn, ps, b.isn) && First(b.isn, ps, 0) == map[] && Carry(b.queue, us, ps, 0)
    modifies b`maxPos, b.slots.units, b.queue.members, b.queue`count
    ensures b.Valid() && b.MsgOk(ps) && b.Content() == First(b.isn, ps, |us|) && b.maxPos == |us| - 1
    ensures b.queue.members == old(b.queue.members) && UnitsIn(b.slots.units[..]) <= b.queue.members
  {
    hide *;
    b.ViewOk();
    for k := 0 to |us|
      invariant b.Valid() && b.slots.units.Length == b.size > 0 && b.Content() == First(b.isn, ps, k)
      invariant Messaging(First(b.isn, ps, k), b.isn, ps, b.isn) && b.maxPos == k - 1
      invariant b.queue.members == old(b.queue.members) && Carry(b.queue, us, ps, k)
    {
      CarryIs(b.queue, us, ps, k);
      FirstNext(b.isn, ps, k);
      var r := b.AddData(us[k], k);
      b.ViewOk();
      CarryIs(b.queue, us, ps, k + 1);
    }
    b.MsgDef(ps);
    b.MineAreMembers();
  }

  lemma CarryIs(q: UnitQueue, us: seq<Unit>, ps: seq<Packet>, from: nat)
    ensures Carry(q, us, ps, from) <==>
      && |us| <= |ps| && (forall k :: 0 <= k < |us| ==> us[k] in q.members)
      && (forall j, k :: 0 <= j < k < |us| ==> us[j] != us[k])
      && (forall k :: from <= k < |us| ==>
           us[k].flag == 0 && us[k].payload == ps[k].data && us[k].word == ps[k].word)
  {
  }

  // ----- a free unit that is not found -----

  /** Of a block of two units the first one is in use.  The pool is half empty,
      yet no unit is handed out, and the pool does not grow. */
  method UnitMissed() returns (q: UnitQueue, r: Unit?)
    ensures q.Valid() && q.size == 2 && q.count == 1 && exists u :: u in q.members && u.flag == 0
    ensures r == null
  {
    hide *;
    q := new UnitQueue(2);
    var s := new Slots(1);
    q.Register(s);
    FirstIsFree(q);
    var u := q.firstEntry.units[0];
    q.Occupy(s, 0, u);
    OneBusy(q, u);
    r := q.GetNextAvailUnit();
    SecondIsFree(q, u);
  }

  lemma FirstIsFree(q: UnitQueue)
    requires q.Valid() && |q.ring| == 1 && q.unit == 2 && q.count == 0
    ensures |q.firstEntry.units| == 2 && q.firstEntry.units[0] in q.members && q.firstEntry.units[0].flag == 0
    ensures q.firstEntry.units[0] == q.ring[0].units[0] && |q.ring[0].units| == 2
  {
    assert |q.Busy()| == 0;
    assert q.firstEntry.units[0] in q.members && q.firstEntry.units[0] !in q.Busy();
  }

  lemma OneBusy(q: UnitQueue, u: Unit)
    requires q.Valid() && |q.ring| == 1 && q.unit == 2 && |q.ring[0].units| == 2
    requires u == q.ring[0].units[0] && u.flag != 0
    ensures q.Pool() && q.Exhausted()
  {
    q.LastUnitsMissed();
  }

  lemma SecondIsFree(q: UnitQueue, u: Unit)
    requires q.Valid() && q.count == 1 && q.size == 2 && u in q.members && u.flag != 0
    ensures exists v :: v in q.members && v.flag == 0
  {
    assert u in q.Busy();
    assert (forall v :: v in q.members ==> v.flag != 0) ==> q.Busy() == q.members;
  }
}
