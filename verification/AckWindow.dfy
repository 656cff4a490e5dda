/** CACKWindow (UDT4/src/window.cpp:48-150): the acknowledgements sent last, in
    three parallel arrays used as a ring that keeps one place empty. */
module AckWindow {

  datatype Record = Record(seqNo: int, ack: int, time: int)

  /** The place `k` behind place `tail`. */
  function Place(tail: int, size: int, k: int): int {
    if tail + k < size then tail + k else tail + k - size
  }

  lemma PlaceMod(tail: int, size: int, k: int)
    requires 0 <= tail < size && 0 <= k < size
    ensures Place(tail, size, k) == (tail + k) % size && 0 <= Place(tail, size, k) < size
  {
  }

  /** Position of the first record with this number, or the length. */
  ghost function Find(rs: seq<Record>, no: int): (k: nat)
    ensures k <= |rs| && (k < |rs| ==> rs[k].seqNo == no)
    ensures forall j :: 0 <= j < k ==> rs[j].seqNo != no
  {
    if |rs| == 0 || rs[0].seqNo == no then 0
    else
      var k := Find(rs[1..], no);
      assert k < |rs| - 1 ==> rs[1..][k] == rs[k + 1];
      assert forall j :: 1 <= j < k + 1 ==> rs[j] == rs[1..][j - 1];
      k + 1
  }

  lemma FindIs(rs: seq<Record>, no: int, k: nat)
    requires k <= |rs| && (k < |rs| ==> rs[k].seqNo == no) && forall j :: 0 <= j < k ==> rs[j].seqNo != no
    ensures Find(rs, no) == k
  {
  }

  /** A bounded queue drops its oldest record. */
  ghost function Push(rs: seq<Record>, r: Record, size: int): seq<Record> {
    if |rs| == size - 1 then (rs + [r])[1..] else rs + [r]
  }

  /** It keeps the last size - 1 records. */
  lemma PushIs(rs: seq<Record>, r: Record, size: int)
    requires size >= 1 && |rs| <= size - 1
    ensures var all, t := rs + [r], Push(rs, r, size);
      |t| == (if |all| < size then |all| else size - 1) && t == all[|all| - |t|..]
  {
  }

  class AckWindow {
    const seqNos: array<int>       // m_piACKSeqNo
    const acks: array<int>         // m_piACK
    const times: array<int>        // m_pTimeStamp
    const size: int                // m_iSize
    var head: int                  // m_iHead
    var tail: int                  // m_iTail

    ghost predicate Valid()
      reads this
    {
      && size > 0 && seqNos.Length == acks.Length == times.Length == size
      && seqNos != acks && acks != times && seqNos != times
      && 0 <= head < size && 0 <= tail < size
    }

    function Count(): int
      reads this
    {
      if head >= tail then head - tail else head + size - tail
    }

    /** The records kept, oldest first. */
    ghost function Contents(): (rs: seq<Record>)
      requires Valid()
      reads this, seqNos, acks, times
      ensures |rs| == Count()
    {
      Ring(seqNos[..], acks[..], times[..], tail, Count())
    }

    constructor (size: int)
      requires size > 0
      ensures Valid() && Contents() == [] && this.size == size && fresh(seqNos) && fresh(acks) && fresh(times)
    {
      this.size := size;
      seqNos, acks, times := new int[size](_ => 0), new int[size](_ => 0), new int[size](_ => 0);
      head, tail := 0, 0;
      new;
      seqNos[0] := -1;
    }

    /** store(): the record joins; a full window loses its oldest one. */
    method Store(no: int, ack: int, now: int)
      requires Valid()
      modifies this`head, this`tail, seqNos, acks, times
      ensures Valid() && Contents() == Push(old(Contents()), Record(no, ack, now), size)
    {
      hide Ring, Place;
      ghost var ns, ds, ts, n := seqNos[..], acks[..], times[..], Count();
      HeadIs(tail, head, size);
      RingPush(ns, ds, ts, tail, n, Record(no, ack, now));
      seqNos[head] := no;
      acks[head] := ack;
      times[head] := now;
      assert seqNos[..] == ns[head := no] && acks[..] == ds[head := ack] && times[..] == ts[head := now];
      HeadNext(tail, head, size);
      head := (head + 1) % size;
      if head == tail {
        RingDrop(seqNos[..], acks[..], times[..], tail, n + 1, 1);
        HeadNext(tail, tail, size);
        tail := (tail + 1) % size;
      }
    }

    /** acknowledge(): the record with this number goes, and all older ones. */
    method Acknowledge(no: int, now: int) returns (rtt: int, ack: int)
      requires Valid()
      modifies this`head, this`tail, seqNos
      ensures Valid()
      ensures var was, k := old(Contents()), Find(old(Contents()), no);
        if k == |was| then rtt == -1 && Contents() == was
        else rtt == now - was[k].time && ack == was[k].ack && Contents() == was[k + 1..]
    {
      hide Ring;
      ghost var was := Contents();
      if head >= tail {
        for i := tail to head
          invariant Valid() && head == old(head) && tail == old(tail) && seqNos[..] == old(seqNos[..])
          invariant forall j :: 0 <= j < i - tail ==> was[j].seqNo != no
        {
          RingAt(seqNos[..], acks[..], times[..], tail, Count(), i - tail);
          if no == seqNos[i] {
            FindIs(was, no, i - tail);
            ack := acks[i];
            rtt := now - times[i];
            if i + 1 == head {
              Forget(i + 1 - tail);
            } else {
              DropThrough(i, i - tail);
            }
            return;
          }
        }
        FindIs(was, no, |was|);
        return -1, 0;
      }
      for j := tail to head + size
        invariant Valid() && head == old(head) && tail == old(tail) && seqNos[..] == old(seqNos[..])
        invariant forall i :: 0 <= i < j - tail ==> was[i].seqNo != no
      {
        PlaceMod(tail, size, j - tail);
        RingAt(seqNos[..], acks[..], times[..], tail, Count(), j - tail);
        if no == seqNos[j % size] {
          FindIs(was, no, j - tail);
          var i := j % size;
          ack := acks[i];
          rtt := now - times[i];
          if i == head {
            assert false;        // the head is never among the records
          } else {
            DropThrough(i, j - tail);
          }
          return;
        }
      }
      FindIs(was, no, |was|);
      return -1, 0;
    }

    /** All records go, and the ring starts over. */
    method Forget(ghost n: int)
      requires Valid() && n == Count()
      modifies this`head, this`tail, seqNos
      ensures Valid() && Contents() == old(Contents())[n..]
    {
      tail, head := 0, 0;
      seqNos[0] := -1;
    }

    /** Record k, at place i, and all older ones go. */
    method DropThrough(i: int, ghost k: int)
      requires Valid() && 0 <= k < Count() && i == Place(tail, size, k)
      modifies this`tail
      ensures Valid() && Contents() == old(Contents())[k + 1..]
    {
      hide Ring;
      RingDrop(seqNos[..], acks[..], times[..], tail, Count(), k + 1);
      HeadNext(tail, i, size);
      tail := (i + 1) % size;
    }
  }

  // ----- the ring by value -----

  /** The `n` records from place `tail` on. */
  ghost function Ring(ns: seq<int>, ds: seq<int>, ts: seq<int>, tail: int, n: int): (rs: seq<Record>)
    requires 0 <= tail < |ns| == |ds| == |ts| && 0 <= n <= |ns|
    ensures |rs| == n
  {
    seq(n, k requires 0 <= k < n =>
      var i := Place(tail, |ns|, k); Record(ns[i], ds[i], ts[i]))
  }

  lemma RingAt(ns: seq<int>, ds: seq<int>, ts: seq<int>, tail: int, n: int, k: int)
    requires 0 <= tail < |ns| == |ds| == |ts| && 0 <= k < n <= |ns|
    ensures var i := Place(tail, |ns|, k); 0 <= i < |ns| && Ring(ns, ds, ts, tail, n)[k] == Record(ns[i], ds[i], ts[i])
  {
  }

  lemma RingPush(ns: seq<int>, ds: seq<int>, ts: seq<int>, tail: int, n: int, r: Record)
    requires 0 <= tail < |ns| == |ds| == |ts| && 0 <= n < |ns|
    ensures 0 <= Place(tail, |ns|, n) < |ns|
    ensures var h := Place(tail, |ns|, n);
      Ring(ns[h := r.seqNo], ds[h := r.ack], ts[h := r.time], tail, n + 1) == Ring(ns, ds, ts, tail, n) + [r]
  {
  }

  lemma RingDrop(ns: seq<int>, ds: seq<int>, ts: seq<int>, tail: int, n: int, d: int)
    requires 0 <= tail < |ns| == |ds| == |ts| && 0 <= d <= n <= |ns|
    ensures var t := Place(tail, |ns|, d); 0 <= t < |ns| && Ring(ns, ds, ts, t, n - d) == Ring(ns, ds, ts, tail, n)[d..]
  {
  }

  lemma HeadIs(tail: int, head: int, size: int)
    requires 0 <= head < size && 0 <= tail < size
    ensures Place(tail, size, if head >= tail then head - tail else head + size - tail) == head
  {
  }

  lemma HeadNext(tail: int, head: int, size: int)
    requires 0 <= head < size && 0 <= tail < size
    ensures (head + 1) % size == (if head + 1 == size then 0 else head + 1) == Place(head, size, 1)
  {
    if head + 1 < size { assert (head + 1) % size == head + 1; }
  }
}
