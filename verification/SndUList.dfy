/** CSndUList (UDT4/src/queue.cpp:226-429): the sockets waiting to send, in a
    binary heap by the time of their next packet. */
module SndUList {

  class Node {
    var time: int                 // m_llTimeStamp
    var loc: int                  // m_iHeapLoc, -1 when not on the heap

    constructor ()
      ensures loc == -1
    {
      time, loc := 1, -1;
    }
  }

  // ----- heap order by value -----

  function Parent(k: int): int { (k - 1) / 2 }

  /** No time is before that of its parent, except perhaps that of place `but`. */
  ghost predicate OrderedBut(ts: seq<int>, but: int) {
    forall k :: 0 < k < |ts| && k != but ==> ts[Parent(k)] <= ts[k]
  }

  ghost predicate Ordered(ts: seq<int>) { OrderedBut(ts, 0) }

  /** On the way up: place q may be before its parent, but what is below q is
      not before that parent. */
  ghost predicate Rising(ts: seq<int>, q: int) {
    && 0 <= q < |ts| && OrderedBut(ts, q)
    && (q > 0 ==> forall k :: 0 < k < |ts| && Parent(k) == q ==> ts[Parent(q)] <= ts[k])
  }

  function Swap<T>(s: seq<T>, i: int, j: int): seq<T>
    requires 0 <= i < |s| && 0 <= j < |s|
  {
    s[i := s[j]][j := s[i]]
  }

  lemma RiseOne(ts: seq<int>, q: int)
    requires Rising(ts, q) && q > 0 && ts[Parent(q)] > ts[q]
    ensures 0 <= Parent(q) < q && Rising(Swap(ts, Parent(q), q), Parent(q))
  {
    var p := Parent(q);
    var t := Swap(ts, p, q);
    forall k | 0 < k < |t| && k != p ensures t[Parent(k)] <= t[k] {
      assert ts[p] <= ts[k] || Parent(k) != p || k == q;
    }
    if p > 0 {
      assert ts[Parent(p)] <= ts[p];
      forall k | 0 < k < |t| && Parent(k) == p ensures t[Parent(p)] <= t[k] {
        assert k != q ==> ts[p] <= ts[k];
      }
    }
  }

  lemma RiseDone(ts: seq<int>, q: int)
    requires Rising(ts, q) && (q == 0 || ts[Parent(q)] <= ts[q])
    ensures Ordered(ts)
  {
  }

  /** On the way down from place `r`: below q times may be earlier than at q,
      but not earlier than at q's parent.  Nothing is said of r and its parent. */
  ghost predicate Sinking(ts: seq<int>, q: int, r: int) {
    && 0 <= r <= q
    && (forall k :: 0 < k < |ts| && k != r && Parent(k) != q ==> ts[Parent(k)] <= ts[k])
    && (q != r && q < |ts| ==> forall k :: 0 < k < |ts| && Parent(k) == q ==> ts[Parent(q)] <= ts[k])
  }

  /** The earlier child of q. */
  function Child(ts: seq<int>, q: int): int
    requires 0 <= q && 2 * q + 1 < |ts|
  {
    if 2 * q + 2 < |ts| && ts[2 * q + 1] > ts[2 * q + 2] then 2 * q + 2 else 2 * q + 1
  }

  lemma SinkOne(ts: seq<int>, q: int, r: int)
    requires Sinking(ts, q, r) && 2 * q + 1 < |ts| && ts[q] > ts[Child(ts, q)]
    ensures Sinking(Swap(ts, Child(ts, q), q), Child(ts, q), r)
  {
    var p := Child(ts, q);
    var t := Swap(ts, p, q);
    forall k | 0 < k < |t| && k != r && Parent(k) != p ensures t[Parent(k)] <= t[k] {
      if Parent(k) == q { assert k == 2 * q + 1 || k == 2 * q + 2; }
      assert k == q ==> ts[Parent(q)] <= ts[p];
    }
    forall k | 0 < k < |t| && Parent(k) == p ensures t[Parent(p)] <= t[k] {
      assert k != r && Parent(k) != q;
    }
  }

  lemma SinkDone(ts: seq<int>, q: int, r: int)
    requires Sinking(ts, q, r) && (2 * q + 1 < |ts| ==> ts[q] <= ts[Child(ts, q)])
    ensures OrderedBut(ts, r)
  {
    forall k | 0 < k < |ts| && k != r ensures ts[Parent(k)] <= ts[k] {
      if Parent(k) == q { assert k == 2 * q + 1 || k == 2 * q + 2; }
    }
  }

  /** The root is the earliest. */
  lemma {:induction false} RootIsEarliest(ts: seq<int>, k: int)
    requires Ordered(ts) && 0 <= k < |ts|
    ensures ts[0] <= ts[k]
  {
    if k > 0 { RootIsEarliest(ts, Parent(k)); }
  }

  class SndUList {
    var heap: array<Node?>        // m_pHeap, of length m_iArrayLength
    var last: int                 // m_iLastEntry
    ghost var nodes: set<Node>    // the nodes of all sockets that use this list

    /** The heap points to its nodes, and they know where, except perhaps `but`. */
    ghost predicate Located(but: Node?)
      reads this, heap, nodes
    {
      && -1 <= last < heap.Length && heap.Length > 0
      && (forall k :: 0 <= k <= last ==> heap[k] != null && heap[k] in nodes && (heap[k] != but ==> heap[k].loc == k))
      && (forall j, k :: 0 <= j < k <= last && heap[j] == but ==> heap[k] != but)
      && (forall n :: n in nodes && n != but ==> n.loc == -1 || (0 <= n.loc <= last && heap[n.loc] == n))
    }

    /** Every entry knows its place, and no node is on the heap unknowingly. */
    ghost predicate Valid()
      reads this, heap, nodes
    {
      Located(null)
    }

    ghost function Time(k: int): int
      reads this, heap, nodes
    {
      if 0 <= k < heap.Length && heap[k] != null && heap[k] in nodes then heap[k].time else 0
    }

    /** The times on the heap, by place. */
    ghost function Times(): (ts: seq<int>)
      requires last >= -1
      reads this, heap, nodes
      ensures |ts| == last + 1
    {
      seq(last + 1, k requires 0 <= k < last + 1 reads this, heap, nodes => Time(k))
    }

    /** The nodes on the heap. */
    ghost function Members(): set<Node>
      reads this, nodes
    {
      set n | n in nodes && n.loc >= 0
    }

    constructor ()
      ensures Valid() && last == -1 && nodes == {} && fresh(heap) && heap.Length == 4096
    {
      heap := new Node?[4096](_ => null);
      last, nodes := -1, {};
    }

    /** A socket's node, which is not on any heap. */
    ghost method Register(n: Node)
      requires Valid() && n !in nodes && n.loc == -1
      modifies this`nodes
      ensures Valid() && nodes == old(nodes) + {n} && Members() == old(Members())
    {
      nodes := nodes + {n};
    }

    /** Two entries change places on the way up; the one that goes down is told so. */
    method Exchange(p: int, q: int, n: Node, t: Node)
      requires 0 <= p < q <= last < heap.Length && heap[p] == t && heap[q] == n && t != n
      requires Located(n)
      modifies heap, t`loc
      ensures Located(n) && heap[p] == n && heap[q] == t && t.loc == q
      ensures Times() == Swap(old(Times()), p, q)
    {
      heap[p] := n;
      heap[q] := t;
      t.loc := q;
    }

    /** A node joins behind the last entry. */
    method Append(ts: int, n: Node)
      requires Valid() && n in nodes && n.loc == -1 && last < heap.Length - 1
      modifies this`last, heap, n`time
      ensures Located(n) && last == old(last) + 1 && heap[last] == n && n.time == ts
      ensures Times() == old(Times()) + [ts]
    {
      last := last + 1;
      heap[last] := n;
      n.time := ts;
    }

    lemma TimeAt(n: Node?, k: int)
      requires Located(n) && 0 <= k <= last
      ensures 0 <= k < heap.Length && heap[k] != null && heap[k] in nodes
      ensures Times()[k] == heap[k].time && |Times()| == last + 1
    {
    }

    /** The last entry rises to its place; only places between its first one
        and the root change. */
    method Rise(n: Node, ghost ordered: bool)
      requires Located(n) && n in nodes && n.loc == -1 && 0 <= last && heap[last] == n
      requires ordered ==> Rising(Times(), last)
      modifies heap, nodes`loc
      ensures Valid() && n.loc >= 0 && (ordered ==> Ordered(Times()))
      ensures SameOffPath(Times(), old(Times()), last)
      ensures forall m :: m in nodes && m != n ==> (m.loc >= 0 <==> old(m.loc) >= 0)
    {
      hide Times, Time, OrderedBut, Rising, SameOffPath;
      var q := last;
      var p := q;
      PathStart(Times(), last);
      while p != 0
        invariant 0 <= p && p == q <= last && heap[q] == n && n.loc == -1 && Located(n)
        invariant ordered ==> Rising(Times(), q)
        invariant OnPath(q, last) && SameOffPath(Times(), old(Times()), last)
        invariant forall m :: m in nodes && m != n ==> (m.loc >= 0 <==> old(m.loc) >= 0)
        decreases q
      {
        p := (q - 1) / 2;
        TimeAt(n, p);
        TimeAt(n, q);
        PathStep(Times(), old(Times()), q, last);
        if heap[p].time > heap[q].time {
          if ordered { RiseOne(Times(), q); }
          Exchange(p, q, n, heap[p]);
          q := p;
        } else {
          break;
        }
      }
      if ordered { RiseDone(Times(), q); }
      Settle(n, q);
    }

    /** The node that moved learns its place. */
    method Settle(n: Node, q: int)
      requires Located(n) && n in nodes && 0 <= q <= last && heap[q] == n
      modifies n`loc
      ensures Valid() && n.loc == q && Times() == old(Times())
    {
      n.loc := q;
    }

    /** The places insert_() writes to before the node rises. */
    ghost function Writes(n: Node): set<int>
      reads this, n
    {
      if n.loc >= 0 then {} else {last + 1}
    }

    /** They are inside the array if and only if the node is there already or the
        array is not full. */
    lemma WritesInside(n: Node)
      requires Valid()
      ensures (forall k :: k in Writes(n) ==> 0 <= k < heap.Length) <==> n.loc >= 0 || last < heap.Length - 1
    {
      if n.loc < 0 { assert last + 1 in Writes(n); }
    }

    /** insert_(): the node joins with its time, unless it is there already. */
    method InsertNode(ts: int, n: Node)
      requires Valid() && n in nodes && (n.loc < 0 ==> last < heap.Length - 1)
      modifies this`last, heap, nodes
      ensures Valid() && (old(n.loc) >= 0 ==> last == old(last) && n.time == old(n.time))
      ensures old(n.loc) < 0 ==> n.time == ts && last == old(last) + 1
      ensures Members() == old(Members()) + {n}
      ensures forall m :: m in nodes && m != n ==> m.time == old(m.time)
      ensures old(Ordered(Times())) ==> Ordered(Times())
      ensures forall j :: 0 <= j <= old(last) && !OnPath(j, old(last) + 1) ==> Times()[j] == old(Times())[j]
    {
      if n.loc >= 0 {
        return;
      }
      hide Times, OnPath, SameOffPath, OrderedBut, Rising;
      ghost var was := Times();
      Append(ts, n);
      if Ordered(was) { RiseStart(was, ts); }
      Rise(n, Ordered(was));
      OffPath(Times(), was, ts);
    }

    /** Two entries change places on the way down; both are told so. */
    method Sift(q: int, p: int, m: Node, t: Node, ghost n: Node)
      requires 0 <= q < p <= last < heap.Length && heap[q] == m && heap[p] == t && m != t && m != n && t != n
      requires Located(n) && Without(n)
      modifies heap, m`loc, t`loc
      ensures Located(n) && Without(n) && heap[q] == t && heap[p] == m
      ensures Times() == Swap(old(Times()), p, q)
    {
      heap[p] := m;
      m.loc := p;
      heap[q] := t;
      t.loc := q;
    }

    /** The heap does not point to n. */
    ghost predicate Without(n: Node)
      reads this, heap
    {
      last < heap.Length && forall k :: 0 <= k <= last ==> heap[k] != n
    }

    /** The last entry takes the place of n. */
    method Replace(n: Node)
      requires Valid() && n in nodes && n.loc >= 0
      modifies this`last, heap, nodes`loc
      ensures n.loc == old(n.loc) && last == old(last) - 1 && Located(n) && Without(n)
      ensures Times() == Vacated(old(Times()), n.loc)
      ensures forall m :: m in nodes && m != n ==> (m.loc >= 0 <==> old(m.loc) >= 0)
    {
      heap[n.loc] := heap[last];
      last := last - 1;
      heap[n.loc].loc := n.loc;
    }

    /** The entry at place r sinks to its place. */
    method Sink(r: int, ghost n: Node, ghost ordered: bool)
      requires Located(n) && Without(n) && n in nodes && 0 <= r <= last + 1
      requires ordered ==> Sinking(Times(), r, r) && Above(Times(), r)
      modifies heap, nodes`loc
      ensures Located(n) && Without(n) && n.loc == old(n.loc)
      ensures ordered ==> OrderedBut(Times(), r) && TopKept(Times(), old(Times()), r)
      ensures forall m :: m in nodes && m != n ==> (m.loc >= 0 <==> old(m.loc) >= 0)
    {
      hide *;
      ghost var ts0 := Times();
      TopStart(ts0, r);
      var q := r;
      var done := false;
      while !done
        invariant 0 <= r <= q && Located(n) && Without(n) && n.loc == old(n.loc) && last >= -1
        invariant ordered ==> Sinking(Times(), q, r) && TopKept(Times(), ts0, r) && (q == r ==> Times() == ts0)
        invariant done ==> (ordered ==> OrderedBut(Times(), r))
        invariant forall m :: m in nodes && m != n ==> (m.loc >= 0 <==> old(m.loc) >= 0)
        decreases !done, last - q
      {
        q, done := SinkTurn(q, r, n, ordered, ts0);
      }
    }

    /** One turn: the entry at q changes places with its earlier child, if that
        is earlier than itself. */
    method SinkTurn(q: int, ghost r: int, ghost n: Node, ghost ordered: bool, ghost ts0: seq<int>)
      returns (next: int, done: bool)
      requires 0 <= r <= q && Located(n) && Without(n) && n in nodes && last >= -1
      requires ordered ==> Sinking(Times(), q, r) && TopKept(Times(), ts0, r)
      requires ordered ==> (q == r ==> Times() == ts0) && Above(ts0, r)
      modifies heap, nodes`loc
      ensures Located(n) && Without(n) && n.loc == old(n.loc)
      ensures ordered ==> Sinking(Times(), next, r) && TopKept(Times(), ts0, r)
      ensures if done then next == q && Times() == old(Times()) else q < next <= last
      ensures done && ordered ==> OrderedBut(Times(), r)
      ensures forall m :: m in nodes && m != n ==> (m.loc >= 0 <==> old(m.loc) >= 0)
    {
      hide Times, Time, OrderedBut, Sinking, TopKept, Above;
      var p := q * 2 + 1;
      next, done := q, true;
      if p <= last {
        TimeAt(n, p);
        TimeAt(n, q);
        if p + 1 <= last {
          TimeAt(n, p + 1);
          if heap[p].time > heap[p + 1].time {
            p := p + 1;
          }
        }
        if heap[q].time > heap[p].time {
          if ordered {
            SinkOne(Times(), q, r);
            TopStep(Times(), ts0, q, r);
          }
          Sift(q, p, heap[q], heap[p], n);
          next, done := p, false;
        }
      }
      if done && ordered { SinkDone(Times(), q, r); }
    }

    /** remove_(): the node leaves.  The heap stays in order exactly when its
        last entry may stand where the node stood. */
    method RemoveNode(n: Node)
      requires Valid() && n in nodes
      modifies this`last, heap, nodes`loc
      ensures Valid() && n.loc == -1 && Members() == old(Members()) - {n}
      ensures last == old(last) - if old(n.loc) >= 0 then 1 else 0
      ensures old(n.loc) >= 0 && old(Ordered(Times())) ==> (Ordered(Times()) <==> MayMove(old(Times()), old(n.loc)))
      ensures old(n.loc) >= 0 && old(Ordered(Times())) ==> OrderedBut(Times(), old(n.loc))
    {
      hide Times, OrderedBut, MayMove;
      if n.loc >= 0 {
        ghost var was, r := Times(), n.loc;
        TimeAt(null, r);
        if Ordered(was) { SinkStart(was, r); }
        Replace(n);
        Sink(n.loc, n, Ordered(was));
        if Ordered(was) { OrderAfter(was, r, Times()); }
        Unplace(n);
      }
    }

    method Unplace(n: Node)
      requires Located(n) && Without(n) && n in nodes
      modifies n`loc
      ensures Valid() && n.loc == -1 && Times() == old(Times())
    {
      n.loc := -1;
    }

    /** A copy of the array in one of twice the length. */
    method Grown() returns (temp: array<Node?>)
      requires heap.Length > 0
      ensures fresh(temp) && temp.Length > heap.Length && temp[..heap.Length] == heap[..]
    {
      temp := new Node?[heap.Length * 2](_ => null);
      for k := 0 to heap.Length
        invariant temp[..k] == heap[..k]
      {
        temp[k] := heap[k];
      }
    }

    method Move(temp: array<Node?>)
      requires Valid() && temp.Length > heap.Length && temp[..heap.Length] == heap[..]
      modifies this`heap
      ensures Valid() && heap == temp && Times() == old(Times())
    {
      assert forall k :: 0 <= k < heap.Length ==> temp[k] == temp[..heap.Length][k];
      heap := temp;
    }

    /** insert(): a full array doubles first. */
    method Insert(ts: int, n: Node)
      requires Valid() && n in nodes
      modifies this`heap, this`last, heap, nodes
      ensures Valid() && Members() == old(Members()) + {n} && (heap == old(heap) || fresh(heap))
      ensures old(Ordered(Times())) ==> Ordered(Times())
      ensures n.time == if old(n.loc) < 0 then ts else old(n.time)
      ensures forall m :: m in nodes && m != n ==> m.time == old(m.time)
    {
      hide OrderedBut;
      if last == heap.Length - 1 {
        var temp := Grown();
        Move(temp);
      }
      InsertNode(ts, n);
    }

    /** update(): the node is to be served at once, unless it is on the heap
        and not to be rescheduled. */
    method Update(n: Node, reschedule: bool)
      requires Valid() && n in nodes && (n.loc < 0 ==> last < heap.Length - 1)
      modifies this`last, heap, nodes
      ensures Valid() && Members() == old(Members()) + {n}
      ensures n.time == (if old(n.loc) < 0 || reschedule then 1 else old(n.time))
      ensures forall m :: m in nodes && m != n ==> m.time == old(m.time)
      ensures old(n.loc) >= 0 && !reschedule ==> Times() == old(Times())
      ensures old(Ordered(Times()) && FromOne(Times())) ==>
        (Ordered(Times()) <==> (old(n.loc) > 0 && reschedule ==> MayMove(old(Times()), old(n.loc))))
    {
      hide OrderedBut, MayMove, OnPath;
      ghost var was, r := Times(), n.loc;
      if n.loc >= 0 {
        if !reschedule {
          return;
        }
        if n.loc == 0 {
          RootSooner(Times());
          SetTime(n, 1);
          return;
        }
        RemoveNode(n);
      }
      ghost var less := Times();
      InsertNode(1, n);
      if r > 0 && Ordered(was) && !MayMove(was, r) { BreakStays(was, less, Times(), r); }
    }

    method SetTime(n: Node, t: int)
      requires Valid() && n in nodes && n.loc >= 0
      modifies n`time
      ensures Valid() && n.time == t && Times() == old(Times())[n.loc := t]
    {
      n.time := t;
    }

    /** getNextProcTime(): the earliest time of all, 0 without any. */
    method GetNextProcTime() returns (t: int)
      requires Valid()
      ensures last == -1 ==> t == 0
      ensures last >= 0 ==> t in Times() && (Ordered(Times()) ==> forall k :: 0 <= k <= last ==> t <= Times()[k])
    {
      if -1 == last {
        return 0;
      }
      t := heap[0].time;
      assert Times()[0] == t;
      if Ordered(Times()) {
        forall k | 0 <= k <= last ensures t <= Times()[k] { RootIsEarliest(Times(), k); }
      }
    }

    /** pop(): the first socket is served.  It is `alive`, and if it is it may
        have `packed` a packet and want to be called again at time `ts`. */
    method Pop(alive: bool, packed: bool, ts: int) returns (r: int, n: Node?)
      requires Valid()
      modifies this`last, heap, nodes
      ensures Valid() && (old(last) < 0 <==> n == null)
      ensures n == null ==> r == -1 && Members() == old(Members())
      ensures n != null ==> n in old(Members()) && r == if alive && packed then 1 else -1
      ensures n != null ==> Members() == old(Members()) - (if r == 1 && ts > 0 then {} else {n})
      ensures n != null ==> n.time == if r == 1 && ts > 0 then ts else old(n.time)
      ensures forall m :: m in nodes && m != n ==> m.time == old(m.time)
      ensures n != null && old(Ordered(Times())) ==> forall k :: 0 <= k <= old(last) ==> old(n.time) <= old(Times())[k]
      ensures old(Ordered(Times())) ==> Ordered(Times())
    {
      hide OrderedBut;
      if -1 == last {
        return -1, null;
      }
      ghost var was := Times();
      n := heap[0];
      if Ordered(was) {
        forall k | 0 <= k <= last ensures was[0] <= was[k] { RootIsEarliest(was, k); }
      }
      RemoveNode(n);
      if !alive || !packed {
        return -1, n;
      }
      if ts > 0 {
        InsertNode(ts, n);
      }
      r := 1;
    }
  }

  ghost predicate FromOne(ts: seq<int>) { forall k :: 0 <= k < |ts| ==> 1 <= ts[k] }

  lemma RootSooner(ts: seq<int>)
    requires |ts| > 0
    ensures Ordered(ts) && 1 <= ts[0] ==> Ordered(ts[0 := 1])
  {
  }

  lemma RiseStart(ts: seq<int>, t: int)
    requires Ordered(ts)
    ensures Rising(ts + [t], |ts|)
  {
  }

  /** The times once the last one has taken the place of r. */
  function Vacated(ts: seq<int>, r: int): seq<int>
    requires 0 <= r < |ts|
  {
    ts[r := ts[|ts| - 1]][..|ts| - 1]
  }

  /** What is below r is not before the parent of r. */
  ghost predicate Above(ts: seq<int>, r: int) {
    0 < r < |ts| ==> forall k :: 0 < k < |ts| && Parent(k) == r ==> ts[Parent(r)] <= ts[k]
  }

  /** The last entry may take the place of r. */
  ghost predicate MayMove(ts: seq<int>, r: int)
    requires 0 <= r < |ts|
  {
    r == 0 || r == |ts| - 1 || ts[Parent(r)] <= ts[|ts| - 1]
  }

  /** Sinking changes at r only what it may: an earlier time, but not one before
      that of the parent. */
  ghost predicate TopKept(ts: seq<int>, ts0: seq<int>, r: int) {
    && |ts| == |ts0|
    && (0 < r < |ts| ==>
          ts[Parent(r)] == ts0[Parent(r)] && (ts[r] == ts0[r] || ts[Parent(r)] <= ts[r] < ts0[r]))
  }

  lemma TopStart(ts: seq<int>, r: int)
    ensures TopKept(ts, ts, r)
  {
  }

  lemma TopStep(ts: seq<int>, ts0: seq<int>, q: int, r: int)
    requires TopKept(ts, ts0, r) && Above(ts0, r) && 0 <= r <= q && 2 * q + 1 < |ts| && (q == r ==> ts == ts0)
    requires ts[q] > ts[Child(ts, q)]
    ensures TopKept(Swap(ts, Child(ts, q), q), ts0, r)
  {
    assert Parent(Child(ts, q)) == q;
  }

  lemma SinkStart(ts: seq<int>, r: int)
    requires Ordered(ts) && 0 <= r < |ts|
    ensures Sinking(Vacated(ts, r), r, r) && Above(Vacated(ts, r), r)
  {
    var t := Vacated(ts, r);
    forall k | 0 < k < |t| && Parent(k) == r && 0 < r < |t| ensures t[Parent(r)] <= t[k] {
      assert ts[Parent(r)] <= ts[r] <= ts[k];
    }
  }

  lemma OrderAfter(was: seq<int>, r: int, ts: seq<int>)
    requires Ordered(was) && 0 <= r < |was| && OrderedBut(ts, r) && TopKept(ts, Vacated(was, r), r)
    ensures Ordered(ts) <==> MayMove(was, r)
  {
    if 0 < r < |ts| {
      assert Ordered(ts) <==> ts[Parent(r)] <= ts[r];
    } else {
      assert Ordered(ts);
    }
  }

  /** Removal can leave an entry before its parent: of these times, that at
      place 3 goes, and there is nothing to sift. */
  lemma RemovalBreaks()
    ensures var was := [1, 10, 2, 11, 12, 3];
      && Ordered(was) && Vacated(was, 3) == [1, 10, 2, 3, 12] && 2 * 3 + 1 >= |Vacated(was, 3)|
      && !Ordered(Vacated(was, 3))
  {
    var ts := Vacated([1, 10, 2, 11, 12, 3], 3);
    assert ts == [1, 10, 2, 3, 12] && ts[Parent(3)] > ts[3];
  }

  /** Place j is k, or on the way from k up to the root. */
  ghost predicate OnPath(j: int, k: int) { j == k || (k > 0 && OnPath(j, Parent(k))) }

  /** Only places on the way from k to the root differ. */
  ghost predicate SameOffPath(ts: seq<int>, was: seq<int>, k: int) {
    |ts| == |was| && forall j :: 0 <= j < |ts| && !OnPath(j, k) ==> ts[j] == was[j]
  }

  lemma OffPath(ts: seq<int>, was: seq<int>, t: int)
    requires SameOffPath(ts, was + [t], |was|)
    ensures forall j :: 0 <= j < |was| && !OnPath(j, |was|) ==> ts[j] == was[j]
  {
  }

  lemma PathStart(ts: seq<int>, k: int)
    ensures SameOffPath(ts, ts, k) && OnPath(k, k)
  {
  }

  lemma PathStep(ts: seq<int>, was: seq<int>, q: int, k: int)
    requires SameOffPath(ts, was, k) && OnPath(q, k) && 0 < q < |ts|
    ensures OnPath(Parent(q), k) && SameOffPath(Swap(ts, Parent(q), q), was, k)
  {
    PathUp(q, k);
  }

  lemma {:induction false} PathUp(q: int, k: int)
    requires OnPath(q, k) && q > 0
    ensures OnPath(Parent(q), k)
    decreases k
  {
    if q != k { PathUp(q, Parent(k)); }
  }

  lemma {:induction false} PathEarlier(ts: seq<int>, j: int, k: int)
    requires Ordered(ts) && OnPath(j, k) && 0 <= k < |ts|
    ensures 0 <= j <= k && ts[j] <= ts[k]
    decreases k
  {
    if j != k { PathEarlier(ts, j, Parent(k)); }
  }

  /** The node that comes back does not pass the place where order is broken, so
      the break stays. */
  lemma BreakStays(was: seq<int>, less: seq<int>, ts: seq<int>, r: int)
    requires Ordered(was) && 0 < r < |was| && !MayMove(was, r)
    requires |less| == |was| - 1 && |ts| == |was| && OrderedBut(less, r) && !Ordered(less)
    requires forall j :: 0 <= j < |less| && !OnPath(j, |less|) ==> ts[j] == less[j]
    ensures !Ordered(ts)
  {
    var last := |was| - 1;
    if OnPath(Parent(r), last) { PathEarlier(was, Parent(r), last); }
    if OnPath(r, last) { PathUp(r, last); }
    assert less[Parent(r)] > less[r];
  }

  /** As many sockets as the array has places are on the list, and one more wants
      to send: update() calls insert_() without asking for room, and the write
      would be behind the end of the array. */
  method FullHeap() returns (l: SndUList, n: Node)
    ensures l.Valid() && n in l.nodes && n.loc == -1 && l.last == l.heap.Length - 1
    ensures l.Writes(n) == {l.heap.Length}
  {
    l := new SndUList();
    for k := 0 to l.heap.Length
      invariant l.Valid() && fresh(l) && fresh(l.heap) && fresh(l.nodes) && l.last == k - 1 && l.heap.Length == 4096
    {
      n := new Node();
      l.Register(n);
      l.InsertNode(1, n);
    }
    n := new Node();
    l.Register(n);
  }
}
