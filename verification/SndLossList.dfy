/** CSndLossList (UDT4/src/list.cpp:46-418): the sender's set of lost sequence
    numbers, as intervals linked through a fixed circular array.  `Elems()` is
    the set; callers name the indices behind the numbers they pass. */
module SndLossList {
  import opened SeqNo
  import opened LossNodes
  import opened LossCells

  lemma LosHisInElems(ns: seq<Node>)
    requires Ascending(ns)
    ensures forall k :: 0 <= k < |ns| ==> ns[k].lo in Elems(ns) && ns[k].hi in Elems(ns)
  {
    forall k | 0 <= k < |ns| ensures ns[k].lo in Elems(ns) && ns[k].hi in Elems(ns) {
      InElems(ns, ns[k].lo);
      InElems(ns, ns[k].hi);
    }
  }

  class SndLossList {
    const size: int
    const data1: array<int>       // m_piData1: interval starts, -1 in a free slot
    const data2: array<int>       // m_piData2: interval ends, -1 for a single number
    const next: array<int>        // m_piNext: slot of the next interval, or -1
    var head: int                 // m_iHead
    var length: int               // m_iLength
    var lastInsertPos: int        // m_iLastInsertPos: search hint, or -1
    ghost var nodes: seq<Node>    // the intervals, in order
    ghost var origin: int         // the index whose slot is 0

    ghost function Cells(): Cells
      reads data1, data2, next
    {
      LossCells.Cells(data1[..], data2[..], next[..])
    }

    /** Slot of interval k, or -1 past the last one. */
    ghost function Pos(k: int): int
      requires size > 0 && k >= 0
      reads this
    {
      if k < |nodes| then Slot(origin, size, nodes[k].lo) else -1
    }

    /** The chain is in place, whatever the head says. */
    ghost predicate Chained()
      reads this, data1, data2, next
    {
      && data1 != data2 && data1 != next && data2 != next
      && data1.Length == size
      && Rep(Cells(), origin, nodes)
      && length == Sum(nodes)
      && (lastInsertPos == -1 || Used(origin, size, nodes, lastInsertPos))
    }

    /** The invariant inside `Insert`, when one interval may overlap others. */
    ghost predicate Linked()
      reads this, data1, data2, next
    {
      Chained() && (|nodes| > 0 ==> head == Pos(0))
    }

    ghost predicate Valid()
      reads this, data1, data2, next
    {
      Linked() && Disjoint(nodes)
    }

    /** The lost indices. */
    ghost function Elems(): set<int>
      reads this
    {
      LossNodes.Elems(nodes)
    }

    constructor (size: int)
      requires 0 < size <= TH
      ensures Valid() && Elems() == {} && this.size == size
      ensures fresh(data1) && fresh(data2) && fresh(next)
    {
      this.size := size;
      data1 := new int[size](_ => -1);
      data2 := new int[size](_ => -1);
      next := new int[size];
      head, length, lastInsertPos := -1, 0, -1;
      nodes, origin := [], 0;
    }

    lemma LengthIsCard()
      requires Valid()
      ensures length == |Elems()|
    {
      SumIsCard(nodes);
    }

    method GetLossLength() returns (r: int)
      requires Valid()
      ensures r == |Elems()|
    {
      LengthIsCard();
      r := length;
    }

    // ----- insertion -----

    /** The new interval [a..b] goes into the free slot `loc`, behind the
        interval in slot `prior`, or in front of the head when `prior` is -1. */
    method PutAt(loc: int, prior: int, seqno1: int, seqno2: int, ghost p: int, ghost a: int, ghost b: int)
      requires Linked() && |nodes| > 0 && 0 <= p <= |nodes| && a <= b < a + size
      requires seqno1 == Wrap(a) && seqno2 == Wrap(b) && loc == Slot(origin, size, a)
      requires if p > 0 then nodes[p - 1].lo < a && prior == Pos(p - 1) else prior == -1
      requires p < |nodes| ==> a < nodes[p].lo
      requires Spans(Put(nodes, p, Node(a, b)), size)
      modifies this, data1, data2, next
      ensures Linked() && nodes == Put(old(nodes), p, Node(a, b)) && origin == old(origin)
      ensures lastInsertPos == loc
    {
      hide Wrap, Slot, Sum, Ascending, Used;
      ghost var c := Cells();
      WrapInjective(a, b);
      assert p > 0 ==> NodeAt(c, origin, nodes, p - 1);
      data1[loc] := seqno1;
      if seqno2 != seqno1 {
        data2[loc] := seqno2;
      }
      if prior == -1 {
        next[loc] := head;
        head := loc;
      } else {
        next[loc] := next[prior];
        next[prior] := loc;
      }
      length := length + SeqLen(seqno1, seqno2);
      lastInsertPos := loc;
      LenOfRange(a, b);
      PutElems(nodes, p, Node(a, b));
      PutNode(c, origin, nodes, p, Node(a, b), Cells());
      nodes := Put(nodes, p, Node(a, b));
      UsedNode(origin, size, nodes, p);
    }

    /** The end of interval p moves up to `b`. */
    method Extend(loc: int, seqno2: int, ghost p: int, ghost b: int)
      requires Linked() && 0 <= p < |nodes| && loc == Pos(p) && seqno2 == Wrap(b)
      requires nodes[p].hi < b < nodes[0].lo + size
      modifies this, data2
      ensures Linked() && origin == old(origin) && lastInsertPos == old(lastInsertPos)
      ensures nodes == old(nodes)[p := Node(old(nodes)[p].lo, b)]
    {
      hide Wrap, Slot;
      ghost var c := Cells();
      ghost var nd := nodes[p];
      assert NodeAt(c, origin, nodes, p);
      if -1 == data2[loc] {
        length := length + SeqLen(data1[loc], seqno2) - 1;
        LenOfRange(nd.lo, b);
      } else {
        length := length + SeqLen(data2[loc], seqno2) - 1;
        LenOfRange(nd.hi, b);
      }
      data2[loc] := seqno2;
      MoveEndElems(nodes, p, b);
      MoveEnd(c, origin, nodes, p, b, Cells());
      ghost var ms := nodes[p := Node(nd.lo, b)];
      if lastInsertPos != -1 { SameLosUsed(origin, size, nodes, ms, lastInsertPos); }
      nodes := ms;
    }

    /** First half of a turn of the coalescing loop: interval p, ending at
        data2[loc], takes over the end of the interval behind it, and the
        length forgets what both had counted. */
    method AbsorbEnd(loc: int, i: int, ghost p: int)
      requires Linked() && 0 <= p < |nodes| - 1 && loc == Pos(p) && i == Pos(p + 1)
      requires nodes[p].lo < nodes[p].hi && nodes[p + 1].lo <= nodes[p].hi + 1
      modifies this`length, data2
      ensures data2[..] == old(data2[..])[loc := Wrap(Max(nodes[p].hi, nodes[p + 1].hi))]
      ensures length == Sum(Merged(nodes, p))
    {
      hide Wrap, Slot;
      ghost var u, v := nodes[p], nodes[p + 1];
      assert NodeAt(Cells(), origin, nodes, p) && NodeAt(Cells(), origin, nodes, p + 1);
      WrapStep(u.hi);
      WrapInjective(v.lo, u.hi + 1);
      MergeElems(nodes, p);
      if -1 != data2[i] {
        CmpOfNear(v.hi, u.hi);
        CmpOfNear(u.hi, v.lo);
        if SeqCmp(data2[i], data2[loc]) > 0 {
          if SeqCmp(data2[loc], data1[i]) >= 0 {
            LenOfRange(v.lo, u.hi);
            length := length - SeqLen(data1[i], data2[loc]);
          }
          data2[loc] := data2[i];
        } else {
          LenOfRange(v.lo, v.hi);
          length := length - SeqLen(data1[i], data2[i]);
        }
      } else {
        if data1[i] == IncSeq(data2[loc]) {
          data2[loc] := data1[i];
        } else {
          length := length - 1;
        }
      }
    }

    /** One turn of the coalescing loop: interval p swallows the one behind it. */
    method MergeNext(loc: int, i: int, ghost p: int)
      requires Linked() && 0 <= p < |nodes| - 1 && loc == Pos(p) && i == Pos(p + 1)
      requires nodes[p].lo < nodes[p].hi && nodes[p + 1].lo <= nodes[p].hi + 1
      requires lastInsertPos == loc
      modifies this, data1, data2, next
      ensures Linked() && nodes == Merged(old(nodes), p) && origin == old(origin)
      ensures lastInsertPos == loc
    {
      hide Wrap, Slot;
      ghost var c := Cells();
      ghost var hi := Max(nodes[p].hi, nodes[p + 1].hi);
      ghost var m := nodes[p := Node(nodes[p].lo, hi)];
      SlotInjective(origin, size, nodes[p].lo, nodes[p + 1].lo);
      AbsorbEnd(loc, i, p);
      ghost var c1 := Cells();
      MoveEnd(c, origin, nodes, p, hi, c1);
      data1[i] := -1;
      data2[i] := -1;
      next[loc] := next[i];
      CutNext(c1, origin, m, p, Cells());
      nodes := Merged(nodes, p);
      assert nodes[p] == m[p] && nodes[0].lo == m[0].lo;
    }

    /** The coalescing loop that closes every insertion. */
    method Coalesce(loc: int, ghost p: int)
      requires Linked() && 0 <= p < |nodes| && loc == Pos(p) && lastInsertPos == loc
      requires DisjointBut(nodes, p)
      modifies this, data1, data2, next
      ensures Valid() && Elems() == old(Elems())
      ensures p < |nodes| && nodes[p].lo == old(nodes)[p].lo
      ensures nodes[p].lo < nodes[p].hi && p + 1 < |nodes| ==> nodes[p].hi + 1 < nodes[p + 1].lo
    {
      hide Wrap, Slot;
      assert NodeAt(Cells(), origin, nodes, p);
      while -1 != next[loc] && -1 != data2[loc]
        invariant Linked() && 0 <= p < |nodes| && loc == Pos(p) && lastInsertPos == loc
        invariant DisjointBut(nodes, p) && Elems() == old(Elems()) && nodes[p].lo == old(nodes)[p].lo
        decreases |nodes|
      {
        var i := next[loc];
        assert NodeAt(Cells(), origin, nodes, p) && NodeAt(Cells(), origin, nodes, p + 1);
        ghost var u, v := nodes[p], nodes[p + 1];
        WrapStep(u.hi);
        CmpOfNear(v.lo, u.hi + 1);
        if SeqCmp(data1[i], IncSeq(data2[loc])) <= 0 {
          MergeElems(nodes, p);
          MergedDisjoint(nodes, p);
          MergeNext(loc, i, p);
        } else {
          break;
        }
      }
      assert NodeAt(Cells(), origin, nodes, p);
      assert p + 1 < |nodes| ==> nodes[p].hi < nodes[p + 1].lo;
      NowDisjoint(nodes, p);
    }

    /** Interval p already starts at or before `a`, and reaches `a`. */
    method Grow(loc: int, seqno1: int, seqno2: int, ghost p: int, ghost a: int, ghost b: int) returns (r: int)
      requires Valid() && 0 <= p < |nodes| && loc == Pos(p) && a <= b
      requires seqno1 == Wrap(a) && seqno2 == Wrap(b)
      requires nodes[p].lo <= a <= nodes[p].hi
      requires Fits(Elems() + Range(a, b), size)
      requires lastInsertPos == loc
      modifies this, data1, data2, next
      ensures Valid() && Elems() == old(Elems()) + Range(a, b)
      ensures r == |Elems()| - |old(Elems())|
    {
      hide Wrap, Slot;
      LengthIsCard();
      LosHisInElems(nodes);
      assert NodeAt(Cells(), origin, nodes, p);
      assert b in Range(a, b);
      assert b - nodes[p].lo < size && b - nodes[0].lo < size && -size < b - nodes[p].hi;
      var origlen := length;
      ghost var ns := nodes;
      CmpOfNear(b, nodes[p].hi);
      WrapInjective(a, b);
      GrowElems(ns, p, a, b);
      if -1 == data2[loc] {
        if seqno2 != seqno1 {
          Extend(loc, seqno2, p, b);
        }
      } else if SeqCmp(seqno2, data2[loc]) > 0 {
        Extend(loc, seqno2, p, b);
      } else {
        return 0;
      }
      Coalesce(loc, p);
      LengthIsCard();
      r := length - origlen;
    }

    /** Walks the chain from interval p0 to the last one that starts before `a`. */
    method FindFrom(start: int, seqno: int, ghost p0: int, ghost a: int) returns (i: int, ghost p: int)
      requires Valid() && 0 <= p0 < |nodes| && start == Pos(p0) && nodes[p0].lo < a && seqno == Wrap(a)
      requires forall k :: 0 <= k < |nodes| ==> Near(nodes[k].lo, a) && nodes[k].lo != a
      ensures 0 <= p < |nodes| && i == Pos(p) && nodes[p].lo < a
      ensures p + 1 < |nodes| ==> a < nodes[p + 1].lo
    {
      hide Wrap, Slot;
      i, p := start, p0;
      assert NodeAt(Cells(), origin, nodes, p);
      while -1 != next[i] && SeqCmp(data1[next[i]], seqno) < 0
        invariant 0 <= p < |nodes| && i == Pos(p) && nodes[p].lo < a
        invariant NodeAt(Cells(), origin, nodes, p)
        invariant p + 1 < |nodes| ==> NodeAt(Cells(), origin, nodes, p + 1)
        decreases |nodes| - p
      {
        CmpOfNear(nodes[p + 1].lo, a);
        i, p := next[i], p + 1;
        assert p + 1 < |nodes| ==> NodeAt(Cells(), origin, nodes, p + 1);
      }
      if p + 1 < |nodes| { CmpOfNear(nodes[p + 1].lo, a); }
    }

    /** The interval after which a new one starting at `a` belongs; the search
        starts from the hint when that lies before `a`. */
    method FindPrior(seqno1: int, ghost a: int) returns (i: int, ghost p: int)
      requires Valid() && |nodes| > 0 && nodes[0].lo < a && seqno1 == Wrap(a)
      requires forall k :: 0 <= k < |nodes| ==> Near(nodes[k].lo, a) && nodes[k].lo != a
      ensures 0 <= p < |nodes| && i == Pos(p) && nodes[p].lo < a
      ensures p + 1 < |nodes| ==> a < nodes[p + 1].lo
    {
      hide Wrap, Slot;
      i, p := head, 0;
      if -1 != lastInsertPos {
        ghost var h :| 0 <= h < |nodes| && Slot(origin, size, nodes[h].lo) == lastInsertPos;
        assert NodeAt(Cells(), origin, nodes, h);
        CmpOfNear(nodes[h].lo, a);
        if SeqCmp(data1[lastInsertPos], seqno1) < 0 {
          i, p := lastInsertPos, h;
        }
      }
      i, p := FindFrom(i, seqno1, p, a);
    }

    /** insert(seqno1, seqno2) into an empty list: slot 0 becomes the head. */
    method InsertFirst(seqno1: int, seqno2: int, ghost a: int, ghost b: int)
      requires Valid() && |nodes| == 0 && a <= b < a + size
      requires seqno1 == Wrap(a) && seqno2 == Wrap(b)
      modifies this, data1, data2, next
      ensures Valid() && Elems() == Range(a, b)
    {
      ghost var c := Cells();
      WrapInjective(a, b);
      LenOfRange(a, b);
      head := 0;
      data1[head] := seqno1;
      if seqno2 != seqno1 {
        data2[head] := seqno2;
      }
      next[head] := -1;
      lastInsertPos := head;
      length := length + SeqLen(seqno1, seqno2);
      origin := a;
      assert Slot(a, size, a) == 0;
      assert Rep(c, a, []);
      PutNode(c, a, [], 0, Node(a, b), Cells());
      PutElems([], 0, Node(a, b));
      nodes := Put([], 0, Node(a, b));
      assert nodes == [Node(a, b)];
    }

    /** The new interval starts before, or clear of, everything in front of it. */
    method InsertNew(loc: int, prior: int, seqno1: int, seqno2: int, ghost p: int, ghost a: int, ghost b: int)
      returns (r: int)
      requires Valid() && |nodes| > 0 && 0 <= p <= |nodes| && a <= b
      requires seqno1 == Wrap(a) && seqno2 == Wrap(b) && loc == Slot(origin, size, a)
      requires if p > 0 then nodes[p - 1].hi < a && prior == Pos(p - 1) else prior == -1
      requires p < |nodes| ==> a < nodes[p].lo
      requires Fits(Elems() + Range(a, b), size)
      modifies this, data1, data2, next
      ensures Valid() && Elems() == old(Elems()) + Range(a, b)
      ensures r == |Elems()| - |old(Elems())|
    {
      LengthIsCard();
      var origlen := length;
      PutFits(nodes, p, Node(a, b), size);
      PutElems(nodes, p, Node(a, b));
      PutAt(loc, prior, seqno1, seqno2, p, a, b);
      Coalesce(loc, p);
      LengthIsCard();
      r := length - origlen;
    }

    /** The branch of `Insert` for a range that starts after the head does. */
    method InsertBehindHead(loc: int, seqno1: int, seqno2: int, ghost a: int, ghost b: int) returns (r: int)
      requires Valid() && |nodes| > 0 && nodes[0].lo < a <= b
      requires seqno1 == Wrap(a) && seqno2 == Wrap(b) && loc == Slot(origin, size, a)
      requires Fits(Elems() + Range(a, b), size)
      requires forall k :: 0 <= k < |nodes| ==> Near(nodes[k].lo, a) && Near(nodes[k].hi, a)
      modifies this, data1, data2, next
      ensures Valid() && Elems() == old(Elems()) + Range(a, b)
      ensures r == |Elems()| - |old(Elems())|
    {
      hide Wrap, Slot;
      ghost var q := StartAt(a);
      if seqno1 == data1[loc] {
        lastInsertPos := loc;
        r := Grow(loc, seqno1, seqno2, q, a, b);
      } else {
        var i;
        ghost var p;
        i, p := FindPrior(seqno1, a);
        assert NodeAt(Cells(), origin, nodes, p);
        CmpOfNear(nodes[p].hi, a);
        if -1 == data2[i] || SeqCmp(data2[i], seqno1) < 0 {
          r := InsertNew(loc, i, seqno1, seqno2, p + 1, a, b);
        } else {
          lastInsertPos := i;
          r := Grow(i, seqno1, seqno2, p, a, b);
        }
      }
    }

    /** Adds [a..b] and returns how many of them were not in the list before. */
    method Insert(seqno1: int, seqno2: int, ghost a: int, ghost b: int) returns (r: int)
      requires Valid() && a <= b && seqno1 == Wrap(a) && seqno2 == Wrap(b)
      requires Fits(Elems() + Range(a, b), size)
      modifies this, data1, data2, next
      ensures Valid() && Elems() == old(Elems()) + Range(a, b)
      ensures r == |Elems()| - |old(Elems())|
    {
      hide Wrap, Slot;
      FitsNear(nodes, a, b, size);
      SumPositive(nodes);
      if 0 == length {
        InsertFirst(seqno1, seqno2, a, b);
        LengthIsCard();
        assert old(Elems()) == {};
        return length;
      }
      assert NodeAt(Cells(), origin, nodes, 0);
      OffOfNear(nodes[0].lo, a);
      var offset := SeqOff(data1[head], seqno1);
      SlotMoveFromBehind(origin, size, nodes[0].lo, offset);
      var loc := (head + offset + size) % size;
      if offset < 0 {
        r := InsertNew(loc, -1, seqno1, seqno2, 0, a, b);
      } else if offset > 0 {
        r := InsertBehindHead(loc, seqno1, seqno2, a, b);
      } else {
        lastInsertPos := head;
        r := Grow(loc, seqno1, seqno2, 0, a, b);
      }
    }

    // ----- removal -----

    /** A single number at the head: its interval is dropped. */
    method DropHead()
      requires Valid() && |nodes| > 0 && -1 == data2[head]
      modifies this, data1, data2, next
      ensures Valid() && Elems() == old(Elems()) - {old(nodes)[0].lo}
    {
      hide Wrap, Slot;
      ghost var c, ns := Cells(), nodes;
      assert NodeAt(c, origin, ns, 0);
      CutElems(ns, 0);
      CutDisjoint(ns, 0);
      assert Range(ns[0].lo, ns[0].lo) == {ns[0].lo};
      if lastInsertPos == head {
        lastInsertPos := -1;
      }
      if lastInsertPos != -1 { CutUsed(origin, size, ns, 0, lastInsertPos); }
      data1[head] := -1;
      head := next[head];
      DropFirst(c, origin, ns, Cells());
      length := length - 1;
      nodes := Cut(ns, 0);
    }

    /** More than one number at the head: [3, 7] becomes [], [4, 7]. */
    method ShiftCells(loc: int)
      requires Linked() && |nodes| > 0 && nodes[0].lo < nodes[0].hi
      requires loc == Slot(origin, size, nodes[0].lo + 1) && loc != head
      modifies data1, data2, next
      ensures data1[..] == old(data1[..])[loc := Wrap(nodes[0].lo + 1)][head := -1]
      ensures data2[..] == (if nodes[0].lo + 1 == nodes[0].hi then old(data2[..])
                            else old(data2[..])[loc := Wrap(nodes[0].hi)])[head := -1]
      ensures next[..] == old(next[..])[loc := old(next[head])]
    {
      hide Wrap, Slot;
      assert NodeAt(Cells(), origin, nodes, 0);
      WrapStep(nodes[0].lo);
      CmpOfNear(nodes[0].hi, nodes[0].lo + 1);
      data1[loc] := IncSeq(data1[head]);
      if SeqCmp(data2[head], data1[loc]) > 0 {
        data2[loc] := data2[head];
      }
      data1[head] := -1;
      data2[head] := -1;
      next[loc] := next[head];
    }

    method ShiftHead()
      requires Valid() && |nodes| > 0 && -1 != data2[head]
      modifies this, data1, data2, next
      ensures Valid() && Elems() == old(Elems()) - {old(nodes)[0].lo}
    {
      hide Wrap, Slot, LossNodes.Elems, Sum, Rep, Ascending, DisjointBut, Used;
      ghost var c, ns := Cells(), nodes;
      RepNode(c, origin, ns, 0);
      SlotMove(origin, size, ns[0].lo, 1);
      SlotInjective(origin, size, ns[0].lo, ns[0].lo + 1);
      var loc := (head + 1) % size;
      ShiftCells(loc);
      ShiftFirst(c, origin, ns, Cells());
      ShiftElems(ns);
      ShiftDisjoint(ns);
      ShiftUsed(origin, size, ns, lastInsertPos);
      if lastInsertPos == head {
        lastInsertPos := -1;
      }
      head := loc;
      length := length - 1;
      nodes := Shifted(ns);
    }

    /** The first number leaves the list. */
    method TakeHead()
      requires Valid() && |nodes| > 0
      modifies this, data1, data2, next
      ensures Valid() && Elems() == old(Elems()) - {old(nodes)[0].lo}
    {
      assert NodeAt(Cells(), origin, nodes, 0);
      if -1 == data2[head] {
        DropHead();
      } else {
        ShiftHead();
      }
    }

    /** getLostSeq(): pops the smallest lost number, -1 if there is none. */
    method GetLostSeq() returns (seqno: int, ghost s: int)
      requires Valid()
      modifies this, data1, data2, next
      ensures Valid()
      ensures old(Elems()) == {} ==> seqno == -1 && Elems() == {}
      ensures old(Elems()) != {} ==>
        && seqno == Wrap(s) && s in old(Elems()) && (forall x :: x in old(Elems()) ==> s <= x)
        && Elems() == old(Elems()) - {s}
    {
      SumPositive(nodes);
      if 0 == length {
        return -1, 0;
      }
      LosHisInElems(nodes);
      HeadIsLeast(nodes);
      assert NodeAt(Cells(), origin, nodes, 0);
      seqno, s := data1[head], nodes[0].lo;
      TakeHead();
    }

    /** Interval p is cut in two behind `x`: its tail moves to slot `loc`. */
    method SplitBehind(i: int, loc: int, seqno: int, ghost p: int, ghost x: int)
      requires Valid() && 0 <= p < |nodes| && nodes[p].lo <= x < nodes[p].hi
      requires i == Pos(p) && loc == Slot(origin, size, x + 1) && seqno == Wrap(x)
      modifies data1, data2, next, this`nodes, this`length
      ensures Valid() && nodes == Split(old(nodes), p, x)
    {
      hide Wrap, Slot, LossNodes.Elems, Sum;
      ghost var c, ns := Cells(), nodes;
      assert NodeAt(c, origin, ns, p);
      WrapStep(x);
      CmpOfNear(ns[p].hi, x + 1);
      WrapInjective(ns[p].lo, x);
      SlotInjective(origin, size, ns[p].lo, x + 1);
      data1[loc] := IncSeq(seqno);
      if SeqCmp(data2[i], data1[loc]) > 0 {
        data2[loc] := data2[i];
      }
      data2[i] := if seqno == data1[i] then -1 else seqno;
      next[loc] := next[i];
      next[i] := loc;
      SplitNode(c, origin, ns, p, x, Cells());
      SplitAscending(ns, p, x);
      SplitElems(ns, p, x);
      SplitUsed(origin, size, ns, p, x, lastInsertPos);
      nodes := Split(ns, p, x);
      assert nodes[0].lo == ns[0].lo;
    }

    /** One turn of the loop below: the first interval, in slot `h`, is erased. */
    method DropNode(h: int)
      requires Chained() && Disjoint(nodes) && |nodes| > 0 && h == Pos(0)
      modifies this`length, this`lastInsertPos, this`nodes, data1, data2
      ensures Chained() && Disjoint(nodes) && nodes == old(nodes)[1..]
    {
      hide Wrap, Slot, LossNodes.Elems, Sum, Rep, Ascending, DisjointBut, Used;
      ghost var c, ns := Cells(), nodes;
      RepNode(c, origin, ns, 0);
      CutElems(ns, 0);
      CutDisjoint(ns, 0);
      CutUsed(origin, size, ns, 0, lastInsertPos);
      LenOfRange(ns[0].lo, ns[0].hi);
      if data2[h] != -1 {
        length := length - SeqLen(data1[h], data2[h]);
        data2[h] := -1;
      } else {
        length := length - 1;
      }
      data1[h] := -1;
      if lastInsertPos == h {
        lastInsertPos := -1;
      }
      DropFirst(c, origin, ns, Cells());
      nodes := Cut(ns, 0);
    }

    /** The loop that removes all intervals in front of the new head. */
    method DropUntil(newHead: int, ghost p: int)
      requires Valid() && 0 < p <= |nodes| && newHead == Pos(p)
      modifies this, data1, data2, next
      ensures Valid() && nodes == old(nodes)[p..]
    {
      hide Wrap, Slot, LossNodes.Elems, Sum, Rep;
      PosApart(p);
      var h := head;
      head := newHead;
      ghost var ns, j := nodes, 0;
      while h != newHead
        invariant 0 <= j <= p && nodes == ns[j..] && origin == old(origin)
        invariant Chained() && Disjoint(nodes) && head == newHead
        invariant h == (if j < |ns| then Slot(origin, size, ns[j].lo) else -1)
        decreases p - j
      {
        NextOf(0);
        DropNode(h);
        h := next[h];
        j := j + 1;
        assert nodes == ns[j..];
      }
    }

    lemma NextOf(k: int)
      requires Chained() && 0 <= k < |nodes|
      ensures size > 0 && 0 <= Pos(k) < next.Length && next[Pos(k)] == Pos(k + 1)
    {
      assert NodeAt(Cells(), origin, nodes, k);
    }

    lemma PosApart(p: int)
      requires Chained() && 0 <= p <= |nodes|
      ensures size > 0
      ensures forall j :: 0 <= j < p ==> Slot(origin, size, nodes[j].lo) != Pos(p)
    {
      hide Slot;
      forall j | 0 <= j < p ensures Slot(origin, size, nodes[j].lo) != Pos(p) {
        if p < |nodes| {
          assert nodes[p].hi - nodes[0].lo < size && nodes[j].hi - nodes[0].lo < size;
          SlotInjective(origin, size, nodes[j].lo, nodes[p].lo);
        }
      }
    }

    /** Interval p starts at or before `x`, the next one after it: what is not
        after `x` goes, cutting interval p in two if `x` lies inside it. */
    method RemoveThrough(i: int, loc: int, seqno: int, ghost p: int, ghost x: int)
      requires Valid() && 0 <= p < |nodes| && i == Pos(p)
      requires nodes[p].lo <= x && (p + 1 < |nodes| ==> x < nodes[p + 1].lo)
      requires seqno == Wrap(x) && loc == Slot(origin, size, x + 1)
      requires Near(nodes[p].lo, x) && Near(nodes[p].hi, x)
      modifies this, data1, data2, next
      ensures Valid() && Elems() == set y | y in old(Elems()) && y > x
    {
      hide Wrap, Slot, LossNodes.Elems, Sum, Rep, Ascending, DisjointBut, Used;
      ghost var ns := nodes;
      RepNode(Cells(), origin, ns, p);
      NextOf(p);
      WrapInjective(ns[p].lo, x);
      CmpOfNear(ns[p].hi, x);
      if -1 != data2[i] && (seqno == data1[i] || SeqCmp(data2[i], seqno) > 0) {
        SplitElems(ns, p, x);
        SplitAscending(ns, p, x);
        SplitBehind(i, loc, seqno, p, x);
        assert nodes[p + 1].lo == x + 1 && nodes[p].hi == x;
        DropElems(nodes, p + 1, x);
        DropUntil(loc, p + 1);
      } else {
        DropElems(ns, p + 1, x);
        DropUntil(next[i], p + 1);
      }
    }

    /** The branch of `Remove` for a number after the head. */
    method RemoveBehindHead(loc: int, seqno: int, ghost x: int)
      requires Valid() && |nodes| > 0 && nodes[0].lo < x && seqno == Wrap(x)
      requires loc == Slot(origin, size, x)
      requires forall k :: 0 <= k < |nodes| ==> Near(nodes[k].lo, x) && Near(nodes[k].hi, x)
      modifies this, data1, data2, next
      ensures Valid() && Elems() == set y | y in old(Elems()) && y > x
    {
      hide Wrap, Slot, LossNodes.Elems, Sum;
      var i := loc;
      ghost var p := StartAt(x);
      if seqno != data1[loc] {
        assert NodeAt(Cells(), origin, nodes, 0);
        i, p := FindFrom(head, seqno, 0, x);
      }
      SlotMove(origin, size, x, 1);
      RemoveThrough(i, (loc + 1) % size, seqno, p, x);
    }

    /** remove(seqno): forgets every number that is not after `seqno`. */
    method Remove(seqno: int, ghost x: int)
      requires Valid() && seqno == Wrap(x)
      requires forall y :: y in Elems() ==> Near(y, x)
      modifies this, data1, data2, next
      ensures Valid() && Elems() == set y | y in old(Elems()) && y > x
    {
      hide Wrap, Slot;
      SumPositive(nodes);
      if 0 == length {
        return;
      }
      LosHisInElems(nodes);
      HeadIsLeast(nodes);
      assert NodeAt(Cells(), origin, nodes, 0);
      OffOfNear(nodes[0].lo, x);
      var offset := SeqOff(data1[head], seqno);
      if 0 == offset {
        TakeHead();
      } else if offset > 0 {
        SlotMove(origin, size, nodes[0].lo, offset);
        SlotMoveFromBehind(origin, size, nodes[0].lo, offset);
        RemoveBehindHead((head + offset + size) % size, seqno, x);
      }
    }

    /** The slot of `x` holds `Wrap(x)` exactly when an interval starts at `x`. */
    lemma StartAt(x: int) returns (q: int)
      requires Valid() && |nodes| > 0
      requires forall k :: 0 <= k < |nodes| ==> Near(nodes[k].lo, x)
      ensures data1[Slot(origin, size, x)] == Wrap(x) ==> 0 <= q < |nodes| && nodes[q].lo == x
      ensures data1[Slot(origin, size, x)] != Wrap(x) ==> forall k :: 0 <= k < |nodes| ==> nodes[k].lo != x
    {
      hide Wrap, Slot;
      var s := Slot(origin, size, x);
      q := -1;
      if data1[s] == Wrap(x) {
        assert !Free(Cells(), s);
        assert Used(origin, size, nodes, s);
        q :| 0 <= q < |nodes| && Slot(origin, size, nodes[q].lo) == s;
        assert NodeAt(Cells(), origin, nodes, q);
        WrapInjective(nodes[q].lo, x);
      } else {
        forall k | 0 <= k < |nodes| ensures nodes[k].lo != x {
          assert NodeAt(Cells(), origin, nodes, k);
        }
      }
    }
  }

  lemma SumPositive(ns: seq<Node>)
    requires Ascending(ns)
    ensures Sum(ns) >= 0 && (Sum(ns) == 0 <==> |ns| == 0)
  {
    if |ns| > 0 { SumPositive(ns[1..]); }
  }

  lemma HeadIsLeast(ns: seq<Node>)
    requires Ascending(ns) && |ns| > 0
    ensures forall x :: x in LossNodes.Elems(ns) ==> ns[0].lo <= x
  {
    forall x | x in LossNodes.Elems(ns) ensures ns[0].lo <= x { InElems(ns, x); }
  }

  lemma FitsNear(ns: seq<Node>, a: int, b: int, size: int)
    requires Ascending(ns) && a <= b && 0 < size <= TH
    requires Fits(LossNodes.Elems(ns) + Range(a, b), size)
    ensures b - a < size
    ensures forall k :: 0 <= k < |ns| ==>
      && -size < ns[k].lo - a < size && Near(ns[k].lo, a) && Near(ns[k].hi, a)
  {
    LosHisInElems(ns);
    assert a in Range(a, b) && b in Range(a, b);
  }

  lemma PutFits(ns: seq<Node>, p: int, nd: Node, size: int)
    requires Ascending(ns) && Disjoint(ns) && 0 <= p <= |ns| && nd.lo <= nd.hi
    requires p > 0 ==> ns[p - 1].hi < nd.lo
    requires p < |ns| ==> nd.lo < ns[p].lo
    requires Fits(LossNodes.Elems(ns) + Range(nd.lo, nd.hi), size)
    ensures Spans(Put(ns, p, nd), size) && nd.hi - nd.lo < size
    ensures DisjointBut(Put(ns, p, nd), p)
  {
    hide LossNodes.Elems, DisjointBut;
    LosHisInElems(ns);
    assert nd.lo in Range(nd.lo, nd.hi) && nd.hi in Range(nd.lo, nd.hi);
    PutDisjoint(ns, p, nd);
    var s := LossNodes.Elems(ns) + Range(nd.lo, nd.hi);
    var ms := Put(ns, p, nd);
    assert ms[0] == if p == 0 then nd else ns[0];
    assert ms[0].lo in s;
    forall k | 0 <= k < |ms| ensures ms[k].hi - ms[0].lo < size {
      assert ms[k] == if k < p then ns[k] else if k == p then nd else ns[k - 1];
      assert ms[k].hi in s;
    }
  }

  lemma PutDisjoint(ns: seq<Node>, p: int, nd: Node)
    requires Ascending(ns) && Disjoint(ns) && 0 <= p <= |ns| && nd.lo <= nd.hi
    requires p > 0 ==> ns[p - 1].hi < nd.lo
    requires p < |ns| ==> nd.lo < ns[p].lo
    ensures DisjointBut(Put(ns, p, nd), p)
  {
    var ms := Put(ns, p, nd);
    forall j, k | 0 <= j < k < |ms| && j != p ensures ms[j].hi < ms[k].lo {
      if j < p {
        assert ms[j] == ns[j] && ns[j].hi <= ns[p - 1].hi;
        if k > p { assert ms[k] == ns[k - 1]; }
      } else {
        assert ms[j] == ns[j - 1] && ms[k] == ns[k - 1];
      }
    }
  }

  lemma GrowElems(ns: seq<Node>, p: int, a: int, b: int)
    requires Ascending(ns) && Disjoint(ns) && 0 <= p < |ns| && ns[p].lo <= a <= ns[p].hi && a <= b
    ensures b <= ns[p].hi ==> LossNodes.Elems(ns) + Range(a, b) == LossNodes.Elems(ns)
    ensures b > ns[p].hi ==>
      && LossNodes.Elems(ns[p := Node(ns[p].lo, b)]) == LossNodes.Elems(ns) + Range(a, b)
      && DisjointBut(ns[p := Node(ns[p].lo, b)], p)
  {
    CutElems(ns, p);
    MoveEndElems(ns, p, b);
    assert Range(ns[p].lo, Max(b, ns[p].hi)) == Range(ns[p].lo, ns[p].hi) + Range(a, b);
  }

  lemma MergedDisjoint(ns: seq<Node>, p: int)
    requires Ascending(ns) && 0 <= p < |ns| - 1 && DisjointBut(ns, p)
    ensures DisjointBut(Merged(ns, p), p) && Ascending(Merged(ns, p))
  {
    var ms := Merged(ns, p);
    assert forall k :: 0 <= k < |ms| && k != p ==> ms[k] == ns[if k < p then k else k + 1];
    assert ms[p].lo == ns[p].lo;
  }

  lemma NowDisjoint(ns: seq<Node>, p: int)
    requires Ascending(ns) && 0 <= p < |ns| && DisjointBut(ns, p)
    requires p + 1 < |ns| ==> ns[p].hi < ns[p + 1].lo
    ensures Disjoint(ns)
  {
    forall k | p < k < |ns| ensures ns[p].hi < ns[k].lo {
      assert ns[p + 1].lo <= ns[k].lo;
    }
  }
}
