/** CRcvLossList (UDT4/src/list.cpp:420-716): the receiver's set of missing
    sequence numbers, as a doubly linked chain of intervals. */
module RcvLossList {
  import opened Arith
  import opened SeqNo
  import opened LossNodes
  import opened LossCells
  import opened SndLossList
  import Nak

  /** The back links mirror the forward ones. */
  ghost predicate Back(prior: seq<int>, o: int, ns: seq<Node>) {
    |prior| > 0 && forall k :: 0 <= k < |ns| ==> BackAt(prior, o, ns, k)
  }

  ghost predicate BackAt(prior: seq<int>, o: int, ns: seq<Node>, k: int)
    requires |prior| > 0 && 0 <= k < |ns|
  {
    prior[Slot(o, |prior|, ns[k].lo)] == if k > 0 then Slot(o, |prior|, ns[k - 1].lo) else -1
  }

  /** All intervals start within one lap of each other. */
  ghost predicate OneLap(ns: seq<Node>, n: int) {
    && Ascending(ns)
    && forall j, k :: 0 <= j < k < |ns| ==> ns[k].lo - ns[j].lo < n
  }

  lemma SpansOneLap(ns: seq<Node>, n: int)
    requires Ascending(ns) && Spans(ns, n)
    ensures OneLap(ns, n)
  {
    forall j, k | 0 <= j < k < |ns| ensures ns[k].lo - ns[j].lo < n {
      assert ns[k].hi - ns[0].lo < n;
    }
  }

  lemma LapSlots(n: int, o: int, ns: seq<Node>, p: int)
    requires OneLap(ns, n) && n > 0 && 0 <= p < |ns|
    ensures forall k :: 0 <= k < |ns| && k != p ==> Slot(o, n, ns[k].lo) != Slot(o, n, ns[p].lo)
  {
    hide Slot;
    forall k | 0 <= k < |ns| && k != p ensures Slot(o, n, ns[k].lo) != Slot(o, n, ns[p].lo) {
      if k < p { assert ns[p].lo - ns[k].lo < n; } else { assert ns[k].lo - ns[p].lo < n; }
      SlotInjective(o, n, ns[k].lo, ns[p].lo);
    }
  }

  lemma BackPut(prior: seq<int>, o: int, ns: seq<Node>, p: int, nd: Node, prior': seq<int>)
    requires Back(prior, o, ns) && 0 <= p <= |ns| && OneLap(Put(ns, p, nd), |prior|)
    requires var n, t := |prior|, Slot(o, |prior|, nd.lo);
      var q := prior[t := if p > 0 then Slot(o, n, ns[p - 1].lo) else -1];
      prior' == if p < |ns| then q[Slot(o, n, ns[p].lo) := t] else q
    ensures Back(prior', o, Put(ns, p, nd))
  {
    hide Slot;
    var n, ms := |prior|, Put(ns, p, nd);
    LapSlots(n, o, ms, p);
    if p < |ns| { LapSlots(n, o, ms, p + 1); }
    forall k | 0 <= k < |ms| ensures BackAt(prior', o, ms, k) {
      if k < p { assert BackAt(prior, o, ns, k); }
      if k > p { assert BackAt(prior, o, ns, k - 1); }
    }
  }

  lemma BackCut(prior: seq<int>, o: int, ns: seq<Node>, p: int, prior': seq<int>)
    requires Back(prior, o, ns) && 0 <= p < |ns| && OneLap(ns, |prior|)
    requires prior' == if p + 1 < |ns|
      then prior[Slot(o, |prior|, ns[p + 1].lo) := if p > 0 then Slot(o, |prior|, ns[p - 1].lo) else -1]
      else prior
    ensures Back(prior', o, Cut(ns, p))
  {
    hide Slot;
    var n, ms := |prior|, Cut(ns, p);
    if p + 1 < |ns| { LapSlots(n, o, ns, p + 1); }
    forall k | 0 <= k < |ms| ensures BackAt(prior', o, ms, k) {
      assert BackAt(prior, o, ns, if k < p then k else k + 1);
    }
  }

  lemma BackSameLos(prior: seq<int>, o: int, ns: seq<Node>, ms: seq<Node>)
    requires Back(prior, o, ns) && |ns| == |ms|
    requires forall k :: 0 <= k < |ns| ==> ns[k].lo == ms[k].lo
    ensures Back(prior, o, ms)
  {
    forall k | 0 <= k < |ms| ensures BackAt(prior, o, ms, k) { assert BackAt(prior, o, ns, k); }
  }

  /** The indices of a..b that do not travel as MAX. */
  ghost function Forgotten(a: int, b: int): set<int> {
    set x | x in Range(a, b) && Wrap(x) != MAX
  }

  lemma Forgot(a: int, x: int)
    requires a <= x
    ensures Forgotten(a, x) == Forgotten(a, x - 1) + if Wrap(x) == MAX then {} else {x}
    ensures Forgotten(a, a - 1) == {}
  {
    assert Range(a, x) == Range(a, x - 1) + {x};
    assert Range(a, a - 1) == {};
  }

  /** Where a removal by range returns, it is exact if and only if it takes the
      straight branch: the wrapped one always leaves MAX behind. */
  lemma ForgottenExact(a: int, b: int)
    requires a <= b < a + MOD && StraightEnds(Wrap(a), Wrap(b))
    ensures Forgotten(a, b) == Range(a, b) <==> Wrap(a) <= Wrap(b)
  {
    RangeWraps(a, b);
    StraightEndsExact(Wrap(a), Wrap(b));
    if Wrap(a) <= Wrap(b) {
      forall x | a <= x <= b ensures Wrap(x) != MAX { WrapFrom(a, x); }
      assert Forgotten(a, b) == Range(a, b);
    } else {
      var x := a + (MAX - Wrap(a));
      WrapFrom(a, x);
      assert x in Range(a, b) && x !in Forgotten(a, b);
    }
  }

  /** A range of two numbers over the wrap: the first one stays. */
  lemma WrapLeavesMax()
    ensures Wrap(0x7FFF_FFFF) == MAX && Wrap(0x8000_0000) == 0
    ensures 0x7FFF_FFFF in Range(0x7FFF_FFFF, 0x8000_0000) && 0x7FFF_FFFF !in Forgotten(0x7FFF_FFFF, 0x8000_0000)
  {
  }

  /** A 32-bit counter after `n` increments from `start`. */
  function Counter(start: int, n: nat): int { (start + n + MOD) % (2 * MOD) - MOD }

  /** The loop of the straight branch, if taken, gets past its last number. */
  ghost predicate StraightEnds(seqno1: int, seqno2: int) {
    seqno1 <= seqno2 ==> exists n: nat :: Counter(seqno1, n) > seqno2
  }

  /** It does so exactly if the last number is not the largest there is. */
  lemma StraightEndsExact(seqno1: Seq, seqno2: Seq)
    ensures StraightEnds(seqno1, seqno2) <==> (seqno1 <= seqno2 ==> seqno2 != MAX)
  {
    if seqno1 <= seqno2 && seqno2 != MAX {
      assert Counter(seqno1, seqno2 + 1 - seqno1) == seqno2 + 1;
    }
  }

  lemma RangeWraps(a: int, b: int)
    requires a <= b < a + MOD
    ensures Wrap(b) - Wrap(a) == b - a || Wrap(b) - Wrap(a) == b - a - MOD
    ensures Wrap(a) <= Wrap(b) <==> Wrap(b) - Wrap(a) == b - a
  {
  }

  lemma WrapFrom(a: int, x: int)
    requires a <= x && Wrap(a) + (x - a) <= MAX
    ensures Wrap(x) == Wrap(a) + (x - a)
  {
  }

  lemma WrapBack(b: int, x: int)
    requires x <= b && 0 <= Wrap(b) - (b - x)
    ensures Wrap(x) == Wrap(b) - (b - x)
  {
  }

  class RcvLossList {
    const size: int
    const data1: array<int>       // m_piData1: interval starts, -1 in a free slot
    const data2: array<int>       // m_piData2: interval ends, -1 for a single number
    const next: array<int>        // m_piNext
    const prior: array<int>       // m_piPrior
    var head: int                 // m_iHead
    var tail: int                 // m_iTail
    var length: int               // m_iLength
    ghost var nodes: seq<Node>    // the intervals, in order
    ghost var origin: int         // the index whose slot is 0

    ghost function Cells(): Cells
      reads data1, data2, next
    {
      LossCells.Cells(data1[..], data2[..], next[..])
    }

    ghost function Pos(k: int): int
      requires size > 0
      reads this
    {
      if 0 <= k < |nodes| then Slot(origin, size, nodes[k].lo) else -1
    }

    ghost predicate Separate() {
      && data1 != data2 && data1 != next && data1 != prior
      && data2 != next && data2 != prior && next != prior
      && data1.Length == prior.Length == size
    }

    ghost predicate Valid()
      reads this, data1, data2, next, prior
    {
      && Separate()
      && Rep(Cells(), origin, nodes) && Disjoint(nodes)
      && Back(prior[..], origin, nodes)
      && head == Pos(0) && (|nodes| > 0 ==> tail == Pos(|nodes| - 1))
      && length == Sum(nodes)
    }

    /** The missing indices. */
    ghost function Elems(): set<int>
      reads this
    {
      LossNodes.Elems(nodes)
    }

    constructor (size: int)
      requires 0 < size <= TH
      ensures Valid() && Elems() == {} && this.size == size
      ensures fresh(data1) && fresh(data2) && fresh(next) && fresh(prior)
    {
      this.size := size;
      data1 := new int[size](_ => -1);
      data2 := new int[size](_ => -1);
      next := new int[size];
      prior := new int[size];
      head, tail, length := -1, -1, 0;
      nodes, origin := [], 0;
    }

    lemma LengthIsCard()
      requires Valid()
      ensures length == |Elems()|
    {
      SumIsCard(nodes);
    }

    method GetLossLength() returns (r: int)
      requires Valid()
      ensures r == |Elems()|
    {
      LengthIsCard();
      r := length;
    }

    /** The smallest missing number, -1 if there is none. */
    method GetFirstLostSeq() returns (seqno: int, ghost s: int)
      requires Valid()
      ensures Elems() == {} ==> seqno == -1
      ensures Elems() != {} ==>
        seqno == Wrap(s) && s in Elems() && forall x :: x in Elems() ==> s <= x
    {
      SumPositive(nodes);
      if 0 == length {
        return -1, 0;
      }
      LosHisInElems(nodes);
      HeadIsLeast(nodes);
      assert NodeAt(Cells(), origin, nodes, 0);
      seqno, s := data1[head], nodes[0].lo;
    }

    // ----- insertion, past everything in the list -----

    method InsertFirst(seqno1: int, seqno2: int, ghost a: int, ghost b: int)
      requires Valid() && |nodes| == 0 && a <= b < a + size
      requires seqno1 == Wrap(a) && seqno2 == Wrap(b)
      modifies this, data1, data2, next, prior
      ensures Valid() && Elems() == Range(a, b)
    {
      ghost var c := Cells();
      WrapInjective(a, b);
      LenOfRange(a, b);
      head := 0;
      tail := 0;
      data1[head] := seqno1;
      if seqno2 != seqno1 {
        data2[head] := seqno2;
      }
      next[head] := -1;
      prior[head] := -1;
      length := length + SeqLen(seqno1, seqno2);
      origin := a;
      assert Slot(a, size, a) == 0;
      assert Rep(c, a, []);
      PutNode(c, a, [], 0, Node(a, b), Cells());
      PutElems([], 0, Node(a, b));
      nodes := Put([], 0, Node(a, b));
      assert nodes == [Node(a, b)];
    }

    method InsertLast(loc: int, seqno1: int, seqno2: int, ghost a: int, ghost b: int)
      requires Valid() && |nodes| > 0 && nodes[|nodes| - 1].hi < a <= b < nodes[0].lo + size
      requires seqno1 == Wrap(a) && seqno2 == Wrap(b) && loc == Slot(origin, size, a)
      modifies this, data1, data2, next, prior
      ensures Valid() && Elems() == old(Elems()) + Range(a, b)
    {
      hide Wrap, Slot, LossNodes.Elems, Sum, Used;
      ghost var c, ns, q := Cells(), nodes, prior[..];
      ghost var p := |ns|;
      WrapInjective(a, b);
      LenOfRange(a, b);
      AppendSpans(ns, Node(a, b), size);
      PutElems(ns, p, Node(a, b));
      hide Rep, Ascending, DisjointBut, Spans, OneLap;
      RepNode(c, origin, ns, p - 1);
      data1[loc] := seqno1;
      if seqno2 != seqno1 {
        data2[loc] := seqno2;
      }
      next[tail] := loc;
      prior[loc] := tail;
      next[loc] := -1;
      tail := loc;
      length := length + SeqLen(seqno1, seqno2);
      PutLast(c, origin, ns, Node(a, b), Cells());
      BackPut(q, origin, ns, p, Node(a, b), prior[..]);
      nodes := Put(ns, p, Node(a, b));
    }

    /** Adds [a..b], all of it past everything in the list. */
    method Insert(seqno1: int, seqno2: int, ghost a: int, ghost b: int)
      requires Valid() && a <= b && seqno1 == Wrap(a) && seqno2 == Wrap(b)
      requires forall x :: x in Elems() ==> x < a
      requires Fits(Elems() + Range(a, b), size)
      modifies this, data1, data2, next, prior
      ensures Valid() && Elems() == old(Elems()) + Range(a, b)
    {
      hide Wrap, Slot;
      FitsNear(nodes, a, b, size);
      SumPositive(nodes);
      if 0 == length {
        InsertFirst(seqno1, seqno2, a, b);
        assert old(Elems()) == {};
        return;
      }
      LosHisInElems(nodes);
      assert NodeAt(Cells(), origin, nodes, 0);
      ghost var p := |nodes| - 1;
      assert NodeAt(Cells(), origin, nodes, p);
      assert b in Range(a, b);
      OffOfNear(nodes[0].lo, a);
      var offset := SeqOff(data1[head], seqno1);
      SlotMove(origin, size, nodes[0].lo, offset);
      var loc := (head + offset) % size;
      WrapStep(nodes[p].hi);
      WrapInjective(nodes[p].hi + 1, a);
      if -1 != data2[tail] && IncSeq(data2[tail]) == seqno1 {
        ExtendLast(tail, seqno1, seqno2, a, b);
      } else {
        InsertLast(loc, seqno1, seqno2, a, b);
      }
    }

    /** [2, 5], [6, 7] becomes [2, 7]. */
    method ExtendLast(loc: int, seqno1: int, seqno2: int, ghost a: int, ghost b: int)
      requires Valid() && |nodes| > 0 && nodes[|nodes| - 1].hi + 1 == a <= b < nodes[0].lo + size
      requires seqno1 == Wrap(a) && seqno2 == Wrap(b) && loc == tail
      modifies this`length, this`nodes, data2
      ensures Valid() && Elems() == old(Elems()) + Range(a, b)
    {
      hide Wrap, Slot, LossNodes.Elems, Sum, Used;
      ghost var c, ns := Cells(), nodes;
      ghost var p := |ns| - 1;
      ghost var ms := ns[p := Node(ns[p].lo, b)];
      LenOfRange(a, b);
      WrapInjective(ns[p].lo, b);
      MoveEndElems(ns, p, b);
      CutElems(ns, p);
      assert Range(ns[p].lo, b) == Range(ns[p].lo, ns[p].hi) + Range(a, b);
      data2[loc] := seqno2;
      length := length + SeqLen(seqno1, seqno2);
      MoveEnd(c, origin, ns, p, b, Cells());
      BackSameLos(prior[..], origin, ns, ms);
      nodes := ms;
    }

    // ----- removal of one number -----

    /** Takes slot `loc` out of both chains. */
    method Unlink(loc: int, ghost p: int)
      requires Valid() && 0 <= p < |nodes| && loc == Pos(p)
      modifies this`head, this`tail, next, prior
      ensures 0 <= loc < size
      ensures next[..] == if p > 0 then old(next[..])[Pos(p - 1) := Pos(p + 1)] else old(next[..])
      ensures prior[..] == if p + 1 < |nodes| then old(prior[..])[Pos(p + 1) := Pos(p - 1)] else old(prior[..])
      ensures head == if p == 0 then Pos(1) else old(head)
      ensures |nodes| > 1 ==> tail == if p == |nodes| - 1 then Pos(p - 1) else old(tail)
    {
      hide Wrap, Slot, LossNodes.Elems, Sum, Used;
      SpansOneLap(nodes, size);
      LapSlots(size, origin, nodes, 0);
      RepNeighbours(Cells(), origin, nodes, p);
      BackNeighbours(prior[..], origin, nodes, p);
      hide Rep, Ascending, DisjointBut, Spans, OneLap, Back;
      if head == loc {
        head := next[head];
        if -1 != head {
          prior[head] := -1;
        }
      } else {
        next[prior[loc]] := next[loc];
        if -1 != next[loc] {
          prior[next[loc]] := prior[loc];
        } else {
          tail := prior[loc];
        }
      }
    }

    /** A single-number interval p, in slot `loc`, goes. */
    method DropOne(loc: int, ghost p: int)
      requires Valid() && 0 <= p < |nodes| && nodes[p].lo == nodes[p].hi && loc == Pos(p)
      modifies this, data1, next, prior
      ensures Valid() && Elems() == old(Elems()) - {old(nodes)[p].lo}
    {
      hide Wrap, Slot, LossNodes.Elems, Sum, Used, Rep, Ascending, DisjointBut, Spans, OneLap, Back, Valid;
      ghost var c, ns, q := Cells(), nodes, prior[..];
      ValidIs();
      RepNeighbours(c, origin, ns, p);
      DropOneElems(ns, p);
      SpansOneLap(ns, size);
      Unlink(loc, p);
      data1[loc] := -1;
      length := length - 1;
      CutAny(c, origin, ns, p, Cells());
      BackCut(q, origin, ns, p, prior[..]);
      nodes := Cut(ns, p);
      ValidIs();
    }

    lemma ValidIs()
      ensures Valid() <==>
        && Separate() && Rep(Cells(), origin, nodes) && Disjoint(nodes) && Back(prior[..], origin, nodes)
        && size > 0 && head == Pos(0) && (|nodes| > 0 ==> tail == Pos(|nodes| - 1)) && length == Sum(nodes)
    {
      hide Ascending, Spans, DisjointBut, Back, Sum, Slot;
    }

    /** The writes that move an interval, without its first number, from slot
        `loc` to the next slot `i`. */
    method MoveCells(loc: int, i: int, ghost nd: Node)
      requires data1 != data2 && data1.Length == data2.Length == size
      requires 0 <= loc < size && 0 <= i < size && i != loc
      requires nd.lo < nd.hi && Near(nd.hi, nd.lo + 1)
      requires data1[loc] == Wrap(nd.lo) && data2[loc] == Wrap(nd.hi)
      modifies data1, data2
      ensures data1[..] == old(data1[..])[i := Wrap(nd.lo + 1)][loc := -1]
      ensures data2[..] == (if nd.lo + 1 == nd.hi then old(data2[..])
                            else old(data2[..])[i := Wrap(nd.hi)])[loc := -1]
    {
      hide Wrap;
      WrapStep(nd.lo);
      CmpOfNear(nd.hi, nd.lo + 1);
      data1[i] := IncSeq(data1[loc]);
      if SeqCmp(data2[loc], IncSeq(data1[loc])) > 0 {
        data2[i] := data2[loc];
      }
      data1[loc] := -1;
      data2[loc] := -1;
    }

    /** Both chains pass through slot `i` instead of slot `loc`. */
    method Relink(loc: int, i: int, ghost p: int)
      requires Valid() && 0 <= p < |nodes| && loc == Pos(p) && 0 <= i < size
      requires forall k :: 0 <= k < |nodes| ==> Pos(k) != i
      modifies this`head, this`tail, next, prior
      ensures 0 <= loc < size
      ensures next[..] == var n := old(next[..])[i := Pos(p + 1)]; if p > 0 then n[Pos(p - 1) := i] else n
      ensures prior[..] == var q := old(prior[..])[i := Pos(p - 1)];
        if p + 1 < |nodes| then q[Pos(p + 1) := i] else q
      ensures head == if p == 0 then i else old(head)
      ensures tail == if p == |nodes| - 1 then i else old(tail)
    {
      hide Wrap, Slot, LossNodes.Elems, Sum, Used;
      SpansOneLap(nodes, size);
      LapSlots(size, origin, nodes, 0);
      LapSlots(size, origin, nodes, |nodes| - 1);
      RepNeighbours(Cells(), origin, nodes, p);
      BackNeighbours(prior[..], origin, nodes, p);
      hide Rep, Ascending, DisjointBut, Spans, OneLap, Back;
      next[i] := next[loc];
      prior[i] := prior[loc];
      if head == loc {
        head := i;
      } else {
        next[prior[i]] := i;
      }
      if tail == loc {
        tail := i;
      } else {
        prior[next[i]] := i;
      }
    }

    /** The first number of interval p, in slot `loc`, goes. */
    method ShiftStart(loc: int, ghost p: int)
      requires Valid() && 0 <= p < |nodes| && nodes[p].lo < nodes[p].hi && loc == Pos(p)
      modifies this, data1, data2, next, prior
      ensures Valid() && Elems() == old(Elems()) - {old(nodes)[p].lo}
    {
      hide Wrap, Slot, LossNodes.Elems, Sum, Used, Rep, Ascending, DisjointBut, Spans, OneLap, Back, Valid;
      ghost var c, ns, q := Cells(), nodes, prior[..];
      ValidIs();
      RepNode(c, origin, ns, p);
      LaterFits(ns, p, size, origin);
      SlotMove(origin, size, ns[p].lo, 1);
      SlotInjective(origin, size, ns[p].lo, ns[p].lo + 1);
      LaterElems(ns, p);
      var i := (loc + 1) % size;
      Relink(loc, i, p);
      MoveCells(loc, i, ns[p]);
      LaterCells(c, origin, ns, p, Cells());
      LaterBack(q, origin, ns, p, prior[..]);
      nodes := Later(ns, p);
      length := length - 1;
      ValidIs();
    }

    /** The last number of interval p, in slot `i`, goes. */
    method TrimEnd(i: int, seqno: int, ghost p: int)
      requires Valid() && 0 <= p < |nodes| && nodes[p].lo < nodes[p].hi && i == Pos(p)
      requires seqno == Wrap(nodes[p].hi)
      modifies this`length, this`nodes, data2
      ensures Valid() && Elems() == old(Elems()) - {old(nodes)[p].hi}
    {
      hide Wrap, Slot, LossNodes.Elems, Sum, Used;
      ghost var c, ns := Cells(), nodes;
      ghost var nd := Node(ns[p].lo, ns[p].hi - 1);
      ghost var ms := ns[p := nd];
      TrimFits(ns, p, ns[p].hi - 1);
      TrimElems(ns, p);
      RepNode(c, origin, ns, p);
      hide Rep, Ascending, DisjointBut, Spans, OneLap;
      WrapStep(ns[p].lo);
      WrapStep(ns[p].hi);
      WrapInjective(ns[p].lo + 1, ns[p].hi);
      WrapInjective(nd.lo, nd.hi);
      if seqno == IncSeq(data1[i]) {
        data2[i] := -1;
      } else {
        data2[i] := DecSeq(seqno);
      }
      length := length - 1;
      MoveEnd(c, origin, ns, p, nd.hi, Cells());
      BackSameLos(prior[..], origin, ns, ms);
      nodes := ms;
    }

    /** The cells of an interval split around `x`: [lo..x-1] stays in slot `i`,
        [x+1..hi] goes to slot `loc`. */
    method SplitCells(i: int, loc: int, seqno: int, ghost nd: Node, ghost x: int)
      requires data1 != data2 && data1.Length == data2.Length == size
      requires 0 <= loc < size && 0 <= i < size && i != loc
      requires nd.lo < x < nd.hi && Near(nd.hi, nd.lo) && seqno == Wrap(x)
      requires data1[i] == Wrap(nd.lo) && data2[i] == Wrap(nd.hi)
      modifies data1, data2
      ensures data1[..] == old(data1[..])[loc := Wrap(x + 1)]
      ensures data2[..] == (if x + 1 == nd.hi then old(data2[..]) else old(data2[..])[loc := Wrap(nd.hi)])
                           [i := Second(Node(nd.lo, x - 1))]
    {
      hide Wrap;
      WrapStep(x);
      WrapStep(nd.lo);
      CmpOfNear(nd.hi, x + 1);
      WrapInjective(nd.lo + 1, x);
      data1[loc] := IncSeq(seqno);
      if SeqCmp(data2[i], data1[loc]) > 0 {
        data2[loc] := data2[i];
      }
      if seqno == IncSeq(data1[i]) {
        data2[i] := -1;
      } else {
        data2[i] := DecSeq(seqno);
      }
    }

    /** Slot `loc` is linked in behind slot `i` of interval p. */
    method LinkBehind(i: int, loc: int, ghost p: int)
      requires Valid() && 0 <= p < |nodes| && i == Pos(p) && 0 <= loc < size
      requires forall k :: 0 <= k < |nodes| ==> Pos(k) != loc
      modifies this`tail, next, prior
      ensures 0 <= i < size
      ensures next[..] == old(next[..])[loc := Pos(p + 1)][i := loc]
      ensures prior[..] == var q := old(prior[..])[loc := i];
        if p + 1 < |nodes| then q[Pos(p + 1) := loc] else q
      ensures tail == if p == |nodes| - 1 then loc else old(tail)
    {
      hide Wrap, Slot, LossNodes.Elems, Sum, Used;
      SpansOneLap(nodes, size);
      LapSlots(size, origin, nodes, |nodes| - 1);
      RepNeighbours(Cells(), origin, nodes, p);
      hide Rep, Ascending, DisjointBut, Spans, OneLap, Back;
      next[loc] := next[i];
      next[i] := loc;
      prior[loc] := i;
      if tail == i {
        tail := loc;
      } else {
        prior[next[loc]] := loc;
      }
    }

    /** A number inside interval p, in slot `i`, goes: the interval splits. */
    method SplitAround(i: int, loc: int, seqno: int, ghost p: int, ghost x: int)
      requires Valid() && 0 <= p < |nodes| && nodes[p].lo < x < nodes[p].hi && i == Pos(p)
      requires seqno == Wrap(x) && loc == Slot(origin, size, x + 1)
      modifies this`length, this`nodes, this`tail, data1, data2, next, prior
      ensures Valid() && Elems() == old(Elems()) - {x}
    {
      hide Wrap, Slot, LossNodes.Elems, Sum, Used, Rep, Ascending, DisjointBut, Spans, OneLap, Back;
      ghost var c, ns, q := Cells(), nodes, prior[..];
      RepNode(c, origin, ns, p);
      HoleFits(ns, p, x, size, origin);
      HoleElems(ns, p, x);
      LinkBehind(i, loc, p);
      SplitCells(i, loc, seqno, ns[p], x);
      HoleCells(c, origin, ns, p, x, Cells());
      HoleBack(q, origin, ns, p, x, prior[..]);
      nodes := Hole(ns, p, x);
      length := length - 1;
    }

    /** The slot of `x` holds `Wrap(x)` exactly when an interval starts at `x`. */
    lemma StartAt(x: int) returns (q: int)
      requires Valid() && |nodes| > 0
      requires forall k :: 0 <= k < |nodes| ==> Near(nodes[k].lo, x)
      ensures data1[Slot(origin, size, x)] == Wrap(x) ==> 0 <= q < |nodes| && nodes[q].lo == x
      ensures data1[Slot(origin, size, x)] != Wrap(x) ==> forall k :: 0 <= k < |nodes| ==> nodes[k].lo != x
    {
      hide Wrap, Slot;
      var s := Slot(origin, size, x);
      q := -1;
      if data1[s] == Wrap(x) {
        assert !Free(Cells(), s);
        assert Used(origin, size, nodes, s);
        q :| 0 <= q < |nodes| && Slot(origin, size, nodes[q].lo) == s;
        assert NodeAt(Cells(), origin, nodes, q);
        WrapInjective(nodes[q].lo, x);
      } else {
        forall k | 0 <= k < |nodes| ensures nodes[k].lo != x {
          assert NodeAt(Cells(), origin, nodes, k);
        }
      }
    }

    /** The slots are searched backwards from that of `x` for the first one in
        use; the search ends, at the latest, at the slot of the head. */
    method ScanBack(loc: int, ghost x: int) returns (i: int, ghost p: int)
      requires Valid() && |nodes| > 0 && nodes[0].lo < x && loc == Slot(origin, size, x)
      requires forall k :: 0 <= k < |nodes| ==> nodes[k].lo != x
      ensures 0 <= p < |nodes| && i == Pos(p)
      ensures x - nodes[0].lo < size ==> nodes[p].lo < x && (p + 1 < |nodes| ==> x < nodes[p + 1].lo)
    {
      hide Wrap, Slot, LossNodes.Elems, Sum, Rep, Ascending, DisjointBut, Back, Used;
      ghost var stop := LastLap(x - 1);
      SlotMoveFromBehind(origin, size, x, -1);
      i := (loc - 1 + size) % size;
      ghost var y := x - 1;
      while -1 == data1[i]
        invariant stop <= y < x && i == Slot(origin, size, y)
        invariant forall z :: y < z < x ==> data1[Slot(origin, size, z)] == -1
        decreases y - stop
      {
        SlotMoveFromBehind(origin, size, y, -1);
        i := (i - 1 + size) % size;
        y := y - 1;
      }
      p := UsedBy(Cells(), origin, nodes, i);
      if x - nodes[0].lo < size {
        ScanFound(x, y, stop, p);
      }
    }

    lemma ScanFound(x: int, y: int, stop: int, p: int)
      requires Valid() && |nodes| > 0 && nodes[0].lo < x < nodes[0].lo + size
      requires forall k :: 0 <= k < |nodes| ==> nodes[k].lo != x
      requires stop <= y < x && 0 <= p < |nodes| && Slot(origin, size, nodes[p].lo) == Slot(origin, size, y)
      requires x - 1 - size < stop <= x - 1 && Slot(origin, size, stop) == Slot(origin, size, nodes[0].lo)
      requires forall z :: y < z < x ==> data1[Slot(origin, size, z)] == -1
      ensures nodes[p].lo < x && (p + 1 < |nodes| ==> x < nodes[p + 1].lo)
    {
      hide Wrap, Slot;
      SlotInjective(origin, size, stop, nodes[0].lo);
      assert nodes[p].hi - nodes[0].lo < size;
      SlotInjective(origin, size, y, nodes[p].lo);
      if p + 1 < |nodes| {
        var z := nodes[p + 1].lo;
        assert NodeAt(Cells(), origin, nodes, p + 1);
        assert data1[Slot(origin, size, z)] == Wrap(z);
      }
    }

    /** The last index up to `x` that shares the head's slot. */
    lemma LastLap(x: int) returns (stop: int)
      requires Valid() && |nodes| > 0
      ensures size > 0 && x - size < stop <= x && Slot(origin, size, stop) == Slot(origin, size, nodes[0].lo)
      ensures data1[Slot(origin, size, stop)] != -1
    {
      var d := (x - nodes[0].lo) % size;
      stop := x - d;
      SameSlot(origin, size, nodes[0].lo, (x - nodes[0].lo) / size);
      assert NodeAt(Cells(), origin, nodes, 0);
      hide Slot;
      assert stop == nodes[0].lo + (x - nodes[0].lo) / size * size;
    }

    /** remove(seqno): forgets exactly that number, and says if it was there. */
    method Remove(seqno: int, ghost x: int) returns (found: bool)
      requires Valid() && seqno == Wrap(x)
      requires forall y :: y in Elems() ==> Near(y, x)
      modifies this, data1, data2, next, prior
      ensures Valid() && found == (x in old(Elems())) && Elems() == old(Elems()) - {x}
    {
      hide Wrap, Slot, Valid, Elems;
      Around(x);
      if 0 == length {
        return false;
      }
      OffOfNear(nodes[0].lo, x);
      var offset := SeqOff(data1[head], seqno);
      if offset < 0 {
        return false;
      }
      SlotMove(origin, size, nodes[0].lo, offset);
      var loc := (head + offset) % size;
      ghost var q := StartAt(x);
      if seqno == data1[loc] {
        RemoveStart(loc, q);
        return true;
      }
      found := RemoveInside(loc, seqno, x);
    }

    /** What a removal can tell about the list before it looks for the number. */
    lemma Around(x: int)
      requires Valid() && forall y :: y in Elems() ==> Near(y, x)
      ensures (length == 0 <==> |nodes| == 0) && (|nodes| == 0 ==> Elems() == {})
      ensures |nodes| > 0 ==>
        && 0 <= head < size == data1.Length && head == Slot(origin, size, nodes[0].lo)
        && data1[head] == Wrap(nodes[0].lo) && forall y :: y in Elems() ==> nodes[0].lo <= y
      ensures size > 0 && forall k :: 0 <= k < |nodes| ==> Near(nodes[k].lo, x) && Near(nodes[k].hi, x)
    {
      hide Wrap, Slot;
      SumPositive(nodes);
      LosHisInElems(nodes);
      if |nodes| > 0 {
        HeadIsLeast(nodes);
        assert NodeAt(Cells(), origin, nodes, 0);
      }
    }

    /** remove(seqno1, seqno2): what it forgets is the range without the number
        MAX, which the loop of the wrapped case stops before.  It returns only
        if the loop of the straight case ends. */
    method RemoveRange(seqno1: int, seqno2: int, ghost a: int, ghost b: int) returns (r: bool)
      requires Valid() && a <= b < a + MOD && seqno1 == Wrap(a) && seqno2 == Wrap(b)
      requires StraightEnds(seqno1, seqno2)
      requires forall y, x :: y in Elems() && a <= x <= b ==> Near(y, x)
      modifies this, data1, data2, next, prior
      ensures Valid() && Elems() == old(Elems()) - Forgotten(a, b)
    {
      hide Wrap, Valid, Elems;
      RangeWraps(a, b);
      StraightEndsExact(seqno1, seqno2);
      Forgot(a, a);
      ghost var x := a;
      if seqno1 <= seqno2 {
        var i := seqno1;
        while i <= seqno2
          invariant Valid() && seqno1 <= i <= seqno2 + 1 && x == a + (i - seqno1)
          invariant Elems() == old(Elems()) - Forgotten(a, x - 1)
        {
          WrapFrom(a, x);
          Forgot(a, x);
          var found := Remove(i, x);
          i := i + 1;
          x := x + 1;
        }
      } else {
        var j := seqno1;
        while j < MAX
          invariant Valid() && seqno1 <= j <= MAX && x == a + (j - seqno1)
          invariant Elems() == old(Elems()) - Forgotten(a, x - 1)
        {
          WrapFrom(a, x);
          Forgot(a, x);
          var found := Remove(j, x);
          j := j + 1;
          x := x + 1;
        }
        WrapFrom(a, x);
        Forgot(a, x);
        x := x + 1;
        var k := 0;
        while k <= seqno2
          invariant Valid() && 0 <= k <= seqno2 + 1 && x == b - (seqno2 - k)
          invariant Elems() == old(Elems()) - Forgotten(a, x - 1)
        {
          WrapBack(b, x);
          Forgot(a, x);
          var found := Remove(k, x);
          k := k + 1;
          x := x + 1;
        }
      }
      return true;
    }

    method RemoveStart(loc: int, ghost q: int)
      requires Valid() && 0 <= q < |nodes| && loc == Pos(q)
      modifies this, data1, data2, next, prior
      ensures Valid() && old(nodes)[q].lo in old(Elems()) && Elems() == old(Elems()) - {old(nodes)[q].lo}
    {
      hide Wrap, Slot, LossNodes.Elems, Sum;
      LosHisInElems(nodes);
      RepNode(Cells(), origin, nodes, q);
      if -1 == data2[loc] {
        DropOne(loc, q);
      } else {
        ShiftStart(loc, q);
      }
    }

    /** No interval starts at `x`, but one may contain it. */
    method RemoveInside(loc: int, seqno: int, ghost x: int) returns (found: bool)
      requires Valid() && |nodes| > 0 && nodes[0].lo < x && seqno == Wrap(x)
      requires loc == Slot(origin, size, x)
      requires forall k :: 0 <= k < |nodes| ==> nodes[k].lo != x && Near(nodes[k].hi, x)
      modifies this, data1, data2, next, prior
      ensures Valid() && found == (x in old(Elems())) && Elems() == old(Elems()) - {x}
    {
      hide Wrap, Slot, LossNodes.Elems, Sum, Used, Valid;
      var i;
      ghost var p;
      i, p := ScanBack(loc, x);
      ghost var nd := nodes[p];
      InsideWhich(x, p);
      Shown(p);
      CmpOfNear(x, nd.hi);
      WrapInjective(x, nd.hi);
      if -1 == data2[i] || SeqCmp(seqno, data2[i]) > 0 {
        return false;
      }
      if seqno == data2[i] {
        TrimEnd(i, seqno, p);
      } else {
        SlotMove(origin, size, x, 1);
        SplitAround(i, (loc + 1) % size, seqno, p, x);
      }
      return true;
    }

    /** The end of an interval, as the arrays show it. */
    lemma Shown(p: int)
      requires Valid() && 0 <= p < |nodes|
      ensures 0 <= Pos(p) < size == data2.Length && nodes[p].lo <= nodes[p].hi
      ensures data2[Pos(p)] == if nodes[p].lo == nodes[p].hi then -1 else Wrap(nodes[p].hi)
    {
      RepNode(Cells(), origin, nodes, p);
    }

    lemma InsideWhich(x: int, p: int)
      requires Valid() && 0 <= p < |nodes| && nodes[0].lo < x
      requires forall k :: 0 <= k < |nodes| ==> nodes[k].lo != x
      requires x - nodes[0].lo < size ==> nodes[p].lo < x && (p + 1 < |nodes| ==> x < nodes[p + 1].lo)
      ensures x in Elems() <==> nodes[p].lo < x <= nodes[p].hi
      ensures x <= nodes[p].hi ==> nodes[p].lo < x
    {
      hide Slot, Wrap, LossNodes.Elems;
      InElems(nodes, x);
      assert nodes[p].hi - nodes[0].lo < size;
      assert forall k :: 0 <= k < p ==> nodes[k].hi < nodes[p].lo;
      assert forall k :: p < k < |nodes| ==> nodes[p + 1].lo <= nodes[k].lo;
      assert forall k :: 0 <= k < |nodes| ==> nodes[k].hi - nodes[0].lo < size;
    }

    // ----- queries -----

    /** find(seqno1, seqno2): is any number of the range missing? */
    method Find(seqno1: int, seqno2: int, ghost a: int, ghost b: int) returns (r: bool)
      requires Valid() && a <= b && seqno1 == Wrap(a) && seqno2 == Wrap(b)
      requires forall y :: y in Elems() ==> Near(y, a) && Near(y, b)
      ensures r <==> exists y :: y in Elems() && a <= y <= b
    {
      hide Wrap, Slot, LossNodes.Elems, Sum, Ascending, DisjointBut;
      SumPositive(nodes);
      if 0 == length {
        assert Elems() == {} by { EmptyElems(); }
        return false;
      }
      var p := head;
      ghost var k := 0;
      while -1 != p
        invariant 0 <= k <= |nodes| && p == Pos(k)
        invariant forall j :: 0 <= j < k ==> !Meets(nodes[j], a, b)
        decreases |nodes| - k
      {
        RepNode(Cells(), origin, nodes, k);
        LosHisInElems(nodes);
        ghost var nd := nodes[k];
        CmpOfNear(nd.lo, a);
        CmpOfNear(nd.lo, b);
        CmpOfNear(nd.hi, a);
        if SeqCmp(data1[p], seqno1) == 0
           || (SeqCmp(data1[p], seqno1) > 0 && SeqCmp(data1[p], seqno2) <= 0)
           || (SeqCmp(data1[p], seqno1) < 0 && data2[p] != -1 && SeqCmp(data2[p], seqno1) >= 0)
        {
          assert Max(nd.lo, a) in Elems() by { InElems(nodes, Max(nd.lo, a)); }
          return true;
        }
        p := next[p];
        k := k + 1;
      }
      forall y | y in Elems() ensures !(a <= y <= b) { InElems(nodes, y); }
      r := false;
    }

    /** One turn of the loop below: the words of the interval in slot `i`. */
    method PutWords(arr: array<int>, at: int, i: int, ghost k: int) returns (len: int)
      requires Valid() && 0 <= k < |nodes| && i == Pos(k)
      requires 0 <= at && at + 2 <= arr.Length
      requires arr != data1 && arr != data2 && arr != next && arr != prior
      modifies arr
      ensures at <= len <= at + 2 && arr[..at] == old(arr[..at])
      ensures arr[at..len] == Nak.Words(nodes[k]) && arr[len..] == old(arr[..])[len..]
    {
      hide Wrap, Slot, LossNodes.Elems, Sum, Ascending, DisjointBut, Back;
      RepNode(Cells(), origin, nodes, k);
      hide Rep;
      WrapInjective(nodes[k].lo, nodes[k].hi);
      len := at;
      arr[len] := data1[i];
      if -1 != data2[i] {
        arr[len] := arr[len] + MOD;
        len := len + 1;
        arr[len] := data2[i];
      }
      len := len + 1;
    }

    /** getLossArray(): the first intervals, coded, as many as the loop's test
        against `limit` lets in; nothing while a report is too recent. */
    method GetLossArray(arr: array<int>, limit: int, recent: bool) returns (len: int, ghost k: int)
      requires Valid() && limit <= arr.Length
      requires arr != data1 && arr != data2 && arr != next && arr != prior
      modifies arr
      ensures Valid()
      ensures 0 <= k <= |nodes| && 0 <= len <= arr.Length && (len > 0 ==> len <= limit)
      ensures arr[..len] == Nak.Encode(nodes[..k]) && arr[len..] == old(arr[..])[len..]
      ensures recent ==> k == 0
      ensures !recent && k < |nodes| ==> len >= limit - 1
      ensures Nak.Decode(arr[..len]) == Nak.Reports(nodes[..k])
    {
      hide Wrap, Slot, LossNodes.Elems, Ascending, DisjointBut, Back, Rep, Nak.Words;
      len, k := 0, 0;
      assert nodes[..0] == [];
      if !recent {
        ghost var was := arr[..];
        HeadIs();
        var i := head;
        while len < limit - 1 && -1 != i
          invariant 0 <= k <= |nodes| && i == Pos(k) && Valid()
          invariant 0 <= len <= arr.Length && (len > 0 ==> len <= limit)
          invariant arr[..len] == Nak.Encode(nodes[..k]) && arr[len..] == was[len..]
          decreases |nodes| - k
        {
          InChain(k);
          ghost var before, at := arr[..], len;
          len := PutWords(arr, len, i, k);
          assert nodes[..k + 1][..k] == nodes[..k];
          assert arr[..len] == before[..at] + Nak.Words(nodes[k]);
          assert was[at..][len - at..] == was[len..];
          i := next[i];
          k := k + 1;
        }
      }
      Nak.RoundTrip(nodes[..k]);
    }

    lemma HeadIs()
      requires Valid()
      ensures size > 0 && head == Pos(0)
    {
    }

    lemma InChain(k: int)
      requires Valid() && size > 0 && 0 <= k <= |nodes|
      ensures k == |nodes| <==> Pos(k) == -1
      ensures k < |nodes| ==> 0 <= Pos(k) < next.Length && next[Pos(k)] == Pos(k + 1)
    {
      if k < |nodes| { RepNode(Cells(), origin, nodes, k); }
    }
  }

  predicate Meets(nd: Node, a: int, b: int) { nd.lo <= b && a <= nd.hi }

  lemma SameSlot(o: int, n: int, x: int, k: int)
    requires n > 0
    ensures Slot(o, n, x + k * n) == Slot(o, n, x)
  {
    var q, r := (x - o) / n, (x - o) % n;
    assert x + k * n - o == (q + k) * n + r;
    DivUnique(x + k * n - o, q + k, r, n);
  }

  // ----- intervals without their last, an inner, or their first number -----

  lemma TrimFits(ns: seq<Node>, p: int, hi: int)
    requires Ascending(ns) && Disjoint(ns) && 0 <= p < |ns| && ns[p].lo <= hi <= ns[p].hi
    ensures var ms := ns[p := Node(ns[p].lo, hi)]; Ascending(ms) && Disjoint(ms)
  {
  }

  lemma TrimElems(ns: seq<Node>, p: int)
    requires Ascending(ns) && Disjoint(ns) && 0 <= p < |ns| && ns[p].lo < ns[p].hi
    ensures var ms := ns[p := Node(ns[p].lo, ns[p].hi - 1)];
      Elems(ms) == Elems(ns) - {ns[p].hi} && Sum(ms) == Sum(ns) - 1
  {
    hide Elems, Sum, Ascending, DisjointBut, Range;
    CutDisjoint(ns, p);
    var ms := ns[p := Node(ns[p].lo, ns[p].hi - 1)];
    CutElems(ns, p);
    MoveEndElems(ns, p, ns[p].hi - 1);
    EmptyRange(ns[p].hi + 1, ns[p].hi);
    var rest := Elems(Cut(ns, p));
    WithoutOne(rest, ns[p].lo, ns[p].hi, ns[p].hi, Elems(ns), Elems(ms));
  }

  lemma RangeHole(lo: int, x: int, hi: int)
    requires lo <= x <= hi
    ensures Range(lo, hi) == Range(lo, x - 1) + Range(x + 1, hi) + {x} && x in Range(lo, hi)
    ensures x !in Range(lo, x - 1) && x !in Range(x + 1, hi)
  {
  }

  lemma EmptyRange(lo: int, hi: int)
    requires lo > hi
    ensures Range(lo, hi) == {}
  {
  }

  /** A range loses one number, whatever else is in the set. */
  lemma WithoutOne(rest: set<int>, lo: int, x: int, hi: int, s: set<int>, t: set<int>)
    requires lo <= x <= hi && Range(lo, hi) !! rest
    requires s == rest + Range(lo, hi) && t == rest + Range(lo, x - 1) + Range(x + 1, hi)
    ensures t == s - {x}
  {
    RangeHole(lo, x, hi);
    hide Range;
  }

  /** Interval p without the inner number x. */
  ghost function Hole(ns: seq<Node>, p: int, x: int): seq<Node>
    requires 0 <= p < |ns|
  {
    Put(ns[p := Node(ns[p].lo, x - 1)], p + 1, Node(x + 1, ns[p].hi))
  }

  lemma HoleFits(ns: seq<Node>, p: int, x: int, n: int, o: int)
    requires Ascending(ns) && Disjoint(ns) && Spans(ns, n) && n > 0
    requires 0 <= p < |ns| && ns[p].lo < x < ns[p].hi
    ensures Ascending(Hole(ns, p, x)) && Disjoint(Hole(ns, p, x)) && Spans(Hole(ns, p, x), n)
    ensures forall k :: 0 <= k < |ns| ==> Slot(o, n, ns[k].lo) != Slot(o, n, x + 1)
  {
    hide Slot;
    var m, ms := ns[p := Node(ns[p].lo, x - 1)], Hole(ns, p, x);
    TrimFits(ns, p, x - 1);
    PutAscending(m, p + 1, Node(x + 1, ns[p].hi));
    PutDisjoint(m, p + 1, Node(x + 1, ns[p].hi));
    HoleDisjoint(ns, p, x);
    forall k | 0 <= k < |ms| ensures ms[k].hi - ms[0].lo < n {
      assert ms[k].hi == if k < p then ns[k].hi else if k == p then x - 1 else ns[k - 1].hi;
    }
    forall k | 0 <= k < |ns| ensures Slot(o, n, ns[k].lo) != Slot(o, n, x + 1) {
      assert ns[k].hi - ns[0].lo < n && ns[p].hi - ns[0].lo < n;
      SlotInjective(o, n, ns[k].lo, x + 1);
    }
  }

  lemma HoleDisjoint(ns: seq<Node>, p: int, x: int)
    requires Ascending(ns) && Disjoint(ns) && 0 <= p < |ns| && ns[p].lo < x < ns[p].hi
    requires DisjointBut(Hole(ns, p, x), p + 1)
    ensures Disjoint(Hole(ns, p, x))
  {
    var ms := Hole(ns, p, x);
    forall k | p + 1 < k < |ms| ensures ms[p + 1].hi < ms[k].lo { assert ms[k] == ns[k - 1]; }
  }

  lemma HoleElems(ns: seq<Node>, p: int, x: int)
    requires Ascending(ns) && Disjoint(ns) && 0 <= p < |ns| && ns[p].lo < x < ns[p].hi
    ensures Elems(Hole(ns, p, x)) == Elems(ns) - {x} && Sum(Hole(ns, p, x)) == Sum(ns) - 1
  {
    hide Elems, Sum, Ascending, DisjointBut, Range;
    CutDisjoint(ns, p);
    var m := ns[p := Node(ns[p].lo, x - 1)];
    CutElems(ns, p);
    MoveEndElems(ns, p, x - 1);
    PutElems(m, p + 1, Node(x + 1, ns[p].hi));
    var rest := Elems(Cut(ns, p));
    WithoutOne(rest, ns[p].lo, x, ns[p].hi, Elems(ns), Elems(Hole(ns, p, x)));
  }

  lemma HoleCells(c: Cells, o: int, ns: seq<Node>, p: int, x: int, c': Cells)
    requires Rep(c, o, ns) && Disjoint(ns) && 0 <= p < |ns| && ns[p].lo < x < ns[p].hi
    requires var n := |c.data1|;
      var s, t := Slot(o, n, ns[p].lo), Slot(o, n, x + 1);
      && c'.data1 == c.data1[t := Wrap(x + 1)]
      && c'.data2 == (if x + 1 == ns[p].hi then c.data2 else c.data2[t := Wrap(ns[p].hi)])
                     [s := Second(Node(ns[p].lo, x - 1))]
      && c'.next == c.next[t := if p + 1 < |ns| then Slot(o, n, ns[p + 1].lo) else -1][s := t]
    ensures Rep(c', o, Hole(ns, p, x))
  {
    hide Wrap, Slot, Used;
    var n := |c.data1|;
    var s := Slot(o, n, ns[p].lo);
    var m, nd := ns[p := Node(ns[p].lo, x - 1)], Node(x + 1, ns[p].hi);
    HoleFits(ns, p, x, n, o);
    assert p + 1 < |ns| ==> ns[p].hi < ns[p + 1].lo;
    hide Rep, Ascending, DisjointBut, Spans;
    var c1 := c.(data2 := c.data2[s := Second(Node(ns[p].lo, x - 1))]);
    RepNode(c, o, ns, p);
    MoveEnd(c, o, ns, p, x - 1, c1);
    PutNode(c1, o, m, p + 1, nd, c');
  }

  lemma HoleBack(prior: seq<int>, o: int, ns: seq<Node>, p: int, x: int, prior': seq<int>)
    requires Back(prior, o, ns) && 0 <= p < |ns| && ns[p].lo < x < ns[p].hi
    requires Ascending(ns) && Disjoint(ns) && Spans(ns, |prior|)
    requires var n := |prior|;
      var t := Slot(o, n, x + 1);
      var q := prior[t := Slot(o, n, ns[p].lo)];
      prior' == if p + 1 < |ns| then q[Slot(o, n, ns[p + 1].lo) := t] else q
    ensures Back(prior', o, Hole(ns, p, x))
  {
    hide Slot;
    var m := ns[p := Node(ns[p].lo, x - 1)];
    HoleFits(ns, p, x, |prior|, o);
    SpansOneLap(Hole(ns, p, x), |prior|);
    BackSameLos(prior, o, ns, m);
    hide Back, Ascending, DisjointBut, Spans, OneLap;
    BackPut(prior, o, m, p + 1, Node(x + 1, ns[p].hi), prior');
  }

  /** Interval p without its first number. */
  ghost function Later(ns: seq<Node>, p: int): seq<Node>
    requires 0 <= p < |ns|
  {
    ns[p := Node(ns[p].lo + 1, ns[p].hi)]
  }

  lemma LaterIsPut(ns: seq<Node>, p: int)
    requires 0 <= p < |ns|
    ensures Later(ns, p) == Put(Cut(ns, p), p, Node(ns[p].lo + 1, ns[p].hi))
  {
  }

  lemma LaterFits(ns: seq<Node>, p: int, n: int, o: int)
    requires Ascending(ns) && Disjoint(ns) && Spans(ns, n) && 0 <= p < |ns| && ns[p].lo < ns[p].hi && n > 0
    ensures Ascending(Later(ns, p)) && Disjoint(Later(ns, p)) && Spans(Later(ns, p), n)
    ensures forall k :: 0 <= k < |ns| ==> Slot(o, n, ns[k].lo) != Slot(o, n, ns[p].lo + 1)
  {
    hide Slot;
    var ms := Later(ns, p);
    forall j, k | 0 <= j < k < |ns| ensures ms[j].lo < ms[k].lo && ms[j].hi < ms[k].lo { }
    forall k | 0 <= k < |ms| ensures ms[k].hi - ms[0].lo < n { assert ns[k].hi - ns[0].lo < n; }
    forall k | 0 <= k < |ns| ensures Slot(o, n, ns[k].lo) != Slot(o, n, ns[p].lo + 1) {
      assert ns[k].hi - ns[0].lo < n && ns[p].hi - ns[0].lo < n;
      SlotInjective(o, n, ns[k].lo, ns[p].lo + 1);
    }
  }

  lemma DropOneElems(ns: seq<Node>, p: int)
    requires Ascending(ns) && Disjoint(ns) && 0 <= p < |ns| && ns[p].lo == ns[p].hi
    ensures Elems(Cut(ns, p)) == Elems(ns) - {ns[p].lo} && Sum(Cut(ns, p)) == Sum(ns) - 1
    ensures Ascending(Cut(ns, p)) && Disjoint(Cut(ns, p))
  {
    hide Elems, Sum, Ascending, DisjointBut, Range;
    CutDisjoint(ns, p);
    CutElems(ns, p);
    EmptyRange(ns[p].lo, ns[p].lo - 1);
    EmptyRange(ns[p].lo + 1, ns[p].hi);
    var rest := Elems(Cut(ns, p));
    WithoutOne(rest, ns[p].lo, ns[p].lo, ns[p].hi, Elems(ns), rest);
  }

  lemma LaterElems(ns: seq<Node>, p: int)
    requires Ascending(ns) && Disjoint(ns) && 0 <= p < |ns| && ns[p].lo < ns[p].hi
    ensures Elems(Later(ns, p)) == Elems(ns) - {ns[p].lo}
    ensures Sum(Later(ns, p)) == Sum(ns) - 1
  {
    hide Elems, Sum, Ascending, DisjointBut, Range;
    CutDisjoint(ns, p);
    LaterIsPut(ns, p);
    CutElems(ns, p);
    PutElems(Cut(ns, p), p, Node(ns[p].lo + 1, ns[p].hi));
    EmptyRange(ns[p].lo, ns[p].lo - 1);
    var rest := Elems(Cut(ns, p));
    WithoutOne(rest, ns[p].lo, ns[p].lo, ns[p].hi, Elems(ns), Elems(Later(ns, p)));
  }

  lemma LaterCells(c: Cells, o: int, ns: seq<Node>, p: int, c': Cells)
    requires Rep(c, o, ns) && Disjoint(ns) && 0 <= p < |ns| && ns[p].lo < ns[p].hi
    requires var n := |c.data1|;
      var s, t := Slot(o, n, ns[p].lo), Slot(o, n, ns[p].lo + 1);
      && c'.data1 == c.data1[t := Wrap(ns[p].lo + 1)][s := -1]
      && c'.data2 == (if ns[p].lo + 1 == ns[p].hi then c.data2 else c.data2[t := Wrap(ns[p].hi)])[s := -1]
      && var nx := c.next[t := if p + 1 < |ns| then Slot(o, n, ns[p + 1].lo) else -1];
         c'.next == if p > 0 then nx[Slot(o, n, ns[p - 1].lo) := t] else nx
    ensures Rep(c', o, Later(ns, p))
  {
    hide Wrap, Slot, Used, Rep, Ascending, DisjointBut, Spans, Later;
    var n := |c.data1|;
    var s, t := Slot(o, n, ns[p].lo), Slot(o, n, ns[p].lo + 1);
    LaterFacts(c, o, ns, p);
    var rest, nd := Cut(ns, p), Node(ns[p].lo + 1, ns[p].hi);
    if p > 0 {
      var u := Slot(o, n, ns[p - 1].lo);
      var c1 := Cells(c.data1[s := -1], c.data2[s := -1], c.next[u := c.next[s]]);
      CutAny(c, o, ns, p, c1);
      assert c'.next == c1.next[t := c.next[s]][u := t];
      PutNode(c1, o, rest, p, nd, c');
    } else {
      var c1 := Cells(c.data1[s := -1], c.data2[s := -1], c.next);
      CutAny(c, o, ns, p, c1);
      PutNode(c1, o, rest, p, nd, c');
    }
  }

  lemma LaterFacts(c: Cells, o: int, ns: seq<Node>, p: int)
    requires Rep(c, o, ns) && Disjoint(ns) && 0 <= p < |ns| && ns[p].lo < ns[p].hi
    ensures var n, rest, nd := |c.data1|, Cut(ns, p), Node(ns[p].lo + 1, ns[p].hi);
      && Shape(c) && Later(ns, p) == Put(rest, p, nd) && Spans(Put(rest, p, nd), n)
      && Slot(o, n, ns[p].lo) != Slot(o, n, nd.lo)
      && c.next[Slot(o, n, ns[p].lo)] == (if p + 1 < |ns| then Slot(o, n, ns[p + 1].lo) else -1)
      && (p > 0 ==> rest[p - 1] == ns[p - 1] && ns[p - 1].lo < nd.lo
                    && Slot(o, n, ns[p - 1].lo) != Slot(o, n, nd.lo))
      && (p < |rest| ==> rest[p] == ns[p + 1] && nd.lo < rest[p].lo)
  {
    hide Wrap, Slot, Used;
    LaterFits(ns, p, |c.data1|, o);
    LaterIsPut(ns, p);
    assert NodeAt(c, o, ns, p);
    assert p > 0 ==> ns[p - 1].lo < ns[p].lo;
    assert p + 1 < |ns| ==> ns[p].hi < ns[p + 1].lo;
  }

  lemma LaterBack(prior: seq<int>, o: int, ns: seq<Node>, p: int, prior': seq<int>)
    requires Back(prior, o, ns) && 0 <= p < |ns| && ns[p].lo < ns[p].hi
    requires Ascending(ns) && Disjoint(ns) && Spans(ns, |prior|)
    requires var n := |prior|;
      var t := Slot(o, n, ns[p].lo + 1);
      var q := prior[t := if p > 0 then Slot(o, n, ns[p - 1].lo) else -1];
      prior' == if p + 1 < |ns| then q[Slot(o, n, ns[p + 1].lo) := t] else q
    ensures Back(prior', o, Later(ns, p))
  {
    hide Slot;
    var n, rest := |prior|, Cut(ns, p);
    LaterFits(ns, p, n, o);
    SpansOneLap(ns, n);
    SpansOneLap(Later(ns, p), n);
    LaterIsPut(ns, p);
    var q := if p + 1 < |ns|
      then prior[Slot(o, n, ns[p + 1].lo) := if p > 0 then Slot(o, n, ns[p - 1].lo) else -1] else prior;
    BackCut(prior, o, ns, p, q);
    BackPut(q, o, rest, p, Node(ns[p].lo + 1, ns[p].hi), prior');
  }

  // ----- neighbours, unlinking and appending -----

  /** What the cells around interval p hold. */
  lemma RepNeighbours(c: Cells, o: int, ns: seq<Node>, p: int)
    requires Rep(c, o, ns) && 0 <= p < |ns|
    ensures Shape(c) && Ascending(ns) && Spans(ns, |c.data1|) && NodeAt(c, o, ns, p)
    ensures p > 0 ==> NodeAt(c, o, ns, p - 1)
    ensures p + 1 < |ns| ==> NodeAt(c, o, ns, p + 1)
    ensures 0 <= ns[p].hi - ns[p].lo <= ns[p].hi - ns[0].lo < |c.data1|
  {
  }

  lemma BackNeighbours(prior: seq<int>, o: int, ns: seq<Node>, p: int)
    requires Back(prior, o, ns) && 0 <= p < |ns|
    ensures |prior| > 0 && BackAt(prior, o, ns, p)
    ensures p + 1 < |ns| ==> BackAt(prior, o, ns, p + 1)
  {
  }

  /** Unlinking interval p, wherever it stands. */
  lemma CutAny(c: Cells, o: int, ns: seq<Node>, p: int, c': Cells)
    requires Rep(c, o, ns) && 0 <= p < |ns|
    requires var s := Slot(o, |c.data1|, ns[p].lo);
      && c'.data1 == c.data1[s := -1] && c'.data2 == c.data2[s := -1]
      && c'.next == if p > 0 then c.next[Slot(o, |c.data1|, ns[p - 1].lo) := c.next[s]] else c.next
    ensures Rep(c', o, Cut(ns, p))
  {
    if p == 0 {
      DropFirst(c, o, ns, c');
    } else {
      CutNext(c, o, ns, p - 1, c');
    }
  }

  lemma AppendSpans(ns: seq<Node>, nd: Node, size: int)
    requires Ascending(ns) && Disjoint(ns) && |ns| > 0 && size > 0
    requires ns[|ns| - 1].hi < nd.lo <= nd.hi < ns[0].lo + size
    requires Spans(ns, size)
    ensures Spans(Put(ns, |ns|, nd), size) && OneLap(Put(ns, |ns|, nd), size)
    ensures Disjoint(Put(ns, |ns|, nd))
  {
    hide DisjointBut;
    var ms := Put(ns, |ns|, nd);
    PutAscending(ns, |ns|, nd);
    assert forall k :: 0 <= k < |ns| ==> ms[k] == ns[k];
    SpansOneLap(ms, size);
    AppendDisjoint(ns, nd);
  }

  lemma AppendDisjoint(ns: seq<Node>, nd: Node)
    requires Ascending(ns) && Disjoint(ns) && |ns| > 0 && ns[|ns| - 1].hi < nd.lo
    ensures Disjoint(Put(ns, |ns|, nd))
  {
    forall j | 0 <= j < |ns| ensures ns[j].hi <= ns[|ns| - 1].hi {
      if j < |ns| - 1 { assert ns[j].hi < ns[|ns| - 1].lo; }
    }
  }

  /** PutNode behind the last interval, in the order of the source's writes. */
  lemma PutLast(c: Cells, o: int, ns: seq<Node>, nd: Node, c': Cells)
    requires Rep(c, o, ns) && |ns| > 0 && Disjoint(ns) && nd.lo <= nd.hi
    requires ns[|ns| - 1].hi < nd.lo && Spans(Put(ns, |ns|, nd), |c.data1|)
    requires var s, t := Slot(o, |c.data1|, nd.lo), Slot(o, |c.data1|, ns[|ns| - 1].lo);
      && c'.data1 == c.data1[s := Wrap(nd.lo)]
      && c'.data2 == (if nd.lo == nd.hi then c.data2 else c.data2[s := Wrap(nd.hi)])
      && c'.next == c.next[t := s][s := -1]
    ensures Rep(c', o, Put(ns, |ns|, nd))
  {
    hide Wrap, Slot;
    PutSpan(ns, |ns|, nd, |c.data1|);
    SlotInjective(o, |c.data1|, ns[|ns| - 1].lo, nd.lo);
    PutNode(c, o, ns, |ns|, nd, c');
  }
}
