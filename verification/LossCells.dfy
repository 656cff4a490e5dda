/** The representation invariant the two loss lists share, on values: how a
    chain of intervals is laid out in the arrays of starts, ends and links, and
    what each elementary array update does to the chain. */
module LossCells {
  import opened SeqNo
  import opened LossNodes

  datatype Cells = Cells(data1: seq<int>, data2: seq<int>, next: seq<int>)

  ghost function Second(nd: Node): int {
    if nd.lo == nd.hi then -1 else Wrap(nd.hi)
  }

  ghost function NextSlot(o: int, n: int, ns: seq<Node>, k: int): int
    requires n > 0 && 0 <= k < |ns|
  {
    if k + 1 < |ns| then Slot(o, n, ns[k + 1].lo) else -1
  }

  ghost predicate Used(o: int, n: int, ns: seq<Node>, s: int)
    requires n > 0
  {
    exists k :: 0 <= k < |ns| && Slot(o, n, ns[k].lo) == s
  }

  ghost predicate Shape(c: Cells) {
    |c.data1| == |c.data2| == |c.next| && 0 < |c.data1| <= TH
  }

  ghost predicate NodeAt(c: Cells, o: int, ns: seq<Node>, k: int)
    requires Shape(c) && 0 <= k < |ns|
  {
    var s := Slot(o, |c.data1|, ns[k].lo);
    && c.data1[s] == Wrap(ns[k].lo)
    && c.data2[s] == Second(ns[k])
    && c.next[s] == NextSlot(o, |c.data1|, ns, k)
  }

  ghost predicate Free(c: Cells, s: int)
    requires Shape(c) && 0 <= s < |c.data1|
  {
    c.data1[s] == -1 && c.data2[s] == -1
  }

  ghost predicate Spans(ns: seq<Node>, n: int) {
    forall k :: 0 <= k < |ns| ==> ns[k].hi - ns[0].lo < n
  }

  /** The arrays hold exactly the intervals `ns`, chained in order. */
  ghost predicate Rep(c: Cells, o: int, ns: seq<Node>) {
    && Shape(c)
    && Ascending(ns) && Spans(ns, |c.data1|)
    && (forall k :: 0 <= k < |ns| ==> NodeAt(c, o, ns, k))
    && (forall s :: 0 <= s < |c.data1| && !Used(o, |c.data1|, ns, s) ==> Free(c, s))
  }

  lemma RepNode(c: Cells, o: int, ns: seq<Node>, k: int)
    requires Rep(c, o, ns) && 0 <= k < |ns|
    ensures Shape(c) && NodeAt(c, o, ns, k) && Ascending(ns) && Spans(ns, |c.data1|)
    ensures 0 <= ns[k].hi - ns[k].lo <= ns[k].hi - ns[0].lo < |c.data1|
  {
  }

  /** A slot that is not free belongs to an interval. */
  lemma UsedBy(c: Cells, o: int, ns: seq<Node>, s: int) returns (k: int)
    requires Rep(c, o, ns) && 0 <= s < |c.data1| && c.data1[s] != -1
    ensures 0 <= k < |ns| && Slot(o, |c.data1|, ns[k].lo) == s
  {
    assert !Free(c, s);
    assert Used(o, |c.data1|, ns, s);
    k :| 0 <= k < |ns| && Slot(o, |c.data1|, ns[k].lo) == s;
  }

  lemma SlotsDiffer(n: int, o: int, ns: seq<Node>, x: int)
    requires n > 0 && Ascending(ns)
    requires forall k :: 0 <= k < |ns| ==> -n < ns[k].lo - x < n
    ensures forall k :: 0 <= k < |ns| && ns[k].lo != x ==> Slot(o, n, ns[k].lo) != Slot(o, n, x)
  {
    forall k | 0 <= k < |ns| && ns[k].lo != x
      ensures Slot(o, n, ns[k].lo) != Slot(o, n, x)
    {
      SlotInjective(o, n, ns[k].lo, x);
    }
  }

  ghost function Put(ns: seq<Node>, p: int, nd: Node): seq<Node>
    requires 0 <= p <= |ns|
  {
    ns[..p] + [nd] + ns[p..]
  }

  ghost function Cut(ns: seq<Node>, p: int): seq<Node>
    requires 0 <= p < |ns|
  {
    ns[..p] + ns[p + 1..]
  }

  lemma PutAscending(ns: seq<Node>, p: int, nd: Node)
    requires Ascending(ns) && 0 <= p <= |ns| && nd.lo <= nd.hi
    requires p > 0 ==> ns[p - 1].lo < nd.lo
    requires p < |ns| ==> nd.lo < ns[p].lo
    ensures Ascending(Put(ns, p, nd))
  {
    assert forall k :: 0 <= k < p ==> ns[k].lo <= ns[p - 1].lo;
    assert forall k :: p <= k < |ns| ==> ns[p].lo <= ns[k].lo;
  }

  lemma PutSpan(ns: seq<Node>, p: int, nd: Node, n: int)
    requires Ascending(ns) && 0 <= p <= |ns| && nd.lo <= nd.hi && Spans(Put(ns, p, nd), n)
    requires p > 0 ==> ns[p - 1].lo < nd.lo
    requires p < |ns| ==> nd.lo < ns[p].lo
    ensures forall k :: 0 <= k < |ns| ==> -n < ns[k].lo - nd.lo < n && ns[k].lo != nd.lo
  {
    PutAscending(ns, p, nd);
    var ms := Put(ns, p, nd);
    assert ms[p] == nd && ms[p].hi - ms[0].lo < n;
    forall k | 0 <= k < |ns| ensures -n < ns[k].lo - nd.lo < n && ns[k].lo != nd.lo {
      var j := if k < p then k else k + 1;
      assert ms[j] == ns[k] && ms[j].hi - ms[0].lo < n;
    }
  }

  lemma SameLosUsed(o: int, n: int, ns: seq<Node>, ms: seq<Node>, t: int)
    requires n > 0 && |ns| == |ms|
    requires forall k :: 0 <= k < |ns| ==> ns[k].lo == ms[k].lo
    ensures Used(o, n, ns, t) ==> Used(o, n, ms, t)
  {
    if k :| 0 <= k < |ns| && Slot(o, n, ns[k].lo) == t {
      assert Slot(o, n, ms[k].lo) == t;
    }
  }

  lemma UsedNode(o: int, n: int, ns: seq<Node>, k: int)
    requires n > 0 && 0 <= k < |ns|
    ensures Used(o, n, ns, Slot(o, n, ns[k].lo))
  {
  }

  lemma PutUsed(o: int, n: int, ns: seq<Node>, p: int, nd: Node, t: int)
    requires n > 0 && 0 <= p <= |ns|
    ensures Used(o, n, ns, t) ==> Used(o, n, Put(ns, p, nd), t)
  {
    if k :| 0 <= k < |ns| && Slot(o, n, ns[k].lo) == t {
      assert Put(ns, p, nd)[if k < p then k else k + 1] == ns[k];
    }
  }

  lemma CutUsed(o: int, n: int, ns: seq<Node>, p: int, t: int)
    requires n > 0 && 0 <= p < |ns|
    ensures Used(o, n, ns, t) ==> Used(o, n, Cut(ns, p), t) || t == Slot(o, n, ns[p].lo)
  {
    if k :| 0 <= k < |ns| && Slot(o, n, ns[k].lo) == t && k != p {
      assert Cut(ns, p)[if k < p then k else k - 1] == ns[k];
    }
  }

  /** A new interval goes into a free slot and is linked behind interval p - 1. */
  lemma PutNode(c: Cells, o: int, ns: seq<Node>, p: int, nd: Node, c': Cells)
    requires Rep(c, o, ns) && 0 <= p <= |ns| && nd.lo <= nd.hi
    requires p > 0 ==> ns[p - 1].lo < nd.lo
    requires p < |ns| ==> nd.lo < ns[p].lo
    requires Spans(Put(ns, p, nd), |c.data1|)
    requires var s := Slot(o, |c.data1|, nd.lo);
      && c'.data1 == c.data1[s := Wrap(nd.lo)]
      && c'.data2 == (if nd.lo == nd.hi then c.data2 else c.data2[s := Wrap(nd.hi)])
      && var nx := c.next[s := if p < |ns| then Slot(o, |c.data1|, ns[p].lo) else -1];
         c'.next == if p > 0 then nx[Slot(o, |c.data1|, ns[p - 1].lo) := s] else nx
    ensures Rep(c', o, Put(ns, p, nd))
  {
    hide Wrap, Slot, Used, Second, NextSlot;
    var n := |c.data1|;
    var ms := Put(ns, p, nd);
    PutSpan(ns, p, nd, n);
    SlotsDiffer(n, o, ns, nd.lo);
    PutAscending(ns, p, nd);
    if p > 0 { SlotsDiffer(n, o, ns, ns[p - 1].lo); }
    PutChain(c, o, ns, p, nd, c');
    forall t | 0 <= t < n && !Used(o, n, ms, t) ensures Free(c', t) {
      PutAtSlot(o, n, ns, p, nd, t);
      PutUsed(o, n, ns, p, nd, t);
      assert Free(c, t);
    }
  }

  lemma PutAtSlot(o: int, n: int, ns: seq<Node>, p: int, nd: Node, t: int)
    requires n > 0 && 0 <= p <= |ns| && !Used(o, n, Put(ns, p, nd), t)
    ensures t != Slot(o, n, nd.lo)
  {
    hide Slot;
    assert Put(ns, p, nd)[p] == nd;
  }

  lemma PutChain(c: Cells, o: int, ns: seq<Node>, p: int, nd: Node, c': Cells)
    requires Rep(c, o, ns) && 0 <= p <= |ns| && nd.lo <= nd.hi && Shape(c')
    requires forall k :: 0 <= k < |ns| ==> Slot(o, |c.data1|, ns[k].lo) != Slot(o, |c.data1|, nd.lo)
    requires p > 0 ==> forall k :: 0 <= k < |ns| && ns[k].lo != ns[p - 1].lo ==>
      Slot(o, |c.data1|, ns[k].lo) != Slot(o, |c.data1|, ns[p - 1].lo)
    requires var s := Slot(o, |c.data1|, nd.lo);
      && c'.data1 == c.data1[s := Wrap(nd.lo)]
      && c'.data2 == (if nd.lo == nd.hi then c.data2 else c.data2[s := Wrap(nd.hi)])
      && var nx := c.next[s := if p < |ns| then Slot(o, |c.data1|, ns[p].lo) else -1];
         c'.next == if p > 0 then nx[Slot(o, |c.data1|, ns[p - 1].lo) := s] else nx
    ensures forall k :: 0 <= k < |Put(ns, p, nd)| ==> NodeAt(c', o, Put(ns, p, nd), k)
  {
    hide Wrap, Slot;
    var ms := Put(ns, p, nd);
    forall k | 0 <= k < |ms| ensures NodeAt(c', o, ms, k) {
      if k < p {
        assert NodeAt(c, o, ns, k);
      } else if k > p {
        assert NodeAt(c, o, ns, k - 1);
      } else {
        assert Free(c, Slot(o, |c.data1|, nd.lo));
      }
    }
  }

  /** Moving the end of interval p is one write to data2. */
  lemma MoveEnd(c: Cells, o: int, ns: seq<Node>, p: int, hi: int, c': Cells)
    requires Rep(c, o, ns) && 0 <= p < |ns|
    requires ns[p].lo <= hi && hi - ns[0].lo < |c.data1|
    requires c' == c.(data2 := c.data2[Slot(o, |c.data1|, ns[p].lo) := Second(Node(ns[p].lo, hi))])
    ensures Rep(c', o, ns[p := Node(ns[p].lo, hi)])
  {
    hide Wrap, Slot;
    var n := |c.data1|;
    var ms := ns[p := Node(ns[p].lo, hi)];
    SlotsDiffer(n, o, ns, ns[p].lo);
    forall k | 0 <= k < |ms| ensures NodeAt(c', o, ms, k) { assert NodeAt(c, o, ns, k); }
    forall t | 0 <= t < n && !Used(o, n, ms, t) ensures Free(c', t) {
      assert Slot(o, n, ms[p].lo) == Slot(o, n, ns[p].lo);
      SameLosUsed(o, n, ns, ms, t);
      assert Free(c, t);
    }
  }

  /** Unlinking interval p + 1 from behind interval p. */
  lemma CutNext(c: Cells, o: int, ns: seq<Node>, p: int, c': Cells)
    requires Rep(c, o, ns) && 0 <= p < |ns| - 1
    requires var s, t := Slot(o, |c.data1|, ns[p].lo), Slot(o, |c.data1|, ns[p + 1].lo);
      c' == Cells(c.data1[t := -1], c.data2[t := -1], c.next[s := c.next[t]])
    ensures Rep(c', o, Cut(ns, p + 1))
  {
    hide Wrap, Slot;
    var n := |c.data1|;
    var ms := Cut(ns, p + 1);
    SlotsDiffer(n, o, ns, ns[p].lo);
    SlotsDiffer(n, o, ns, ns[p + 1].lo);
    assert NodeAt(c, o, ns, p + 1);
    forall k | 0 <= k < |ms| ensures NodeAt(c', o, ms, k) {
      assert NodeAt(c, o, ns, if k <= p then k else k + 1);
    }
    forall t | 0 <= t < n && !Used(o, n, ms, t) ensures Free(c', t) {
      if t != Slot(o, n, ns[p + 1].lo) {
        CutUsed(o, n, ns, p + 1, t);
        assert Free(c, t);
      }
    }
  }

  /** Clearing the slot of the first interval drops it. */
  lemma DropFirst(c: Cells, o: int, ns: seq<Node>, c': Cells)
    requires Rep(c, o, ns) && |ns| > 0
    requires var s := Slot(o, |c.data1|, ns[0].lo);
      c' == c.(data1 := c.data1[s := -1], data2 := c.data2[s := -1])
    ensures Rep(c', o, Cut(ns, 0))
  {
    hide Wrap, Slot;
    var n := |c.data1|;
    var ms := Cut(ns, 0);
    SlotsDiffer(n, o, ns, ns[0].lo);
    forall k | 0 <= k < |ms| ensures NodeAt(c', o, ms, k) { assert NodeAt(c, o, ns, k + 1); }
    forall t | 0 <= t < n && !Used(o, n, ms, t) ensures Free(c', t) {
      if t != Slot(o, n, ns[0].lo) {
        CutUsed(o, n, ns, 0, t);
        assert Free(c, t);
      }
    }
  }

  ghost function Shifted(ns: seq<Node>): seq<Node>
    requires |ns| > 0
  {
    Put(Cut(ns, 0), 0, Node(ns[0].lo + 1, ns[0].hi))
  }

  /** The first interval gives up its first number and moves one slot on. */
  lemma ShiftFirst(c: Cells, o: int, ns: seq<Node>, c': Cells)
    requires Rep(c, o, ns) && |ns| > 0 && ns[0].lo < ns[0].hi && Disjoint(ns)
    requires var s, t := Slot(o, |c.data1|, ns[0].lo), Slot(o, |c.data1|, ns[0].lo + 1);
      && c'.data1 == c.data1[t := Wrap(ns[0].lo + 1)][s := -1]
      && c'.data2 == (if ns[0].lo + 1 == ns[0].hi then c.data2 else c.data2[t := Wrap(ns[0].hi)])[s := -1]
      && c'.next == c.next[t := c.next[s]]
    ensures Rep(c', o, Shifted(ns))
  {
    hide Wrap, Slot, Rep, Used, Free, Ascending, DisjointBut, Spans;
    var s, x := Slot(o, |c.data1|, ns[0].lo), ns[0].lo + 1;
    FirstFacts(c, o, ns);
    var c1 := c.(data1 := c.data1[s := -1], data2 := c.data2[s := -1]);
    DropFirst(c, o, ns, c1);
    PutNode(c1, o, Cut(ns, 0), 0, Node(x, ns[0].hi), c');
  }

  /** The first interval without its first number fits where the rest begins. */
  lemma FirstFacts(c: Cells, o: int, ns: seq<Node>)
    requires Rep(c, o, ns) && |ns| > 0 && ns[0].lo < ns[0].hi && Disjoint(ns)
    ensures var n, rest, nd := |c.data1|, Cut(ns, 0), Node(ns[0].lo + 1, ns[0].hi);
      && Shape(c) && Shifted(ns) == Put(rest, 0, nd) && Spans(Put(rest, 0, nd), n)
      && Slot(o, n, ns[0].lo) != Slot(o, n, nd.lo)
      && c.next[Slot(o, n, ns[0].lo)] == (if 0 < |rest| then Slot(o, n, rest[0].lo) else -1)
      && (0 < |rest| ==> nd.lo < rest[0].lo)
  {
    hide Wrap, Slot, Used, Free;
    RepNode(c, o, ns, 0);
    SlotInjective(o, |c.data1|, ns[0].lo, ns[0].lo + 1);
    var rest := Cut(ns, 0);
    assert forall k :: 0 <= k < |rest| ==> rest[k] == ns[k + 1];
  }

  /** Interval p, cut in two behind index x. */
  ghost function Split(ns: seq<Node>, p: int, x: int): seq<Node>
    requires 0 <= p < |ns|
  {
    Put(ns[p := Node(ns[p].lo, x)], p + 1, Node(x + 1, ns[p].hi))
  }

  lemma SplitAscending(ns: seq<Node>, p: int, x: int)
    requires Ascending(ns) && Disjoint(ns) && 0 <= p < |ns| && ns[p].lo <= x < ns[p].hi
    ensures Ascending(Split(ns, p, x)) && Disjoint(Split(ns, p, x))
  {
    var ms := Split(ns, p, x);
    forall k | 0 <= k < |ms| ensures ms[k].lo <= ms[k].hi { SplitAt(ns, p, x, k); }
    forall j, k | 0 <= j < k < |ms| ensures ms[j].lo < ms[k].lo && ms[j].hi < ms[k].lo {
      SplitAt(ns, p, x, j);
      SplitAt(ns, p, x, k);
    }
  }

  lemma SplitAt(ns: seq<Node>, p: int, x: int, k: int)
    requires 0 <= p < |ns| && 0 <= k < |Split(ns, p, x)|
    ensures Split(ns, p, x)[k] ==
      if k < p then ns[k]
      else if k == p then Node(ns[p].lo, x)
      else if k == p + 1 then Node(x + 1, ns[p].hi)
      else ns[k - 1]
  {
  }

  lemma SplitNode(c: Cells, o: int, ns: seq<Node>, p: int, x: int, c': Cells)
    requires Rep(c, o, ns) && Disjoint(ns) && 0 <= p < |ns| && ns[p].lo <= x < ns[p].hi
    requires var s, t := Slot(o, |c.data1|, ns[p].lo), Slot(o, |c.data1|, x + 1);
      && c'.data1 == c.data1[t := Wrap(x + 1)]
      && c'.data2 == (if x + 1 == ns[p].hi then c.data2 else c.data2[t := Wrap(ns[p].hi)])
                     [s := Second(Node(ns[p].lo, x))]
      && c'.next == c.next[t := c.next[s]][s := t]
    ensures Rep(c', o, Split(ns, p, x))
  {
    hide Wrap, Slot;
    var n := |c.data1|;
    var s := Slot(o, n, ns[p].lo);
    SlotInjective(o, n, ns[p].lo, x + 1);
    assert NodeAt(c, o, ns, p);
    var c1 := c.(data2 := c.data2[s := Second(Node(ns[p].lo, x))]);
    MoveEnd(c, o, ns, p, x, c1);
    var m := ns[p := Node(ns[p].lo, x)];
    forall k | 0 <= k < |Split(ns, p, x)| ensures Split(ns, p, x)[k].hi - Split(ns, p, x)[0].lo < n {
      assert k > p + 1 ==> Split(ns, p, x)[k] == ns[k - 1];
    }
    PutNode(c1, o, m, p + 1, Node(x + 1, ns[p].hi), c');
  }

  lemma SplitUsed(o: int, n: int, ns: seq<Node>, p: int, x: int, t: int)
    requires n > 0 && 0 <= p < |ns|
    ensures Used(o, n, ns, t) ==> Used(o, n, Split(ns, p, x), t)
  {
    var m := ns[p := Node(ns[p].lo, x)];
    SameLosUsed(o, n, ns, m, t);
    PutUsed(o, n, m, p + 1, Node(x + 1, ns[p].hi), t);
  }

  lemma ShiftUsed(o: int, n: int, ns: seq<Node>, t: int)
    requires n > 0 && |ns| > 0
    ensures Used(o, n, ns, t) ==> Used(o, n, Shifted(ns), t) || t == Slot(o, n, ns[0].lo)
  {
    CutUsed(o, n, ns, 0, t);
    PutUsed(o, n, Cut(ns, 0), 0, Node(ns[0].lo + 1, ns[0].hi), t);
  }

  // ----- the same updates seen as sets -----

  lemma PutElems(ns: seq<Node>, p: int, nd: Node)
    requires 0 <= p <= |ns|
    ensures Elems(Put(ns, p, nd)) == Elems(ns) + Range(nd.lo, nd.hi)
    ensures Sum(Put(ns, p, nd)) == Sum(ns) + nd.hi - nd.lo + 1
  {
    assert ns == ns[..p] + ns[p..];
    ElemsSplit(ns[..p], ns[p..]);
    ElemsSplit(ns[..p] + [nd], ns[p..]);
    ElemsSplit(ns[..p], [nd]);
    ElemsOne(nd);
    SumSplit(ns[..p], ns[p..]);
    SumSplit(ns[..p] + [nd], ns[p..]);
    SumSplit(ns[..p], [nd]);
  }

  lemma CutElems(ns: seq<Node>, p: int)
    requires 0 <= p < |ns|
    ensures Elems(ns) == Elems(Cut(ns, p)) + Range(ns[p].lo, ns[p].hi)
    ensures Sum(ns) == Sum(Cut(ns, p)) + ns[p].hi - ns[p].lo + 1
  {
    hide Elems, Sum;
    PutElems(Cut(ns, p), p, ns[p]);
    assert Put(Cut(ns, p), p, ns[p]) == ns;
  }

  lemma MoveEndElems(ns: seq<Node>, p: int, hi: int)
    requires 0 <= p < |ns|
    ensures Elems(ns[p := Node(ns[p].lo, hi)]) == Elems(Cut(ns, p)) + Range(ns[p].lo, hi)
    ensures Sum(ns[p := Node(ns[p].lo, hi)]) == Sum(ns) + hi - ns[p].hi
  {
    hide Elems, Sum;
    var ms := ns[p := Node(ns[p].lo, hi)];
    CutElems(ns, p);
    CutElems(ms, p);
    assert Cut(ns, p) == Cut(ms, p);
  }

  lemma CutDisjoint(ns: seq<Node>, p: int)
    requires Ascending(ns) && Disjoint(ns) && 0 <= p < |ns|
    ensures Ascending(Cut(ns, p)) && Disjoint(Cut(ns, p))
    ensures Range(ns[p].lo, ns[p].hi) !! Elems(Cut(ns, p))
  {
    var ms := Cut(ns, p);
    assert forall k :: 0 <= k < |ms| ==> ms[k] == ns[if k < p then k else k + 1];
    forall x | x in Elems(ms) ensures x !in Range(ns[p].lo, ns[p].hi) { InElems(ms, x); }
  }

  lemma ShiftDisjoint(ns: seq<Node>)
    requires |ns| > 0 && Ascending(ns) && Disjoint(ns)
    ensures Disjoint(Shifted(ns))
  {
    var ms := Shifted(ns);
    assert forall k :: 0 < k < |ms| ==> ms[k] == ns[k];
    assert ms[0].hi == ns[0].hi;
  }

  lemma ShiftElems(ns: seq<Node>)
    requires |ns| > 0 && Ascending(ns) && Disjoint(ns) && ns[0].lo < ns[0].hi
    ensures Sum(Shifted(ns)) == Sum(ns) - 1
    ensures Elems(Shifted(ns)) == Elems(ns) - {ns[0].lo}
  {
    hide Elems, Sum, Ascending, DisjointBut;
    var nd := Node(ns[0].lo + 1, ns[0].hi);
    CutElems(ns, 0);
    CutDisjoint(ns, 0);
    PutElems(Cut(ns, 0), 0, nd);
    assert ns[0].lo in Range(ns[0].lo, ns[0].hi);
    assert Range(ns[0].lo, ns[0].hi) == Range(nd.lo, nd.hi) + {ns[0].lo};
  }

  ghost function Max(x: int, y: int): int { if x < y then y else x }

  /** Interval p swallows the interval behind it, which it overlaps or touches. */
  ghost function Merged(ns: seq<Node>, p: int): seq<Node>
    requires 0 <= p < |ns| - 1
  {
    Cut(ns[p := Node(ns[p].lo, Max(ns[p].hi, ns[p + 1].hi))], p + 1)
  }

  lemma MergeElems(ns: seq<Node>, p: int)
    requires 0 <= p < |ns| - 1 && Ascending(ns) && ns[p + 1].lo <= ns[p].hi + 1
    ensures Elems(Merged(ns, p)) == Elems(ns)
    ensures Sum(ns) - Sum(Merged(ns, p)) ==
            if ns[p].hi < ns[p + 1].hi then ns[p].hi - ns[p + 1].lo + 1
            else ns[p + 1].hi - ns[p + 1].lo + 1
  {
    hide Elems, Sum;
    assert ns[p].lo < ns[p + 1].lo && ns[p].lo <= ns[p].hi && ns[p + 1].lo <= ns[p + 1].hi;
    MergeRanges(ns[p], ns[p + 1]);
    hide Ascending, Range;
    var base, w := Cut(Cut(ns, p), p), Node(ns[p].lo, Max(ns[p].hi, ns[p + 1].hi));
    CutElems(ns, p);
    assert Cut(ns, p)[p] == ns[p + 1];
    CutElems(Cut(ns, p), p);
    assert Merged(ns, p) == Put(base, p, w);
    PutElems(base, p, w);
  }

  lemma MergeRanges(m: Node, n: Node)
    requires m.lo < n.lo <= m.hi + 1
    ensures Range(m.lo, Max(m.hi, n.hi)) == Range(m.lo, m.hi) + Range(n.lo, n.hi)
  {
  }

  lemma SplitElems(ns: seq<Node>, p: int, x: int)
    requires 0 <= p < |ns| && ns[p].lo <= x < ns[p].hi
    ensures Elems(Split(ns, p, x)) == Elems(ns) && Sum(Split(ns, p, x)) == Sum(ns)
  {
    hide Elems, Sum;
    var m := ns[p := Node(ns[p].lo, x)];
    MoveEndElems(ns, p, x);
    CutElems(ns, p);
    PutElems(m, p + 1, Node(x + 1, ns[p].hi));
    assert Range(ns[p].lo, ns[p].hi) == Range(ns[p].lo, x) + Range(x + 1, ns[p].hi);
  }

  lemma ElemsWithin(ns: seq<Node>, lo: int, hi: int)
    requires forall k :: 0 <= k < |ns| ==> lo <= ns[k].lo && ns[k].hi <= hi
    ensures forall y :: y in Elems(ns) ==> lo <= y <= hi
  {
    forall y | y in Elems(ns) ensures lo <= y <= hi { InElems(ns, y); }
  }

  lemma PrefixBelow(ns: seq<Node>, p: int)
    requires Ascending(ns) && Disjoint(ns) && 0 < p <= |ns|
    ensures forall y :: y in Elems(ns[..p]) ==> y <= ns[p - 1].hi
  {
    forall k | 0 <= k < p ensures ns[0].lo <= ns[k].lo && ns[k].hi <= ns[p - 1].hi { }
    ElemsWithin(ns[..p], ns[0].lo, ns[p - 1].hi);
  }

  lemma SuffixAbove(ns: seq<Node>, p: int)
    requires Ascending(ns) && Disjoint(ns) && 0 <= p < |ns|
    ensures forall y :: y in Elems(ns[p..]) ==> y >= ns[p].lo
  {
    var vs := ns[p..];
    forall k | 0 <= k < |vs| ensures ns[p].lo <= vs[k].lo && vs[k].hi <= ns[|ns| - 1].hi {
      assert vs[k] == ns[p + k];
    }
    ElemsWithin(vs, ns[p].lo, ns[|ns| - 1].hi);
  }

  lemma EmptyElems()
    ensures Elems([]) == {}
  {
  }

  /** What is left when the intervals up to p are gone. */
  lemma DropElems(ns: seq<Node>, p: int, x: int)
    requires Ascending(ns) && Disjoint(ns) && 0 <= p <= |ns|
    requires p > 0 ==> ns[p - 1].hi <= x
    requires p < |ns| ==> x < ns[p].lo
    ensures Elems(ns[p..]) == set y | y in Elems(ns) && y > x
  {
    hide Elems, Ascending, DisjointBut;
    assert ns == ns[..p] + ns[p..];
    ElemsSplit(ns[..p], ns[p..]);
    EmptyElems();
    if p > 0 { PrefixBelow(ns, p); }
    if p < |ns| { SuffixAbove(ns, p); }
  }
}
