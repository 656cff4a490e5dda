/** What the two loss lists of UDT4/src/list.cpp have in common: intervals of
    lost indices, kept in slots of a circular array.  An interval that starts
    at index `x` lives in slot `Slot(origin, size, x)`. */
module LossNodes {
  import opened Arith

  datatype Node = Node(lo: int, hi: int)

  // ----- slots -----

  function Slot(origin: int, size: int, x: int): (s: nat)
    requires size > 0
    ensures s < size
  {
    (x - origin) % size
  }

  /** Moving by `d` indices moves by `d` slots around the ring. */
  lemma SlotMove(origin: int, size: int, x: int, d: int)
    requires size > 0 && Slot(origin, size, x) + d >= 0
    ensures (Slot(origin, size, x) + d) % size == Slot(origin, size, x + d)
  {
    var a := x - origin;
    var s := a % size + d;
    var q := a / size;
    var q', r := s / size, s % size;
    assert a + d == (q + q') * size + r by {
      assert a == q * size + a % size;
      assert s == q' * size + r;
    }
    DivUnique(a + d, q + q', r, size);
  }

  lemma SlotMoveFromBehind(origin: int, size: int, x: int, d: int)
    requires size > 0 && Slot(origin, size, x) + d + size >= 0
    ensures (Slot(origin, size, x) + d + size) % size == Slot(origin, size, x + d)
  {
    SlotMove(origin, size, x, d + size);
    var q, r := (x + d - origin) / size, (x + d - origin) % size;
    assert x + d + size - origin == (q + 1) * size + r;
    DivUnique(x + d + size - origin, q + 1, r, size);
  }

  /** Within one lap, distinct indices have distinct slots. */
  lemma SlotInjective(origin: int, size: int, x: int, y: int)
    requires size > 0 && -size < x - y < size
    ensures Slot(origin, size, x) == Slot(origin, size, y) <==> x == y
  {
    if Slot(origin, size, x) == Slot(origin, size, y) {
      var q, r := (x - origin) / size, (y - origin) / size;
      assert x - y == (q - r) * size;
      if q != r { MulBig(q - r, size); }
    }
  }

  // ----- sets of indices -----

  predicate Within(x: int, lo: int, hi: int) { lo <= x <= hi }

  ghost function Range(lo: int, hi: int): set<int> {
    set x: int | lo <= x <= hi && Within(x, lo, hi)
  }

  /** Every two members fit into an array of `size` slots. */
  ghost predicate Fits(s: set<int>, size: int) {
    forall x, y :: x in s && y in s ==> x - y < size
  }

  ghost function Elems(ns: seq<Node>): set<int> {
    if |ns| == 0 then {} else Range(ns[0].lo, ns[0].hi) + Elems(ns[1..])
  }

  ghost function Sum(ns: seq<Node>): int {
    if |ns| == 0 then 0 else ns[0].hi - ns[0].lo + 1 + Sum(ns[1..])
  }

  /** Nonempty intervals in the order of their first index. */
  ghost predicate Ascending(ns: seq<Node>) {
    && (forall k :: 0 <= k < |ns| ==> ns[k].lo <= ns[k].hi)
    && (forall j, k :: 0 <= j < k < |ns| ==> ns[j].lo < ns[k].lo)
  }

  /** No overlap, except that interval `p` may run into the ones after it. */
  ghost predicate DisjointBut(ns: seq<Node>, p: int) {
    forall j, k :: 0 <= j < k < |ns| && j != p ==> ns[j].hi < ns[k].lo
  }

  ghost predicate Disjoint(ns: seq<Node>) { DisjointBut(ns, -1) }

  lemma RangeCard(lo: int, hi: int)
    requires lo <= hi + 1
    ensures |Range(lo, hi)| == hi - lo + 1
    decreases hi - lo
  {
    if lo == hi + 1 {
      assert Range(lo, hi) == {};
    } else {
      RangeCard(lo, hi - 1);
      assert Range(lo, hi) == Range(lo, hi - 1) + {hi};
    }
  }

  lemma ElemsSplit(ns: seq<Node>, ms: seq<Node>)
    ensures Elems(ns + ms) == Elems(ns) + Elems(ms)
  {
    if |ns| == 0 {
      assert ns + ms == ms;
    } else {
      assert (ns + ms)[1..] == ns[1..] + ms;
      ElemsSplit(ns[1..], ms);
    }
  }

  lemma InElems(ns: seq<Node>, x: int)
    ensures x in Elems(ns) <==> exists k :: 0 <= k < |ns| && ns[k].lo <= x <= ns[k].hi
  {
    if |ns| > 0 {
      InElems(ns[1..], x);
      if x in Elems(ns[1..]) {
        var k :| 0 <= k < |ns[1..]| && ns[1..][k].lo <= x <= ns[1..][k].hi;
        assert ns[k + 1] == ns[1..][k];
      }
      if k :| 0 < k < |ns| && ns[k].lo <= x <= ns[k].hi {
        assert ns[1..][k - 1] == ns[k];
      }
    }
  }

  lemma ElemsOne(nd: Node)
    ensures Elems([nd]) == Range(nd.lo, nd.hi) && Sum([nd]) == nd.hi - nd.lo + 1
  {
    assert [nd][1..] == [];
  }

  lemma SumSplit(ns: seq<Node>, ms: seq<Node>)
    ensures Sum(ns + ms) == Sum(ns) + Sum(ms)
  {
    if |ns| == 0 {
      assert ns + ms == ms;
    } else {
      assert (ns + ms)[1..] == ns[1..] + ms;
      SumSplit(ns[1..], ms);
    }
  }

  /** The length field counts the set. */
  lemma SumIsCard(ns: seq<Node>)
    requires Ascending(ns) && Disjoint(ns)
    ensures Sum(ns) == |Elems(ns)|
  {
    if |ns| > 0 {
      var rest := ns[1..];
      SumIsCard(rest);
      RangeCard(ns[0].lo, ns[0].hi);
      forall x | x in Elems(rest) ensures x > ns[0].hi {
        InElems(rest, x);
      }
      assert Range(ns[0].lo, ns[0].hi) !! Elems(rest);
    }
  }
}
