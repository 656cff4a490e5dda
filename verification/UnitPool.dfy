/** The packet units all receive buffers of a port share: CUnitQueue
    (UDT4/src/queue.cpp:56-223) and the slots that refer to its units. */
module UnitPool {
  import opened ByteStream
  import opened PacketHeader

  class Unit {
    var flag: int                 // m_iFlag: 0 free, 1 occupied, 2 read out of order, 3 dropped
    var payload: Payload          // m_Packet
    var word: Word                // m_Packet.m_iMsgNo
    ghost var owner: Slots?       // the buffer whose slot refers to this unit
    ghost var at: int             // and which slot
    ghost const block: int        // the place of its block in the ring
    ghost const place: int        // and its own place in that block

    constructor (ghost block: int, ghost place: int)
      ensures flag == 0 && this.block == block && this.place == place
    {
      flag, payload, word := 0, [], 0;
      owner, at := null, 0;
      this.block, this.place := block, place;
    }
  }

  /** The slot array of one receive buffer. */
  class Slots {
    const units: array<Unit?>     // m_pUnit

    constructor (size: nat)
      ensures fresh(units) && units.Length == size && forall p :: 0 <= p < size ==> units[p] == null
    {
      units := new Unit?[size](_ => null);
    }
  }

  /** One block of units; the blocks form a ring. */
  class Entry {
    const units: seq<Unit>        // m_pUnit: the units are parts of the block
    var next: Entry?              // m_pNext

    constructor (units: seq<Unit>)
      ensures this.units == units && next == null
    {
      this.units := units;
      next := null;
    }
  }

  ghost predicate RingOk(ring: seq<Entry>, unit: int)
    reads ring
  {
    && |ring| > 0 && unit > 0
    && (forall i, j :: 0 <= i < j < |ring| ==> ring[i] != ring[j])
    && (forall k :: 0 <= k < |ring| ==> |ring[k].units| == unit)
    && (forall k :: 0 <= k < |ring| - 1 ==> ring[k].next == ring[k + 1])
    && ring[|ring| - 1].next == ring[0]
  }

  /** The blocks of the ring hold exactly the units `members`, each once. */
  ghost predicate Holds(ring: seq<Entry>, members: set<Unit>) {
    && (forall k, j :: 0 <= k < |ring| && 0 <= j < |ring[k].units| ==>
          ring[k].units[j] in members && ring[k].units[j].block == k && ring[k].units[j].place == j)
    && (forall u :: u in members ==>
          0 <= u.block < |ring| && 0 <= u.place < |ring[u.block].units| && ring[u.block].units[u.place] == u)
  }

  /** Fresh units for block `block`. */
  ghost predicate Numbered(us: seq<Unit>, block: int) {
    forall j :: 0 <= j < |us| ==> us[j].block == block && us[j].place == j
  }

  ghost function UnitsOf(us: seq<Unit>): set<Unit> { set u | u in us }

  lemma {:induction false} CardOf(us: seq<Unit>, block: int)
    requires Numbered(us, block)
    ensures |UnitsOf(us)| == |us|
  {
    if |us| > 0 {
      var t, u := us[..|us| - 1], us[|us| - 1];
      CardOf(t, block);
      assert us == t + [u];
      assert UnitsOf(us) == UnitsOf(t) + {u};
    }
  }

  method NewUnits(n: int, ghost block: int) returns (us: seq<Unit>)
    requires n >= 0
    ensures fresh(us) && |us| == n && Numbered(us, block) && forall u :: u in us ==> u.flag == 0
  {
    us := [];
    for k := 0 to n
      invariant fresh(us) && |us| == k && Numbered(us, block) && forall u :: u in us ==> u.flag == 0
    {
      var u := new Unit(block, k);
      us := us + [u];
    }
  }

  lemma NewUnitsCount(us: seq<Unit>, block: int, members: set<Unit>)
    requires Numbered(us, block) && UnitsOf(us) !! members
    ensures |members + UnitsOf(us)| == |members| + |us|
    ensures forall u :: u in UnitsOf(us) ==> u in us
  {
    CardOf(us, block);
  }

  lemma GrowHolds(ring: seq<Entry>, members: set<Unit>, e: Entry)
    requires Holds(ring, members) && Numbered(e.units, |ring|)
    ensures Holds(ring + [e], members + UnitsOf(e.units))
  {
  }

  /** Of one block, the search looks at the first unit and at those from place
      `from` on, but never at the last of several. */
  ghost predicate BlockBusy(us: seq<Unit>, from: int, busy: set<Unit>) {
    forall j :: 0 <= j < |us| && (j == 0 || from <= j < |us| - 1) ==> us[j] in busy
  }

  /** The block `d` places behind block `c` in a ring of `n`. */
  ghost function Around(c: int, d: int, n: int): int {
    if c + d < n then c + d else c + d - n
  }

  /** The search that starts at place `from` of block `c` finds nothing in the
      block `d` places further on. */
  ghost predicate QuietAt(ring: seq<Entry>, busy: set<Unit>, c: int, from: int, d: int)
    requires 0 <= c < |ring| && 0 <= d < |ring|
  {
    BlockBusy(ring[Around(c, d, |ring|)].units, if d == 0 then from else 0, busy)
  }

  lemma CardLe<T>(a: set<T>, b: set<T>)
    requires a <= b
    ensures |a| <= |b|
  {
    assert b == a + (b - a);
  }

  lemma {:induction false} ValuesCard<K, V>(m: map<K, V>)
    requires forall k, l :: k in m && l in m && m[k] == m[l] ==> k == l
    ensures |m.Values| == |m.Keys|
    decreases |m|
  {
    if m != map[] {
      var k :| k in m;
      var rest := m - {k};
      ValuesCard(rest);
      assert m.Keys == rest.Keys + {k};
      assert m.Values == rest.Values + {m[k]};
    } else {
      assert m.Values == {} && m.Keys == {};
    }
  }

  method SetSlot(us: array<Unit?>, p: int, u: Unit?)
    requires 0 <= p < us.Length
    modifies us
    ensures us[..] == old(us[..])[p := u]
    ensures us[p] == u && forall q :: 0 <= q < us.Length && q != p ==> us[q] == old(us[q])
  {
    us[p] := u;
  }

  class UnitQueue {
    const unit: int               // units in every block
    var firstEntry: Entry         // m_pQEntry
    var currQueue: Entry          // m_pCurrQueue
    var lastQueue: Entry          // m_pLastQueue
    var avail: int                // m_pAvailUnit, as an index into the current block
    var size: int                 // m_iSize
    var count: int                // m_iCount
    ghost var ring: seq<Entry>
    ghost var curr: int           // the current block's place in the ring
    ghost var members: set<Unit>
    ghost var buffers: set<Slots>

    constructor (unit: int)
      requires unit > 0
      ensures Valid() && count == 0 && buffers == {} && fresh(ring) && fresh(members) && this.unit == unit == size
      ensures |ring| == 1 && curr == 0 && avail == 0 && currQueue == firstEntry
    {
      this.unit := unit;
      var us := NewUnits(unit, 0);
      var e := new Entry(us);
      firstEntry, currQueue, lastQueue := e, e, e;
      avail, size, count := 0, unit, 0;
      ring, curr, buffers := [e], 0, {};
      members := UnitsOf(us);
      new;
      e.next := e;
      CardOf(us, 0);
      assert Busy() == {};
    }

    /** Units that are not free. */
    ghost function Busy(): set<Unit>
      reads this`members, members
    {
      set u | u in members && u.flag != 0
    }

    ghost predicate Pool()
      reads this`ring, this`members, this`firstEntry, this`lastQueue, this`curr, this`currQueue, this`avail, this`size
      reads ring
    {
      && RingOk(ring, unit) && Holds(ring, members)
      && firstEntry == ring[0] && lastQueue == ring[|ring| - 1]
      && 0 <= curr < |ring| && currQueue == ring[curr] && 0 <= avail < unit
      && size == |members|
    }

    /** A unit is busy exactly when one slot of one buffer refers to it. */
    ghost predicate Shared()
      reads this`members, this`buffers, this`count, members, buffers, set b | b in buffers :: b.units
    {
      && (forall b, c :: b in buffers && c in buffers && b != c ==> b.units != c.units)
      && (forall b, p :: b in buffers && 0 <= p < b.units.Length && b.units[p] != null
           ==> b.units[p] in members && SlotOk(b, p, b.units[p]))
      && (forall u :: u in members && u.flag != 0 ==> u.owner in buffers && UnitOk(u, u.owner))
      && count == |Busy()|
    }

    ghost predicate SlotOk(b: Slots, p: int, u: Unit)
      reads u
    {
      u.flag != 0 && u.owner == b && u.at == p
    }

    ghost predicate UnitOk(u: Unit, b: Slots?)
      reads u, if b == null then {} else {b.units}
    {
      b != null && 0 <= u.at < b.units.Length && b.units[u.at] == u
    }

    ghost predicate Valid()
      reads this, ring, members, buffers, set b | b in buffers :: b.units
    {
      Pool() && Shared()
    }

    // ----- slots come to refer to units, and cease to -----

    /** addData(): slot p of buffer b gets hold of a free unit. */
    method Occupy(b: Slots, p: int, u: Unit)
      requires Valid() && b in buffers && 0 <= p < b.units.Length && b.units[p] == null
      requires u in members && u.flag == 0
      modifies b.units, u`flag, u`owner, u`at, this`count
      ensures Valid() && b.units[..] == old(b.units[..])[p := u] && u.flag == 1
      ensures count == old(count) + 1 && Busy() == old(Busy()) + {u}
    {
      hide Pool, Busy;
      FreeUnreferenced(u);
      Claim(u, b, p);
      SetSlot(b.units, p, u);
    }

    method Claim(u: Unit, ghost b: Slots, ghost p: int)
      requires u in members && u.flag == 0 && count == |Busy()|
      modifies u`flag, u`owner, u`at, this`count
      ensures u.flag == 1 && u.owner == b && u.at == p
      ensures Busy() == old(Busy()) + {u} && count == |Busy()| == old(count) + 1
    {
      ghost var was := Busy();
      assert u !in was;
      u.flag := 1;
      u.owner, u.at := b, p;
      count := count + 1;
      assert Busy() == was + {u};
    }

    /** A slot gives its unit back to the pool. */
    method Release(b: Slots, p: int, ghost u: Unit)
      requires Valid() && b in buffers && 0 <= p < b.units.Length && b.units[p] == u
      modifies b.units, u`flag, this`count
      ensures Valid() && b.units[..] == old(b.units[..])[p := null] && u.flag == 0
      ensures count == old(count) - 1 && Busy() == old(Busy()) - {u}
    {
      hide Pool;
      var tmp := b.units[p];
      ghost var was := Busy();
      assert SlotOk(b, p, tmp) && tmp in was;
      b.units[p] := null;
      tmp.flag := 0;
      count := count - 1;
      assert Busy() == was - {tmp};
    }

    /** A packet is received into a unit. */
    method Load(u: Unit, payload: Payload, word: Word)
      requires Valid() && u in members
      modifies u`payload, u`word
      ensures Valid() && Busy() == old(Busy()) && u.payload == payload && u.word == word
    {
      hide Pool;
      u.payload, u.word := payload, word;
      assert Busy() == old(Busy());
    }

    /** A unit that stays busy changes its flag. */
    method SetFlag(u: Unit, f: int)
      requires Valid() && u in members && u.flag != 0 && f != 0
      modifies u`flag
      ensures Valid() && u.flag == f && Busy() == old(Busy())
    {
      hide Pool;
      u.flag := f;
      assert Busy() == old(Busy());
    }

    /** A new receive buffer joins. */
    method Register(b: Slots)
      requires Valid() && b !in buffers
      requires forall c :: c in buffers ==> c.units != b.units
      requires forall p :: 0 <= p < b.units.Length ==> b.units[p] == null
      modifies this`buffers
      ensures Valid() && buffers == old(buffers) + {b}
    {
      hide Pool;
      buffers := buffers + {b};
      assert Busy() == old(Busy());
    }

    /** A receive buffer that refers to no unit leaves. */
    ghost method Unregister(b: Slots)
      requires Valid() && forall p :: 0 <= p < b.units.Length ==> b.units[p] == null
      modifies this`buffers
      ensures Valid() && buffers == old(buffers) - {b} && Busy() == old(Busy())
    {
      hide Pool;
      buffers := buffers - {b};
      assert Busy() == old(Busy());
    }

    // ----- finding a free unit -----

    /** All units the search would look at, starting where it stands, are busy. */
    ghost predicate Exhausted()
      requires Pool()
      reads this, ring, members
    {
      forall d :: 0 <= d < |ring| ==> QuietAt(ring, Busy(), curr, avail, d)
    }

    /** At most nine tenths of the pool are in use, and yet the search is in vain. */
    ghost predicate Dry()
      reads this, ring, members
    {
      Pool() && 10 * count <= 9 * size && Exhausted()
    }

    /** Free units may be left: the last ones of blocks of several, and in the
        current block those between the first and the current place. */
    lemma ExhaustedIs()
      requires Pool()
      ensures Exhausted() <==>
        forall u :: u in members && u.flag == 0 ==>
          u.place > 0 && (u.place == unit - 1 || (u.block == curr && u.place < avail))
    {
      if Exhausted() {
        forall u | u in members && u.flag == 0
          ensures u.place > 0 && (u.place == unit - 1 || (u.block == curr && u.place < avail))
        {
          var d := if u.block >= curr then u.block - curr else u.block - curr + |ring|;
          assert QuietAt(ring, Busy(), curr, avail, d);
        }
      } else {
        var d :| 0 <= d < |ring| && !QuietAt(ring, Busy(), curr, avail, d);
        var us := ring[Around(curr, d, |ring|)].units;
        var j :| 0 <= j < |us| && (j == 0 || (if d == 0 then avail else 0) <= j < |us| - 1) && us[j] !in Busy();
        assert us[j] in members && us[j].place == j;
      }
    }

    /** The search of the current block. */
    method ScanBlock() returns (found: bool)
      requires Pool()
      modifies this`avail
      ensures 0 <= avail < unit
      ensures found == !BlockBusy(currQueue.units, old(avail), Busy()) && Busy() == old(Busy())
      ensures found ==> currQueue.units[avail].flag == 0
    {
      hide Holds;
      assert |currQueue.units| == unit > 0;
      var us := currQueue.units;
      assert forall j :: 0 <= j < unit ==> us[j] in members by { InMembers(); }
      while avail != unit - 1
        invariant old(avail) <= avail < unit
        invariant forall j :: old(avail) <= j < avail ==> us[j].flag != 0
        decreases unit - avail
      {
        if us[avail].flag == 0 {
          return true;
        }
        avail := avail + 1;
      }
      if us[0].flag == 0 {
        avail := 0;
        return true;
      }
      found := false;
    }

    /** On to the next block. */
    method Advance()
      requires Pool()
      modifies this`currQueue, this`curr, this`avail
      ensures Pool() && curr == Around(old(curr), 1, |ring|) && avail == 0 && Busy() == old(Busy())
    {
      assert currQueue.next == ring[Around(curr, 1, |ring|)];
      currQueue := currQueue.next;
      curr := Around(curr, 1, |ring|);
      avail := 0;
    }

    lemma CurrOnly(c: int)
      requires Pool() && 0 <= c < |ring|
      ensures currQueue == ring[c] <==> c == curr
    {
    }

    lemma Found()
      requires Pool()
      ensures |currQueue.units| == unit && currQueue == ring[curr] && currQueue.units[avail] in members
    {
    }

    lemma InMembers()
      requires Pool()
      ensures forall j :: 0 <= j < |currQueue.units| ==> currQueue.units[j] in members
    {
    }

    lemma AroundNext(c: int, d: int, n: int)
      requires 0 <= c < n && 0 <= d < n
      ensures 0 <= Around(c, d, n) < n && Around(Around(c, d, n), 1, n) == Around(c, if d + 1 == n then 0 else d + 1, n)
      ensures Around(c, d, n) == c <==> d == 0
    {
    }

    /** The search of getNextAvailUnit(): what it returns is free, and it comes
        back empty-handed exactly when all units it looks at are busy. */
    method Search() returns (r: Unit?)
      requires Pool()
      modifies this`currQueue, this`curr, this`avail
      ensures Pool()
      ensures r != null ==> r in members && r.flag == 0
      ensures r == null <==> old(Exhausted())
    {
      hide BlockBusy, RingOk, Holds, Around;
      var entrance := currQueue;
      ghost var busy, c0, a0, done := Busy(), curr, avail, 0;
      Found();
      AroundNext(c0, 0, |ring|);
      while true
        invariant Pool() && Busy() == busy && 0 <= done < |ring| && curr == Around(c0, done, |ring|)
        invariant avail == if done == 0 then a0 else 0
        invariant forall d :: 0 <= d < done ==> QuietAt(ring, busy, c0, a0, d)
        decreases |ring| - done
      {
        Found();
        AroundNext(c0, done, |ring|);
        var found := ScanBlock();
        assert found == !QuietAt(ring, busy, c0, a0, done);
        if found {
          Found();
          return currQueue.units[avail];
        }
        Advance();
        CurrOnly(c0);
        AroundNext(c0, if done + 1 == |ring| then 0 else done + 1, |ring|);
        if currQueue == entrance {
          break;
        }
        done := done + 1;
        AroundNext(c0, done, |ring|);
      }
      r := null;
    }

    // ----- growing -----

    /** The busy units before place j of block k. */
    ghost function BusyBefore(k: int, j: int): set<Unit>
      reads this, members
    {
      set u | u in members && u.flag != 0 && (u.block < k || (u.block == k && u.place < j))
    }

    lemma CountBlock(k: int, j: int)
      requires Pool() && 0 <= k < |ring| && 0 <= j < unit
      ensures var u := ring[k].units[j];
        |BusyBefore(k, j + 1)| == |BusyBefore(k, j)| + if u.flag != 0 then 1 else 0
    {
      var u := ring[k].units[j];
      assert BusyBefore(k, j + 1) == BusyBefore(k, j) + if u.flag != 0 then {u} else {};
    }

    lemma BlockDone(k: int)
      requires Pool() && 0 <= k < |ring|
      ensures BusyBefore(k, unit) == BusyBefore(k + 1, 0)
      ensures k == |ring| - 1 ==> BusyBefore(k, unit) == Busy()
      ensures BusyBefore(0, 0) == {}
      ensures ring[k] == lastQueue <==> k == |ring| - 1
      ensures k < |ring| - 1 ==> ring[k].next == ring[k + 1]
    {
    }

    /** The recount of increase() finds the units that are not free. */
    method Recount() returns (busy: int)
      requires Pool()
      ensures busy == |Busy()|
    {
      hide BusyBefore, RingOk, Holds;
      busy := 0;
      var p := firstEntry;
      ghost var k := 0;
      BlockDone(0);
      while true
        invariant 0 <= k < |ring| && p == ring[k] && busy == |BusyBefore(k, 0)|
        decreases |ring| - k
      {
        assert |p.units| == unit > 0 by { assert RingOk(ring, unit); BlockLength(k); }
        for j := 0 to |p.units|
          invariant busy == |BusyBefore(k, j)|
        {
          CountBlock(k, j);
          if p.units[j].flag != 0 {
            busy := busy + 1;
          }
        }
        BlockDone(k);
        if p == lastQueue {
          break;
        }
        p := p.next;
        k := k + 1;
      }
    }

    lemma Counted()
      requires Shared()
      ensures count == |Busy()|
    {
    }

    lemma BlockLength(k: int)
      requires Pool() && 0 <= k < |ring|
      ensures |ring[k].units| == unit > 0
    {
    }

    /** A block joins at the end of the ring. */
    method Append(e: Entry)
      requires Valid() && e !in ring && |e.units| == unit && Numbered(e.units, |ring|)
      requires UnitsOf(e.units) !! members && forall u :: u in e.units ==> u.flag == 0
      modifies this`lastQueue, this`ring, this`members, this`size, lastQueue`next, e`next
      ensures Valid() && Busy() == old(Busy())
      ensures size == old(size) + unit && members == old(members) + UnitsOf(e.units) && ring == old(ring) + [e]
    {
      hide RingOk, Holds, Numbered, Shared, Busy, UnitsOf;
      ghost var us := UnitsOf(e.units);
      GrowHolds(ring, members, e);
      NewUnitsCount(e.units, |ring|, members);
      size := size + |e.units|;
      Join(us);
      Link(e);
    }

    method Link(e: Entry)
      requires RingOk(ring, unit) && firstEntry == ring[0] && lastQueue == ring[|ring| - 1]
      requires 0 <= curr < |ring| && currQueue == ring[curr] && 0 <= avail < unit && size == |members|
      requires Holds(ring + [e], members) && e !in ring && |e.units| == unit
      requires Shared()
      modifies this`lastQueue, this`ring, lastQueue`next, e`next
      ensures Pool() && ring == old(ring) + [e]
      ensures Shared() && Busy() == old(Busy())
    {
      hide Shared, Busy, Holds;
      lastQueue.next := e;
      e.next := firstEntry;
      lastQueue := e;
      ring := ring + [e];
    }

    ghost method Join(us: set<Unit>)
      requires Shared() && us !! members && forall u :: u in us ==> u.flag == 0
      modifies this`members
      ensures Shared() && members == old(members) + us && Busy() == old(Busy())
    {
      members := members + us;
      assert Busy() == old(Busy());
    }

    /** increase(): the recount confirms the count, and from nine tenths of the
        size on a block of free units joins the ring. */
    method Increase() returns (r: int)
      requires Valid()
      modifies this, ring
      ensures Valid() && count == old(count) && buffers == old(buffers) && Busy() == old(Busy())
      ensures r == if old(10 * count < 9 * size) then -1 else 0
      ensures size == old(size) + if r == 0 then unit else 0
      ensures old(members) <= members && fresh(members - old(members)) && fresh(set e | e in ring && e !in old(ring))
      ensures |ring| == |old(ring)| + (if r == 0 then 1 else 0) && ring[..|old(ring)|] == old(ring)
      ensures r == 0 ==> forall u :: u in ring[|ring| - 1].units ==> u.flag == 0
      ensures currQueue == old(currQueue) && curr == old(curr) && avail == old(avail)
    {
      hide RingOk, Holds, Numbered, Shared, Busy;
      assert count == |Busy()| by { Counted(); }
      count := Recount();
      if 10 * count < 9 * size {
        return -1;
      }
      Extend();
      return 0;
    }

    method Extend()
      requires Valid()
      modifies this`lastQueue, this`ring, this`members, this`size, ring
      ensures Valid() && Busy() == old(Busy()) && size == old(size) + unit
      ensures old(members) <= members && fresh(members - old(members))
      ensures |ring| == |old(ring)| + 1 && ring[..|old(ring)|] == old(ring) && fresh(ring[|old(ring)|])
      ensures forall u :: u in ring[|ring| - 1].units ==> u.flag == 0
    {
      hide RingOk, Holds, Numbered, Shared, Busy;
      var us := NewUnits(unit, |ring|);
      var e := new Entry(us);
      Append(e);
    }

    /** When the only free units are the last ones of their blocks, none is found. */
    lemma LastUnitsMissed()
      requires Pool() && unit >= 2 && forall u :: u in members && u.flag == 0 ==> u.place == unit - 1
      ensures Exhausted()
    {
      forall d | 0 <= d < |ring| ensures QuietAt(ring, Busy(), curr, avail, d) {
        var k := Around(curr, d, |ring|);
        assert forall j :: 0 <= j < unit ==> ring[k].units[j].place == j && ring[k].units[j] in members;
      }
    }

    /** A fresh block of free units is something the search can find. */
    lemma NewBlockSeen()
      requires Pool() && curr < |ring| - 1 && forall u :: u in ring[|ring| - 1].units ==> u.flag == 0
      ensures !Exhausted()
    {
      var d := |ring| - 1 - curr;
      var us := ring[|ring| - 1].units;
      assert us[0] in us && |us| > 0;
      assert !QuietAt(ring, Busy(), curr, avail, d);
    }

    lemma SizePositive()
      requires Valid()
      ensures size > 0 && count <= size
    {
      var u := ring[0].units[0];
      assert u in members;
      assert Busy() <= members;
      CardLe(Busy(), members);
      assert members != {};
    }

    /** getNextAvailUnit(): a free unit; or none, exactly when at most nine
        tenths of the pool are in use and every unit looked at is busy. */
    method GetNextAvailUnit() returns (r: Unit?)
      requires Valid()
      modifies this, ring
      ensures Valid() && count == old(count) && buffers == old(buffers) && Busy() == old(Busy())
      ensures old(members) <= members && fresh(members - old(members))
      ensures fresh(set e | e in ring && e !in old(ring))
      ensures r != null ==> r in members && r.flag == 0
      ensures r == null <==> old(10 * count <= 9 * size && Exhausted())
      ensures r == null <==> old(Dry())
      ensures size == old(size) +
        if old(10 * count > 9 * size || (Exhausted() && 10 * count >= 9 * size)) then unit else 0
    {
      hide RingOk, Holds, Shared, QuietAt;
      SizePositive();
      ghost var few := 10 * count <= 9 * size;
      if count * 10 > size * 9 {
        var grown := Increase();
        NewBlockSeen();
      }
      if count >= size {
        return null;
      }
      r := Search();
      if r == null {
        var grown := Increase();
      }
    }

    lemma InSlot(b: Slots, p: int)
      requires Valid() && b in buffers && 0 <= p < b.units.Length && b.units[p] != null
      ensures b.units[p] in members && b.units[p].flag != 0
    {
      assert SlotOk(b, p, b.units[p]);
    }

    /** The slots, of all buffers, that refer to a unit. */
    ghost function Occupied(): set<(Slots?, int)>
      reads this`buffers, buffers, set b | b in buffers :: b.units
    {
      set b, p | b in buffers && 0 <= p < b.units.Length && b.units[p] != null :: (b, p)
    }

    /** The count of the pool is the number of occupied slots of all buffers. */
    lemma CountIsOccupied()
      requires Valid()
      ensures count == |Occupied()|
    {
      hide Pool;
      var m := map u | u in Busy() :: (u.owner, u.at);
      var slots := Occupied();
      forall u | u in Busy() ensures m[u] in slots { assert UnitOk(u, u.owner); }
      forall b, p | b in buffers && 0 <= p < b.units.Length && b.units[p] != null ensures (b, p) in m.Values {
        assert SlotOk(b, p, b.units[p]) && m[b.units[p]] == (b, p);
      }
      assert m.Values == slots;
      forall u, v | u in m && v in m && m[u] == m[v] ensures u == v {
        assert UnitOk(u, u.owner) && UnitOk(v, v.owner);
      }
      ValuesCard(m);
      assert m.Keys == Busy();
    }

    /** Two buffers never refer to the same unit. */
    lemma BuffersApart(b: Slots, c: Slots)
      requires Valid() && b in buffers && c in buffers && b != c
      ensures b.units != c.units
      ensures forall p, q :: 0 <= p < b.units.Length && 0 <= q < c.units.Length && b.units[p] != null ==>
        b.units[p] != c.units[q]
    {
      forall p, q | 0 <= p < b.units.Length && 0 <= q < c.units.Length && b.units[p] != null
        ensures b.units[p] != c.units[q]
      {
        assert SlotOk(b, p, b.units[p]);
        assert c.units[q] != null ==> SlotOk(c, q, c.units[q]);
      }
    }

    /** No two slots of a buffer refer to the same unit. */
    lemma InOneSlot(b: Slots, p: int)
      requires Valid() && b in buffers && 0 <= p < b.units.Length && b.units[p] != null
      ensures forall q :: 0 <= q < b.units.Length && q != p ==> b.units[q] != b.units[p]
    {
      forall q | 0 <= q < b.units.Length && b.units[q] == b.units[p] ensures q == p {
        assert SlotOk(b, p, b.units[p]) && SlotOk(b, q, b.units[q]);
      }
    }

    /** A free unit is in no slot. */
    lemma FreeUnreferenced(u: Unit)
      requires Valid() && u in members && u.flag == 0
      ensures forall b, p :: b in buffers && 0 <= p < b.units.Length ==> b.units[p] != u
    {
      forall b, p | b in buffers && 0 <= p < b.units.Length ensures b.units[p] != u {
        if b.units[p] != null { assert SlotOk(b, p, b.units[p]); }
      }
    }
  }
}
