/** The receive buffer: CRcvBuffer (UDT4/src/buffer.cpp:378-530), a ring of
    slots that refer to units of the shared pool.  Index `i` of the stream
    lives in slot `Slot(isn, size, i)`. */
module RcvBuffer {
  import opened Arith
  import opened ByteStream
  import opened LossNodes
  import opened PacketHeader
  import opened UnitPool
  import opened Messages
  import opened Reassembly

  ghost function Payloads(c: Cells): map<int, Payload> {
    map i | i in c :: c[i].payload
  }

  /** Acknowledged slots are filled, one slot of the ring is empty, and no
      filled slot is further ahead than `maxPos`. */
  ghost predicate Ready(c: Cells, size: int, readIdx: int, ackIdx: int, maxPos: int, notch: nat) {
    && WindowOk(Window(Payloads(c), readIdx, ackIdx, notch))
    && ackIdx < readIdx + size
    && (forall i :: i in c ==> readIdx <= i < readIdx + size - 1 && i <= ackIdx + maxPos)
    && -1 <= maxPos && (maxPos == -1 ==> c == map[]) && (maxPos <= 0 || ackIdx + maxPos <= readIdx + size - 2)
  }

  /** The units that slots refer to. */
  ghost function UnitsIn(us: seq<Unit?>): set<Unit?> {
    set u | u in us && u != null
  }

  lemma UnitsInPut(us: seq<Unit?>, p: int)
    requires 0 <= p < |us| && us[p] != null
    ensures us[p] in UnitsIn(us) && UnitsIn(us[p := null]) <= UnitsIn(us)
  {
  }

  lemma UnitsInJoin(us: seq<Unit?>, u: Unit?)
    ensures UnitsIn(us + [u]) == UnitsIn(us) + if u == null then {} else {u}
  {
  }

  ghost function Joined(data: Payload, r: ReadResult): ReadResult {
    ReadResult(data + r.bytes, r.window)
  }

  lemma JoinNothing(w: Window, rs: nat)
    requires WindowOk(w)
    ensures Joined([], Read(w, rs)) == Read(w, rs)
  {
  }

  lemma JoinEnd(data: Payload, w: Window)
    ensures Joined(data, ReadResult([], w)) == ReadResult(data, w)
  {
  }

  lemma JoinTwo(a: Payload, b: Payload, r: ReadResult)
    ensures Joined(a, Joined(b, r)) == Joined(a + b, r)
  {
    assert a + (b + r.bytes) == a + b + r.bytes;
  }

  lemma JoinWhole(w: Window, rs: nat)
    requires WindowOk(w) && w.readIdx < w.ackIdx && 0 <= |w.slots[w.readIdx]| - w.notch <= rs && rs > 0
    ensures var p, rest := w.slots[w.readIdx], Window(w.slots - {w.readIdx}, w.readIdx + 1, w.ackIdx, 0);
      WindowOk(rest) && Read(w, rs) == Joined(p[w.notch..], Read(rest, rs - (|p| - w.notch)))
  {
  }

  lemma JoinPart(w: Window, rs: nat)
    requires WindowOk(w) && w.readIdx < w.ackIdx && 0 < rs < |w.slots[w.readIdx]| - w.notch
    ensures var p, rest := w.slots[w.readIdx], w.(notch := w.notch + rs);
      WindowOk(rest) && Read(w, rs) == Joined(p[w.notch..w.notch + rs], Read(rest, 0))
  {
  }

  class RcvBuffer {
    const slots: Slots            // m_pUnit
    const size: int               // m_iSize
    const queue: UnitQueue        // m_pUnitQueue
    var startPos: int             // m_iStartPos
    var lastAckPos: int           // m_iLastAckPos
    var maxPos: int               // m_iMaxPos
    var notch: int                // m_iNotch
    ghost const isn: int          // the index that started at slot 0
    ghost var readIdx: int        // the index at startPos
    ghost var ackIdx: int         // the index at lastAckPos

    /** What the slots from readIdx on hold, by index. */
    ghost function Content(): Cells
      requires slots.units.Length == size > 0
      reads this`readIdx, slots.units, slots.units[..]
    {
      ContentFrom(readIdx)
    }

    ghost function ContentFrom(r: int): Cells
      requires slots.units.Length == size > 0
      reads slots.units, slots.units[..]
    {
      map i | i in Range(r, r + size - 1) && slots.units[Slot(isn, size, i)] != null ::
        var u := slots.units[Slot(isn, size, i)]; Held(u.payload, u.word, u.flag)
    }

    ghost predicate Linked()
      reads queue, queue.ring, queue.members, queue.buffers, set b | b in queue.buffers :: b.units
    {
      queue.Valid() && slots in queue.buffers && slots.units.Length == size > 0
    }

    ghost predicate Valid()
      reads this, queue, queue.ring, queue.members, queue.buffers, slots.units, slots.units[..]
      reads set b | b in queue.buffers :: b.units
    {
      ValidAt(startPos)
    }

    /** Valid with the read position at p. */
    ghost predicate ValidAt(p: int)
      reads this`readIdx, this`ackIdx, this`lastAckPos, this`maxPos, this`notch
      reads queue, queue.ring, queue.members, queue.buffers, slots.units, slots.units[..]
      reads set b | b in queue.buffers :: b.units
    {
      && Linked() && notch >= 0
      && Ready(Content(), size, readIdx, ackIdx, maxPos, notch)
      && p == Slot(isn, size, readIdx) && lastAckPos == Slot(isn, size, ackIdx)
    }

    ghost function View(): Window
      requires slots.units.Length == size > 0 && notch >= 0
      reads this`readIdx, this`ackIdx, this`notch, slots.units, slots.units[..]
    {
      Window(Payloads(Content()), readIdx, ackIdx, notch)
    }

    constructor (size: int, queue: UnitQueue, ghost isn: int)
      requires queue.Valid() && size > 0
      modifies queue`buffers
      ensures Valid() && this.size == size && this.queue == queue && this.isn == isn
      ensures View() == Window(map[], isn, isn, 0) && Content() == map[] && maxPos == -1
      ensures queue.buffers == old(queue.buffers) + {slots} && fresh(slots) && fresh(slots.units)
    {
      slots := new Slots(size);
      this.size, this.queue := size, queue;
      startPos, lastAckPos, maxPos, notch := 0, 0, -1, 0;
      this.isn, readIdx, ackIdx := isn, isn, isn;
      new;
      queue.Register(slots);
      assert Content() == map[];
    }

    /** How many acknowledged slots are unread. */
    method GetRcvDataSize() returns (n: int)
      requires Valid()
      ensures n == ackIdx - readIdx
    {
      if lastAckPos >= startPos {
        n := lastAckPos - startPos;
      } else {
        n := size + lastAckPos - startPos;
      }
      SlotDistance(isn, size, readIdx, ackIdx);
    }

    method GetAvailBufSize() returns (n: int)
      requires Valid()
      ensures n == size - (ackIdx - readIdx) - 1 >= 0
    {
      var used := GetRcvDataSize();
      n := size - used - 1;
    }

    /** addData(): -1 exactly when the slot is taken; otherwise the unit's
        payload arrives at its index. */
    method AddData(u: Unit, offset: int) returns (r: int)
      requires Valid() && u in queue.members && u.flag == 0
      requires 0 <= offset < size - (ackIdx - readIdx) - 1
      modifies this`maxPos, slots.units, u`flag, u`owner, u`at, queue`count
      ensures Valid() && maxPos == if offset > old(maxPos) then offset else old(maxPos)
      ensures r == if ackIdx + offset in old(Content()) then -1 else 0
      ensures r == -1 ==> Content() == old(Content()) && queue.Busy() == old(queue.Busy())
      ensures r == 0 ==> Content() == old(Content())[ackIdx + offset := Held(u.payload, u.word, 1)]
      ensures r == 0 ==> queue.Busy() == old(queue.Busy()) + {u}
    {
      hide UnitQueue.Valid, Ready, Content, Slot;
      ghost var x := ackIdx + offset;
      Arrival(offset, Held(u.payload, u.word, 1));
      var pos := (lastAckPos + offset) % size;
      if offset > maxPos {
        maxPos := offset;
      }
      if slots.units[pos] != null {
        return -1;
      }
      PutUnit(pos, x, u);
      return 0;
    }

    lemma Arrival(offset: int, h: Held)
      requires Valid() && 0 <= offset < size - (ackIdx - readIdx) - 1
      ensures readIdx <= ackIdx + offset < readIdx + size
      ensures (lastAckPos + offset) % size == Slot(isn, size, ackIdx + offset)
      ensures ackIdx + offset in Content() <==> slots.units[Slot(isn, size, ackIdx + offset)] != null
      ensures ackIdx + offset in Content() ==> offset <= maxPos
      ensures ackIdx + offset !in Content() ==>
        Ready(Content()[ackIdx + offset := h], size, readIdx, ackIdx, if offset > maxPos then offset else maxPos, notch)
    {
      hide *;
      Opened();
      Parts(startPos);
      SlotMove(isn, size, ackIdx, offset);
      Cell(Slot(isn, size, ackIdx + offset), ackIdx + offset);
      ReadyBounds(Content(), size, readIdx, ackIdx, maxPos, notch);
      if ackIdx + offset !in Content() {
        PutReady(Content(), size, readIdx, ackIdx, maxPos, notch, ackIdx + offset, h);
      }
    }

    method PutUnit(pos: int, ghost x: int, u: Unit)
      requires Linked() && u in queue.members && u.flag == 0
      requires readIdx <= x < readIdx + size && pos == Slot(isn, size, x) && slots.units[pos] == null
      modifies slots.units, u`flag, u`owner, u`at, queue`count
      ensures Linked() && Content() == old(Content())[x := Held(u.payload, u.word, 1)]
      ensures queue.Busy() == old(queue.Busy()) + {u}
    {
      hide UnitQueue.Valid;
      queue.FreeUnreferenced(u);
      PutContent(slots.units[..], slots.units[..][pos := u], isn, readIdx, x, u);
      assert x in Range(readIdx, readIdx + size - 1);
      hide Slot, Range;
      queue.Occupy(slots, pos, u);
    }

    /** ackData(): the next slots, all filled, become readable. */
    method AckData(len: int)
      requires Valid() && len >= 0
      requires forall i :: ackIdx <= i < ackIdx + len ==> i in Content()
      modifies this`lastAckPos, this`maxPos, this`ackIdx
      ensures Valid() && Content() == old(Content())
      ensures View() == old(View()).(ackIdx := old(ackIdx) + len)
    {
      hide *;
      Opened();
      Parts(startPos);
      SlotMove(isn, size, ackIdx, len);
      AckReady(Content(), size, readIdx, ackIdx, maxPos, notch, len);
      lastAckPos := (lastAckPos + len) % size;
      maxPos := maxPos - len;
      if maxPos < 0 {
        maxPos := 0;
      }
      ackIdx := ackIdx + len;
      Assemble(startPos);
      Settled();
    }

    /** A unit of the pool for the next packet, if one is found. */
    method GetUnit() returns (u: Unit?)
      requires Valid()
      modifies queue, queue.ring
      ensures Valid() && Content() == old(Content())
      ensures u != null ==> u in queue.members && u.flag == 0
      ensures u == null <==> old(queue.Dry())
      ensures old(queue.members) <= queue.members && fresh(queue.members - old(queue.members))
      ensures fresh(set e | e in queue.ring && e !in old(queue.ring)) && queue.buffers == old(queue.buffers)
    {
      hide UnitQueue.Valid, UnitQueue.Busy, UnitQueue.Exhausted, UnitQueue.Dry, Ready, Slot;
      u := queue.GetNextAvailUnit();
    }

    /** A packet is received into a free unit. */
    method Load(u: Unit, payload: Payload, word: Word)
      requires Valid() && u in queue.members && u.flag == 0
      modifies u`payload, u`word
      ensures Valid() && Content() == old(Content()) && u.payload == payload && u.word == word
    {
      hide UnitQueue.Valid, Ready, Slot;
      queue.FreeUnreferenced(u);
      ghost var was := Content();
      queue.Load(u, payload, word);
      assert Content() == was;
    }

    /** readBuffer(): the first bytes of the queue of unread bytes. */
    method ReadBuffer(len: int) returns (data: Payload)
      requires Valid() && len >= 0
      modifies this`startPos, this`notch, this`readIdx, slots.units, UnitsIn(slots.units[..]), queue`count
      ensures Valid() && ReadResult(data, View()) == Read(old(View()), len)
    {
      hide *;
      Opened();
      Whole(startPos);
      var p, rs := startPos, len;
      data := [];
      ghost var was := View();
      JoinNothing(was, rs);
      while p != lastAckPos && rs > 0
        invariant ValidAt(p) && 0 <= rs <= len && slots.units.Length == size > 0 && notch >= 0
        invariant WindowOk(was) && WindowOk(View()) && Joined(data, Read(View(), rs)) == Read(was, len)
        invariant UnitsIn(slots.units[..]) <= old(UnitsIn(slots.units[..]))
        decreases ackIdx - readIdx, rs
      {
        var bytes;
        p, bytes := ReadTurn(p, rs);
        JoinTwo(data, bytes, Read(View(), rs - |bytes|));
        data := data + bytes;
        rs := rs - |bytes|;
      }
      NothingLeft(p, rs);
      startPos := p;
      JoinEnd(data, View());
      Settled();
    }

    /** One turn of the loop of readBuffer(). */
    method ReadTurn(p: int, rs: int) returns (q: int, bytes: Payload)
      requires ValidAt(p) && p != lastAckPos && rs > 0
      modifies this`notch, this`readIdx, slots.units, UnitsIn(slots.units[..]), queue`count
      ensures ValidAt(q) && |bytes| <= rs && slots.units.Length == size > 0 && notch >= 0
      ensures old(WindowOk(View())) && WindowOk(View())
      ensures Read(old(View()), rs) == Joined(bytes, Read(View(), rs - |bytes|))
      ensures UnitsIn(slots.units[..]) <= old(UnitsIn(slots.units[..]))
      ensures readIdx >= old(readIdx) && (readIdx == old(readIdx) ==> |bytes| > 0) && readIdx <= ackIdx
    {
      hide *;
      var unit := Head(p);
      var unitsize := |unit.payload| - notch;
      if unitsize > rs {
        unitsize := rs;
      }
      bytes := unit.payload[notch..notch + unitsize];
      ghost var w := View();
      if rs > unitsize || rs == |unit.payload| - notch {
        assert unit.payload[notch..notch + unitsize] == unit.payload[notch..];
        JoinWhole(w, rs);
        UnitsInPut(slots.units[..], p);
        q := PassUnit(p, unit);
      } else {
        JoinPart(w, rs);
        PassBytes(p, rs);
        q := p;
      }
      Whole(q);
    }

    lemma MineAreMembers()
      requires Valid()
      ensures UnitsIn(slots.units[..]) <= queue.members
    {
      hide UnitQueue.Valid;
      forall u | u in slots.units[..] && u != null ensures u in queue.members {
        var p :| 0 <= p < slots.units.Length && slots.units[p] == u;
        queue.InSlot(slots, p);
      }
    }

    lemma ViewOk()
      requires Valid()
      ensures slots.units.Length == size > 0 && notch >= 0 && WindowOk(View())
      ensures View().readIdx == readIdx && View().ackIdx == ackIdx
    {
    }

    lemma ViewIs()
      requires slots.units.Length == size > 0 && notch >= 0
      ensures View() == Window(Payloads(Content()), readIdx, ackIdx, notch)
    {
    }

    lemma Opened()
      requires Valid()
      ensures ValidAt(startPos)
    {
    }

    lemma Settled()
      requires ValidAt(startPos)
      ensures Valid()
    {
    }

    lemma Whole(p: int)
      requires ValidAt(p)
      ensures slots.units.Length == size > 0 && notch >= 0 && WindowOk(View()) && readIdx <= ackIdx
    {
    }

    lemma NothingLeft(p: int, rs: int)
      requires ValidAt(p) && rs >= 0 && !(p != lastAckPos && rs > 0)
      ensures slots.units.Length == size > 0 && notch >= 0 && WindowOk(View())
      ensures Read(View(), rs) == ReadResult([], View())
    {
      SlotInjective(isn, size, readIdx, ackIdx);
    }

    /** The read position moves on, past a unit that goes back to the pool. */
    method PassUnit(p: int, u: Unit) returns (q: int)
      requires ValidAt(p) && readIdx < ackIdx
      requires 0 <= p < slots.units.Length && slots.units[p] == u
      modifies slots.units, u`flag, queue`count, this`readIdx, this`notch
      ensures ValidAt(q) && View() == Window(old(View()).slots - {old(readIdx)}, old(readIdx) + 1, ackIdx, 0)
      ensures readIdx == old(readIdx) + 1 && slots.units[..] == old(slots.units[..])[p := null]
    {
      hide *;
      PassHead(p);
      NextSlot(isn, size, readIdx);
      FreeHead(p, u);
      q := p + 1;
      if q == size {
        q := 0;
      }
      notch := 0;
      Assemble(q);
    }

    /** Valid and View from their parts. */
    lemma Assemble(p: int)
      requires Linked() && slots.units.Length == size > 0 && notch >= 0
      requires Ready(Content(), size, readIdx, ackIdx, maxPos, notch)
      requires p == Slot(isn, size, readIdx) && lastAckPos == Slot(isn, size, ackIdx)
      ensures ValidAt(p) && View() == Window(Payloads(Content()), readIdx, ackIdx, notch)
    {
    }

    lemma Parts(p: int)
      requires ValidAt(p)
      ensures Linked() && slots.units.Length == size > 0 && notch >= 0
      ensures Ready(Content(), size, readIdx, ackIdx, maxPos, notch)
      ensures p == Slot(isn, size, readIdx) && lastAckPos == Slot(isn, size, ackIdx)
      ensures View() == Window(Payloads(Content()), readIdx, ackIdx, notch)
      ensures readIdx <= ackIdx < readIdx + size
    {
    }

    lemma PassHead(p: int)
      requires ValidAt(p) && readIdx < ackIdx
      ensures Ready(Content() - {readIdx}, size, readIdx + 1, ackIdx, maxPos, 0)
      ensures Payloads(Content() - {readIdx}) == Payloads(Content()) - {readIdx}
      ensures Linked() && slots.units.Length == size > 0 && notch >= 0
      ensures p == Slot(isn, size, readIdx) && lastAckPos == Slot(isn, size, ackIdx)
      ensures View() == Window(Payloads(Content()), readIdx, ackIdx, notch)
    {
      hide Content;
      assert Payloads(Content() - {readIdx}) == Payloads(Content()) - {readIdx};
    }

    /** The read position moves on within a unit. */
    method PassBytes(p: int, rs: int)
      requires ValidAt(p) && readIdx < ackIdx && 0 <= p < slots.units.Length && slots.units[p] != null
      requires 0 <= rs < |slots.units[p].payload| - notch
      modifies this`notch
      ensures ValidAt(p) && View() == old(View()).(notch := old(notch) + rs)
    {
      hide *;
      Parts(p);
      Cell(p, readIdx);
      ReadyPart(Content(), size, readIdx, ackIdx, maxPos, notch, notch + rs);
      notch := notch + rs;
      Assemble(p);
    }

    /** The unit at the read position, as long as something acknowledged is unread. */
    method Head(p: int) returns (u: Unit)
      requires ValidAt(p) && p != lastAckPos
      ensures 0 <= p < slots.units.Length && slots.units[p] == u
      ensures slots.units.Length == size > 0 && 0 <= notch <= |u.payload| && readIdx < ackIdx
      ensures View() == Window(View().slots, readIdx, ackIdx, notch) && WindowOk(View())
      ensures readIdx in View().slots && View().slots[readIdx] == u.payload
    {
      assert readIdx in Range(readIdx, readIdx + size - 1);
      assert readIdx < ackIdx;
      ReadyFilled(Content(), size, readIdx, ackIdx, maxPos, notch, readIdx);
      u := slots.units[p];
    }

    /** A unit at the read position goes back to the pool. */
    method FreeHead(p: int, u: Unit)
      requires slots.units.Length == size > 0 && Linked() && 0 <= p == Slot(isn, size, readIdx) && slots.units[p] == u
      modifies slots.units, u`flag, queue`count, this`readIdx
      ensures Linked() && readIdx == old(readIdx) + 1 && Content() == old(Content()) - {old(readIdx)}
      ensures u.flag == 0 && queue.Busy() == old(queue.Busy()) - {u}
      ensures slots.units[..] == old(slots.units[..])[p := null]
    {
      hide *;
      FreeUnit(p, u);
      ghost var c := ContentFrom(readIdx + 1);
      readIdx := readIdx + 1;
      assert Content() == ContentFrom(readIdx) by { Unfold(); }
    }

    lemma Unfold()
      requires slots.units.Length == size > 0
      ensures Content() == ContentFrom(readIdx)
    {
    }

    method FreeUnit(p: int, u: Unit)
      requires Linked() && 0 <= p == Slot(isn, size, readIdx) && slots.units[p] == u
      modifies slots.units, u`flag, queue`count
      ensures Linked() && ContentFrom(readIdx + 1) == old(Content()) - {readIdx}
      ensures u.flag == 0 && queue.Busy() == old(queue.Busy()) - {u}
      ensures slots.units[..] == old(slots.units[..])[p := null] && slots.units[p] == null
    {
      hide UnitQueue.Valid;
      PutContent(slots.units[..], slots.units[..][p := null], isn, readIdx, readIdx, null);
      queue.InOneSlot(slots, p);
      hide Slot, Range;
      queue.Release(slots, p, u);
      assert ContentFrom(readIdx) == old(Content()) - {readIdx};
      ShiftContent(readIdx);
    }

    lemma ShiftContent(r: int)
      requires slots.units.Length == size > 0 && slots.units[Slot(isn, size, r)] == null
      ensures ContentFrom(r + 1) == ContentFrom(r)
    {
      SlotMove(isn, size, r, size);
      DivUnique(Slot(isn, size, r) + size, 1, Slot(isn, size, r), size);
      hide Slot;
      assert Range(r + 1, r + size) == Range(r, r + size - 1) - {r} + {r + size};
    }

    /** The destructor: all units the slots still refer to go back to the pool. */
    method Close()
      requires Linked()
      modifies slots.units, UnitsIn(slots.units[..]), queue`count, queue`buffers
      ensures queue.Valid() && queue.buffers == old(queue.buffers) - {slots}
      ensures queue.Busy() == old(queue.Busy()) - old(UnitsIn(slots.units[..]))
    {
      hide UnitQueue.Valid, UnitQueue.Busy;
      ghost var us := slots.units[..];
      for i := 0 to size
        invariant Linked() && queue.buffers == old(queue.buffers) && slots.units[i..] == us[i..]
        invariant forall p :: 0 <= p < i ==> slots.units[p] == null
        invariant queue.Busy() == old(queue.Busy()) - UnitsIn(us[..i])
      {
        assert us[..i + 1] == us[..i] + [us[i]];
        UnitsInJoin(us[..i], us[i]);
        assert slots.units[i] == us[i] by { assert slots.units[i..][0] == us[i..][0]; }
        if slots.units[i] != null {
          assert us[i] in UnitsIn(us);
          queue.Release(slots, i, slots.units[i]);
        }
      }
      assert us[..size] == us;
      queue.Unregister(slots);
    }

    // ----- message mode -----

    /** The packets in the slots come from the stream `ps`, and no message is
        read in part. */
    ghost predicate MsgOk(ps: seq<Packet>)
      requires slots.units.Length == size > 0
      reads this`readIdx, this`notch, slots.units, slots.units[..]
    {
      notch == 0 && Messaging(Content(), readIdx, ps, isn)
    }

    /** What slot q says about index k. */
    lemma Cell(q: int, k: int)
      requires slots.units.Length == size > 0 && q == Slot(isn, size, k) && readIdx <= k < readIdx + size
      ensures slots.units[q] == null <==> k !in Content()
      ensures slots.units[q] != null ==>
        Content()[k] == Held(slots.units[q].payload, slots.units[q].word, slots.units[q].flag)
    {
      assert k in Range(readIdx, readIdx + size - 1);
    }

    /** The slot at the read position is given up. */
    method FreeFirst(p: int) returns (q: int)
      requires ValidAt(p) && notch == 0 && readIdx < ackIdx
      modifies slots.units, UnitsIn(slots.units[..]), queue`count, this`readIdx
      ensures ValidAt(q) && readIdx == old(readIdx) + 1 && Content() == old(Content()) - {old(readIdx)}
      ensures UnitsIn(slots.units[..]) <= old(UnitsIn(slots.units[..]))
    {
      hide *;
      PassHead(p);
      Filled(p);
      NextSlot(isn, size, readIdx);
      UnitsInPut(slots.units[..], p);
      FreeHead(p, slots.units[p]);
      q := p + 1;
      if q == size {
        q := 0;
      }
      Assemble(q);
    }

    lemma Filled(p: int)
      requires ValidAt(p) && readIdx < ackIdx
      ensures 0 <= p < slots.units.Length && slots.units[p] != null && readIdx in Content()
    {
      assert readIdx in Range(readIdx, readIdx + size - 1);
      ReadyFilled(Content(), size, readIdx, ackIdx, maxPos, notch, readIdx);
    }

    /** The look ahead of scanMsg() over the message at the read position:
        nothing of it is missing. */
    method LookAhead(ghost ps: seq<Packet>) returns (good: bool)
      requires Valid() && MsgOk(ps) && readIdx < ackIdx && NotRead(Content(), readIdx)
      ensures good
    {
      hide *;
      good := true;
      Opened();
      Parts(startPos);
      var i := startPos;
      ghost var k := readIdx;
      while i != lastAckPos
        invariant readIdx <= k <= ackIdx && i == Slot(isn, size, k)
        invariant k < ackIdx ==> NotRead(Content(), k)
        invariant good
        decreases ackIdx - k
      {
        SlotInjective(isn, size, k, ackIdx);
        Cell(i, k);
        AckedCells(k);
        CellSays(Content(), k);
        BoundaryCases(slots.units[i].word);
        if slots.units[i] == null || slots.units[i].flag != 1 {
          good := false;
          break;
        }
        if Boundary(slots.units[i].word) == 1 || Boundary(slots.units[i].word) == 3 {
          break;
        }
        Onward(ps, k);
        NextSlot(isn, size, k);
        i := i + 1;
        if i == size {
          i := 0;
        }
        k := k + 1;
      }
    }

    /** The first loop of scanMsg(): messages read out of order before give up
        their slots.  It frees nothing unread. */
    method SkipRead(ghost ps: seq<Packet>)
      requires Valid() && MsgOk(ps)
      modifies this`startPos, this`readIdx, slots.units, UnitsIn(slots.units[..]), queue`count
      ensures Valid() && MsgOk(ps) && old(readIdx) <= readIdx <= ackIdx && Content() == From(old(Content()), readIdx)
      ensures forall i :: old(readIdx) <= i < readIdx ==> WasRead(old(Content()), i)
      ensures Skipped(Content(), ackIdx, readIdx)
      ensures UnitsIn(slots.units[..]) <= old(UnitsIn(slots.units[..]))
    {
      hide *;
      Opened();
      Parts(startPos);
      ghost var was := Content();
      ContentFromRead(startPos);
      FromNone(was, readIdx);
      while startPos != lastAckPos
        invariant Valid() && slots.units.Length == size > 0 && MsgOk(ps) && lastAckPos == Slot(isn, size, ackIdx)
        invariant old(readIdx) <= readIdx <= ackIdx && Content() == From(was, readIdx)
        invariant forall i :: old(readIdx) <= i < readIdx ==> WasRead(was, i)
        invariant UnitsIn(slots.units[..]) <= old(UnitsIn(slots.units[..]))
        decreases ackIdx - readIdx
      {
        Opened();
        Parts(startPos);
        SlotInjective(isn, size, readIdx, ackIdx);
        Cell(startPos, readIdx);
        AckedCells(readIdx);
        CellSays(Content(), readIdx);
        MsgDef(ps);
        ContentFromRead(startPos);
        FirstCase(Content(), readIdx, ps, isn);
        BoundaryCases(slots.units[startPos].word);
        if slots.units[startPos] == null {
          assert false;        // an acknowledged slot is never empty
        }
        if slots.units[startPos].flag == 1 && Boundary(slots.units[startPos].word) > 1 {
          var good := LookAhead(ps);
          if good {
            SkippedNow();
            return;
          }
        }
        FromNext(was, readIdx);
        startPos := FreeFirst(startPos);
        Settled();
        Parts(startPos);
        MsgDef(ps);
      }
      Opened();
      Parts(startPos);
      SlotInjective(isn, size, readIdx, ackIdx);
      SkippedNow();
    }

    /** scanMsg().  `whole` tells a readable message from the last case of the
        source, a message that fills the ring and has not ended. */
    method ScanMsg(ghost ps: seq<Packet>)
      returns (found: bool, p: int, q: int, passack: bool, ghost whole: bool, ghost a: int, ghost b: int)
      requires Valid() && MsgOk(ps)
      modifies this`startPos, this`readIdx, slots.units, UnitsIn(slots.units[..]), queue`count
      ensures Valid() && MsgOk(ps) && old(readIdx) <= readIdx <= ackIdx && Content() == From(old(Content()), readIdx)
      ensures forall i :: old(readIdx) <= i < readIdx ==> WasRead(old(Content()), i)
      ensures UnitsIn(slots.units[..]) <= old(UnitsIn(slots.units[..]))
      ensures whole ==> found && readIdx <= a && Readable(Content(), ackIdx, a, b)
      ensures whole ==> NoneReadable(Content(), ackIdx, readIdx, b)
      ensures whole ==> p == Slot(isn, size, a) && q == Slot(isn, size, b) && passack == (ackIdx <= b)
      ensures whole && b < ackIdx ==> a == readIdx
      ensures !whole ==> NothingReadable(Content(), ackIdx, readIdx) || (old(readIdx) == ackIdx && maxPos == 0)
      ensures Skipped(Content(), ackIdx, readIdx)
      ensures !whole && found ==> passack && p == (q + 1) % size
      ensures !whole && found <==>
        FillsRing(Content(), ackIdx, readIdx, size) && !(old(readIdx) == ackIdx && maxPos == 0)
      ensures old(readIdx) == ackIdx && maxPos == 0 ==> !whole
    {
      hide *;
      Opened();
      Parts(startPos);
      SlotInjective(isn, size, readIdx, ackIdx);
      ContentFromRead(startPos);
      FromNone(Content(), readIdx);
      NothingToSkip(Content(), readIdx);
      if startPos == lastAckPos && 0 == maxPos {
        return false, -1, 0, false, false, 0, 0;
      }
      SkipRead(ps);
      found, p, q, passack, a, b := FindMsg(ps);
      whole := found;
      if whole {
        Something(Content(), ackIdx, readIdx, size, a, b);
      } else {
        FillsExactly(ps, p, q, a, b);
      }
      if !found {
        if p != -1 && (q + 1) % size == p {
          found := true;
        }
      }
    }

    /** The last test of scanMsg() is for a message that fills the ring. */
    lemma FillsExactly(ps: seq<Packet>, p: int, q: int, a: int, b: int)
      requires Valid() && slots.units.Length == size > 0 && MsgOk(ps) && NothingReadable(Content(), ackIdx, readIdx)
      requires p != -1 ==> p == Slot(isn, size, a) && readIdx <= a && Open(Content(), a, b)
      requires p == -1 ==> forall i :: readIdx <= i ==> !Open(Content(), i, b)
      requires q == Slot(isn, size, b) && b == ackIdx + maxPos + 1
      ensures p != -1 && (q + 1) % size == p <==> FillsRing(Content(), ackIdx, readIdx, size)
    {
      Opened();
      Parts(startPos);
      ReadyBounds(Content(), size, readIdx, ackIdx, maxPos, notch);
      hide Content, Valid, ValidAt, Linked;
      if p != -1 && (q + 1) % size == p {
        RingFull(p, q, a, b);
      }
      var last := readIdx + size - 1;
      if Open(Content(), readIdx, last) && ackIdx < last {
        assert NotRead(Content(), last - 1);
        assert b == last;
        OpenUnique(Content(), ps, isn, readIdx, a, b);
        SlotMove(isn, size, b, 1);
        NextLap(isn, size, readIdx);
      }
    }

    /** A message that wraps around to its own beginning fills the ring. */
    lemma RingFull(p: int, q: int, a: int, b: int)
      requires Valid() && slots.units.Length == size > 0 && readIdx <= a && Open(Content(), a, b)
      requires p == Slot(isn, size, a) && q == Slot(isn, size, b) && (q + 1) % size == p
      ensures a == readIdx && b == readIdx + size - 1
    {
      assert NotRead(Content(), a) && NotRead(Content(), b - 1);
      ContentFromRead(startPos);
      hide Content;
      SlotMove(isn, size, b, 1);
      if b + 1 < a + size { SlotInjective(isn, size, b + 1, a); }
    }

    /** readMsg() has handled slots a..j-1 of message a..b, where `c` and `r`
        were the content and the read index before. */
    ghost predicate MsgAt(p: int, passack: bool, c: Cells, r: int, a: int, b: int, j: int)
      reads this, queue, queue.ring, queue.members, queue.buffers, slots.units, slots.units[..]
      reads set d | d in queue.buffers :: d.units
    {
      && slots.units.Length == size > 0 && notch == 0 && p == Slot(isn, size, j)
      && r <= a <= j <= b + 1 <= r + size - 1 && WholeIn(c, a, b)
      && (passack ==> Valid() && readIdx == r && Content() == Marked(c, a, j - 1))
      && (!passack ==> ValidAt(p) && readIdx == j && b < ackIdx && Content() == From(c, j))
    }

    /** One unit of the message is consumed. */
    method MsgTurn(p: int, passack: bool, ghost c: Cells, ghost r: int, ghost a: int, ghost b: int, ghost j: int)
      returns (next: int)
      requires slots.units.Length == size > 0 && MsgAt(p, passack, c, r, a, b, j) && j <= b
      modifies this`readIdx, slots.units, UnitsIn(slots.units[..]), queue`count
      ensures MsgAt(next, passack, c, r, a, b, j + 1)
      ensures UnitsIn(slots.units[..]) <= old(UnitsIn(slots.units[..]))
    {
      hide *;
      MsgDone(p, passack, c, r, a, b, j);
      MsgInside(c, a, b, j);
      MarkNext(c, a, j);
      FromNext(c, j);
      NextSlot(isn, size, j);
      if !passack {
        next := FreeFirst(p);
        Parts(next);
      } else {
        MarkRead(p, j);
        next := p + 1;
        if next == size {
          next := 0;
        }
      }
      MsgDone(next, passack, c, r, a, b, j + 1);
    }

    /** Its bytes are copied first, as far as they are asked for. */
    method CopyTurn(
      p: int, passack: bool, len: int, left: int, before: Payload, ghost c: Cells, ghost r: int,
      ghost a: int, ghost b: int, ghost j: int)
      returns (rs: int, data: Payload, next: int)
      requires MsgAt(p, passack, c, r, a, b, j) && j <= b && left == len - |before|
      requires before == Cut(Concat(DatasOf(c, a, j - a)), len)
      modifies this`readIdx, slots.units, UnitsIn(slots.units[..]), queue`count
      ensures MsgAt(next, passack, c, r, a, b, j + 1) && rs == len - |data|
      ensures data == Cut(Concat(DatasOf(c, a, j + 1 - a)), len)
      ensures UnitsIn(slots.units[..]) <= old(UnitsIn(slots.units[..]))
    {
      hide *;
      MsgCell(p, passack, c, r, a, b, j);
      MsgDone(p, passack, c, r, a, b, j);
      CutStep(DatasOf(c, a, j - a), c[j].payload, len, before);
      DatasNext(c, a, j - a);
      rs, data := left, before;
      var unit := slots.units[p];
      var unitsize := |unit.payload|;
      if rs >= 0 && unitsize > rs {
        unitsize := rs;
      }
      if unitsize > 0 {
        data := data + unit.payload[..unitsize];
        rs := rs - unitsize;
      }
      next := MsgTurn(p, passack, c, r, a, b, j);
    }

    lemma MsgDone(p: int, passack: bool, c: Cells, r: int, a: int, b: int, j: int)
      requires slots.units.Length == size > 0
      ensures MsgAt(p, passack, c, r, a, b, j) <==>
        && notch == 0 && p == Slot(isn, size, j)
        && r <= a <= j <= b + 1 <= r + size - 1 && WholeIn(c, a, b)
        && (passack ==> Valid() && readIdx == r && Content() == Marked(c, a, j - 1))
        && (!passack ==> ValidAt(p) && readIdx == j && b < ackIdx && Content() == From(c, j))
    {
    }

    lemma MsgCell(p: int, passack: bool, c: Cells, r: int, a: int, b: int, j: int)
      requires MsgAt(p, passack, c, r, a, b, j) && j <= b
      ensures slots.units.Length == size > 0
      ensures 0 <= p < slots.units.Length && slots.units[p] != null && j in c && c[j].payload == slots.units[p].payload
    {
      assert NotRead(c, j);
      MarkNext(c, a, j);
      hide Content, Ready, Linked;
      Cell(p, j);
    }

    lemma MsgEnd(p: int, q: int, passack: bool, c: Cells, r: int, a: int, b: int, j: int)
      requires MsgAt(p, passack, c, r, a, b, j) && q == Slot(isn, size, b)
      ensures size > 0 && (p == (q + 1) % size <==> j == b + 1)
    {
      SlotMove(isn, size, b, 1);
      SlotInjective(isn, size, j, b + 1);
    }

    lemma MsgBegin(p: int, passack: bool, c: Cells, a: int, b: int)
      requires Valid() && slots.units.Length == size > 0 && notch == 0 && p == Slot(isn, size, a) && c == Content()
      requires Readable(c, ackIdx, a, b) && readIdx <= a && passack == (ackIdx <= b) && (b < ackIdx ==> a == readIdx)
      ensures MsgAt(p, passack, c, readIdx, a, b, a)
    {
      assert NotRead(c, b);
      ContentFromRead(startPos);
      hide Content, Ready, Linked;
      FromNone(c, readIdx);
      assert NotRead(c, a);
      MarkNext(c, a, a);
    }

    /** The last turn is done. */
    lemma MsgClose(p: int, passack: bool, c: Cells, r: int, a: int, b: int, ps: seq<Packet>)
      requires MsgAt(p, passack, c, r, a, b, b + 1) && Messaging(c, r, ps, isn) && (!passack ==> a == r)
      ensures if passack then Valid() else ValidAt(p)
      ensures MsgOk(ps)
      ensures forall i :: Pending(Content(), readIdx, i) <==> Pending(c, r, i) && !(a <= i <= b)
      ensures if passack then readIdx == r && Content() == Marked(c, a, b)
        else readIdx == b + 1 && Content() == From(c, b + 1)
      ensures r <= b + 1
    {
      MarkKeeps(c, r, ps, isn, a, b);
      if a == r { TakeKeeps(c, r, ps, isn, b); }
      ReadLeaves(c, r, a, b);
    }

    /** The loop over the message; for one that fills the ring it ends where it
        begins. */
    method CopyOut(
      first: int, q: int, passack: bool, len: int, ghost whole: bool, ghost c: Cells, ghost r: int,
      ghost a: int, ghost b: int, ghost ps: seq<Packet>)
      returns (data: Payload, p: int)
      requires slots.units.Length == size > 0
      requires if whole then MsgAt(first, passack, c, r, a, b, a) && a <= b && q == Slot(isn, size, b)
        else first == (q + 1) % size && Valid() && MsgOk(ps) && Content() == c && readIdx == r
      modifies this`readIdx, slots.units, UnitsIn(slots.units[..]), queue`count
      ensures if whole then MsgAt(p, passack, c, r, a, b, b + 1) && data == Cut(Concat(DatasOf(c, a, b + 1 - a)), len)
        else Valid() && MsgOk(ps) && Content() == c && readIdx == r && data == []
      ensures p == (q + 1) % size
      ensures UnitsIn(slots.units[..]) <= old(UnitsIn(slots.units[..]))
    {
      hide *;
      p, data := first, [];
      var rs := len;
      ghost var j := a;
      CutNone(c, a, len);
      while p != (q + 1) % size
        invariant whole ==> MsgAt(p, passack, c, r, a, b, j) && a <= j <= b + 1
        invariant whole ==> data == Cut(Concat(DatasOf(c, a, j - a)), len) && rs == len - |data|
        invariant !whole ==> p == (q + 1) % size && Valid() && MsgOk(ps) && Content() == c && readIdx == r && data == []
        invariant UnitsIn(slots.units[..]) <= old(UnitsIn(slots.units[..]))
        decreases b + 1 - j
      {
        MsgEnd(p, q, passack, c, r, a, b, j);
        rs, data, p := CopyTurn(p, passack, len, rs, data, c, r, a, b, j);
        j := j + 1;
      }
      if whole { MsgEnd(p, q, passack, c, r, a, b, j); }
    }

    /** The message is copied, and its slots are given up or marked. */
    method Deliver(
      first: int, q: int, passack: bool, len: int, ghost whole: bool, ghost a: int, ghost b: int,
      ghost ps: seq<Packet>)
      returns (data: Payload)
      requires Valid() && MsgOk(ps) && slots.units.Length == size > 0
      requires if whole then
          && Readable(Content(), ackIdx, a, b) && readIdx <= a && passack == (ackIdx <= b)
          && (b < ackIdx ==> a == readIdx)
          && first == Slot(isn, size, a) && q == Slot(isn, size, b)
        else passack && first == (q + 1) % size
      modifies this`startPos, this`readIdx, slots.units, UnitsIn(slots.units[..]), queue`count
      ensures Valid() && MsgOk(ps) && UnitsIn(slots.units[..]) <= old(UnitsIn(slots.units[..]))
      ensures data == if whole then Cut(Concat(DatasOf(old(Content()), a, b + 1 - a)), len) else []
      ensures forall i ::
        Pending(Content(), readIdx, i) <==> Pending(old(Content()), old(readIdx), i) && !(whole && a <= i <= b)
      ensures if whole && !passack then readIdx == b + 1 && Content() == From(old(Content()), b + 1)
        else readIdx == old(readIdx) && Content() == if whole then Marked(old(Content()), a, b) else old(Content())
    {
      hide *;
      Opened();
      Parts(startPos);
      MsgDef(ps);
      ghost var c, r := Content(), readIdx;
      var p;
      if whole {
        OrderNeedsAck(c, ackIdx, r, a, b);
        MsgBegin(first, passack, c, a, b);
      }
      data, p := CopyOut(first, q, passack, len, whole, c, r, a, b, ps);
      if whole { MsgClose(p, passack, c, r, a, b, ps); }
      if !passack {
        startPos := (q + 1) % size;
        Settled();
      }
    }

    /** readMsg(): the first readable message, as a whole; what is not read
        stays to be read. */
    method ReadMsg(len: int, ghost ps: seq<Packet>)
      returns (data: Payload, ghost got: bool, ghost a: int, ghost b: int)
      requires Valid() && MsgOk(ps)
      modifies this`startPos, this`readIdx, slots.units, UnitsIn(slots.units[..]), queue`count
      ensures Valid() && MsgOk(ps)
      ensures ReadsMsg(old(Content()), old(readIdx), ackIdx, Content(), readIdx, len, data, got, a, b)
      ensures got ==> NoneReadable(old(Content()), ackIdx, old(readIdx), b)
      ensures got ==> var all := Concat(DatasOf(old(Content()), a, b + 1 - a));
        data <= all && |data| == if 0 <= len < |all| then len else |all|
      ensures !got ==> data == [] && old(readIdx) <= readIdx && Content() == From(old(Content()), readIdx)
      ensures !got ==> forall i :: old(readIdx) <= i < readIdx ==> WasRead(old(Content()), i)
      ensures !got ==> Skipped(Content(), ackIdx, readIdx)
      ensures got <==>
        !NothingReadable(old(Content()), ackIdx, old(readIdx)) && !(old(readIdx) == ackIdx && maxPos == 0)
      ensures UnitsIn(slots.units[..]) <= old(UnitsIn(slots.units[..]))
    {
      hide *;
      Opened();
      Parts(startPos);
      var found, p, q, passack;
      ghost var whole;
      ghost var was, r0 := Content(), readIdx;
      found, p, q, passack, whole, a, b := ScanMsg(ps);
      got := whole;
      data := [];
      ghost var c, r := Content(), readIdx;
      SkipViews(was, r0, r, ackIdx);
      Opened();
      Parts(startPos);
      MsgDef(ps);
      if whole { Something(was, ackIdx, r0, size, a, b); }
      FromSame(was, r);
      if !found {
        ReadsNothing(was, r0, ackIdx, c, r, len);
        return;
      }
      if whole { OrderNeedsAck(c, ackIdx, r, a, b); }
      data := Deliver(p, q, passack, len, whole, a, b, ps);
      if whole { ReadSame(was, r, a, b); }
      Opened();
      Parts(startPos);
      IsRead(was, r0, ackIdx, Content(), readIdx, len, data, got, a, b);
      CutIs(Concat(DatasOf(was, a, if got then b + 1 - a else 0)), len);
    }

    /** A unit is marked as read out of order. */
    method MarkRead(p: int, ghost j: int)
      requires Valid() && slots.units.Length == size > 0 && readIdx <= j < readIdx + size && j in Content()
      requires p == Slot(isn, size, j)
      modifies UnitsIn(slots.units[..])
      ensures Valid() && Content() == old(Content())[j := old(Content())[j].(flag := 2)]
    {
      hide *;
      Opened();
      Parts(startPos);
      ghost var was := Content();
      Cell(p, j);
      MarkReady(was, size, readIdx, ackIdx, maxPos, notch, j);
      UnitsInPut(slots.units[..], p);
      MarkUnit(p, j);
      Assemble(startPos);
      Settled();
    }

    method MarkUnit(p: int, ghost j: int)
      requires slots.units.Length == size > 0 && Linked() && readIdx <= j < readIdx + size && j in Content()
      requires p == Slot(isn, size, j)
      modifies UnitsIn(slots.units[..])
      ensures Linked() && Content() == old(Content())[j := old(Content())[j].(flag := 2)]
    {
      hide UnitQueue.Valid, Slot, Range;
      Cell(p, j);
      OneIndex(isn, size, readIdx, j);
      queue.InOneSlot(slots, p);
      queue.InSlot(slots, p);
      UnitsInPut(slots.units[..], p);
      queue.SetFlag(slots.units[p], 2);
    }

    /** getRcvMsgNum(). */
    method GetRcvMsgNum(ghost ps: seq<Packet>) returns (n: int)
      requires Valid() && MsgOk(ps)
      modifies this`startPos, this`readIdx, slots.units, UnitsIn(slots.units[..]), queue`count
      ensures Valid() && MsgOk(ps) && Content() == From(old(Content()), readIdx) && 0 <= n <= 1
      ensures old(readIdx) <= readIdx && forall i :: old(readIdx) <= i < readIdx ==> WasRead(old(Content()), i)
      ensures UnitsIn(slots.units[..]) <= old(UnitsIn(slots.units[..]))
      ensures n == 1 <==>
        !(old(readIdx) == ackIdx && maxPos == 0) &&
        (!NothingReadable(Content(), ackIdx, readIdx) || FillsRing(Content(), ackIdx, readIdx, size))
    {
      hide *;
      var found, p, q, passack;
      ghost var whole, a, b;
      found, p, q, passack, whole, a, b := ScanMsg(ps);
      Opened();
      Parts(startPos);
      if whole { Something(Content(), ackIdx, readIdx, size, a, b); }
      n := if found then 1 else 0;
    }

    lemma SkippedNow()
      requires Valid() && (readIdx < ackIdx ==> NotRead(Content(), readIdx) && StartsAt(Content(), readIdx))
      ensures Skipped(Content(), ackIdx, readIdx)
    {
      hide Content;
      forall k | readIdx <= k < ackIdx ensures k in Content() { AckedCells(k); }
    }

    lemma MsgDef(ps: seq<Packet>)
      requires slots.units.Length == size > 0
      ensures MsgOk(ps) <==> notch == 0 && Messaging(Content(), readIdx, ps, isn)
    {
    }

    /** The second loop of scanMsg(): the first readable message.  `full` says
        that the loop ended within a message that fills the ring. */
    method FindMsg(ghost ps: seq<Packet>)
      returns (found: bool, p: int, q: int, passack: bool, ghost a: int, ghost b: int)
      requires Valid() && MsgOk(ps)
      requires Skipped(Content(), ackIdx, readIdx)
      ensures found ==> readIdx <= a && Readable(Content(), ackIdx, a, b) && NoneReadable(Content(), ackIdx, readIdx, b)
      ensures found ==> p == Slot(isn, size, a) && q == Slot(isn, size, b) && passack == (ackIdx <= b)
      ensures found && b < ackIdx ==> a == readIdx
      ensures !found ==> NothingReadable(Content(), ackIdx, readIdx)
      ensures !found ==> passack && (p != -1 ==> p == Slot(isn, size, a) && readIdx <= a && Open(Content(), a, b))
      ensures !found ==> q == Slot(isn, size, b) && b == ackIdx + maxPos + 1
      ensures !found && p == -1 ==> forall i :: readIdx <= i ==> !Open(Content(), i, b)
    {
      hide *;
      Opened();
      Parts(startPos);
      MsgDef(ps);
      ContentFromRead(startPos);
      var i := 0;
      var used := GetRcvDataSize();
      var n := maxPos + used;
      p, q, passack, found := -1, startPos, startPos == lastAckPos, false;
      SlotInjective(isn, size, readIdx, ackIdx);
      a, b := 0, readIdx;
      ScanFrom(Content(), ackIdx, readIdx);
      while i <= n
        invariant 0 <= i && b == readIdx + i <= ackIdx + maxPos + 1 && q == Slot(isn, size, b) && !found
        invariant passack <==> ackIdx <= b
        invariant p == -1 || p == Slot(isn, size, a)
        invariant ScanOk(Content(), ackIdx, readIdx, b, a, p != -1)
        invariant FrontOk(Content(), ackIdx, readIdx, b, a, p != -1)
        decreases n - i
      {
        Cell(q, b);
        ScanTurn(Content(), ps, isn, ackIdx, readIdx, b, a, p != -1);
        InCells(Content(), b);
        if slots.units[q] != null && slots.units[q].flag == 1 {
          CellSays(Content(), b);
          BoundaryCases(slots.units[q].word);
          match Boundary(slots.units[q].word) {
            case 3 => p := q; a := b; found := true;
            case 2 => p := q; a := b;
            case 1 => if p != -1 { found := true; }
            case _ =>
          }
        } else {
          p := -1;
        }
        if found {
          if !passack || !OrderFlag(slots.units[q].word) {
            break;
          }
          found := false;
        }
        NextSlot(isn, size, b);
        q := q + 1;
        if q == size {
          q := 0;
        }
        i, b := i + 1, b + 1;
        if b < ackIdx + size { SlotInjective(isn, size, b, ackIdx); }
        if q == lastAckPos {
          passack := true;
        }
      }
      if !found {
        ScanDone(Content(), ackIdx, readIdx, b, a, p != -1);
        ScanOpen(Content(), ackIdx, readIdx, b, a, p != -1);
      }
    }

    lemma ContentFromRead(p: int)
      requires ValidAt(p)
      ensures forall i :: i in Content() ==> readIdx <= i < readIdx + size - 1 && i <= ackIdx + maxPos
    {
    }

    lemma Onward(ps: seq<Packet>, k: int)
      requires Valid() && MsgOk(ps) && readIdx <= k < ackIdx && NotRead(Content(), k) && !EndsAt(Content(), k)
      ensures k + 1 < ackIdx ==> NotRead(Content(), k + 1) && !StartsAt(Content(), k + 1)
    {
      hide Content;
      if k + 1 < ackIdx {
        AckedCells(k + 1);
        WholeOrNot(Content(), readIdx, ps, isn, k);
      }
    }

    lemma AckedCells(k: int)
      requires Valid() && readIdx <= k < ackIdx
      ensures k in Content()
    {
      hide *;
      Opened();
      Parts(startPos);
      ReadyFilled(Content(), size, readIdx, ackIdx, maxPos, notch, k);
    }
  }

  /** A slot that gets a unit adds one index to the content. */
  lemma PutContent(s: seq<Unit?>, t: seq<Unit?>, isn: int, readIdx: int, x: int, u: Unit?)
    requires |s| > 0 && readIdx <= x < readIdx + |s| && t == s[Slot(isn, |s|, x) := u]
    ensures forall i :: i in Range(readIdx, readIdx + |s| - 1) ==>
      t[Slot(isn, |s|, i)] == if i == x then u else s[Slot(isn, |s|, i)]
  {
    forall i | i in Range(readIdx, readIdx + |s| - 1)
      ensures t[Slot(isn, |s|, i)] == if i == x then u else s[Slot(isn, |s|, i)]
    {
      SlotInjective(isn, |s|, i, x);
    }
  }

  lemma ReadyFilled(c: Cells, size: int, readIdx: int, ackIdx: int, maxPos: int, notch: nat, k: int)
    requires Ready(c, size, readIdx, ackIdx, maxPos, notch) && readIdx <= k < ackIdx
    ensures k in c
  {
    assert k in Payloads(c);
  }

  lemma MarkReady(c: Cells, size: int, readIdx: int, ackIdx: int, maxPos: int, notch: nat, j: int)
    requires Ready(c, size, readIdx, ackIdx, maxPos, notch) && j in c
    ensures Ready(c[j := c[j].(flag := 2)], size, readIdx, ackIdx, maxPos, notch)
  {
    assert Payloads(c[j := c[j].(flag := 2)]) == Payloads(c);
  }

  lemma ReadyPart(c: Cells, size: int, readIdx: int, ackIdx: int, maxPos: int, notch: nat, more: nat)
    requires Ready(c, size, readIdx, ackIdx, maxPos, notch) && readIdx < ackIdx
    requires readIdx in c && more < |c[readIdx].payload|
    ensures Ready(c, size, readIdx, ackIdx, maxPos, more)
  {
  }

  lemma ReadyBounds(c: Cells, size: int, readIdx: int, ackIdx: int, maxPos: int, notch: nat)
    requires Ready(c, size, readIdx, ackIdx, maxPos, notch)
    ensures forall i :: i in c ==> readIdx <= i < readIdx + size - 1 && i <= ackIdx + maxPos
  {
  }

  lemma PayloadsPut(c: Cells, x: int, h: Held)
    ensures Payloads(c[x := h]) == Payloads(c)[x := h.payload] && (x in Payloads(c) <==> x in c)
  {
  }

  lemma AckReady(c: Cells, size: int, readIdx: int, ackIdx: int, maxPos: int, notch: nat, len: nat)
    requires Ready(c, size, readIdx, ackIdx, maxPos, notch)
    requires forall i :: ackIdx <= i < ackIdx + len ==> i in c
    ensures Ready(c, size, readIdx, ackIdx + len, if maxPos - len < 0 then 0 else maxPos - len, notch)
  {
    assert len > 0 ==> ackIdx + len - 1 in c;
    assert readIdx == ackIdx && len > 0 ==> ackIdx in c;
  }

  lemma PutReady(c: Cells, size: int, readIdx: int, ackIdx: int, maxPos: int, notch: nat, x: int, h: Held)
    requires Ready(c, size, readIdx, ackIdx, maxPos, notch) && x !in c
    requires ackIdx <= x < readIdx + size - 1
    ensures Ready(c[x := h], size, readIdx, ackIdx, if x - ackIdx > maxPos then x - ackIdx else maxPos, notch)
    ensures Payloads(c[x := h]) == Payloads(c)[x := h.payload]
  {
    assert Payloads(c[x := h]) == Payloads(c)[x := h.payload];
  }

  lemma OneIndex(isn: int, size: int, readIdx: int, j: int)
    requires size > 0 && readIdx <= j < readIdx + size
    ensures j in Range(readIdx, readIdx + size - 1)
    ensures forall i :: i in Range(readIdx, readIdx + size - 1) ==>
      (Slot(isn, size, i) == Slot(isn, size, j) <==> i == j)
  {
    forall i | i in Range(readIdx, readIdx + size - 1) ensures Slot(isn, size, i) == Slot(isn, size, j) <==> i == j {
      SlotInjective(isn, size, i, j);
    }
  }

  lemma ReadsNothing(c: Cells, r: int, ackIdx: int, d: Cells, r': int, len: int)
    requires r <= r' <= ackIdx && SamePackets(c, d, r') && forall i :: Pending(d, r', i) <==> Pending(c, r, i)
    ensures forall a, b :: ReadsMsg(c, r, ackIdx, d, r', len, [], false, a, b)
  {
  }

  lemma IsRead(c: Cells, r: int, ackIdx: int, d: Cells, r': int, len: int, data: Payload, got: bool, a: int, b: int)
    requires r <= r' <= ackIdx && SamePackets(c, d, r')
    requires got ==> r <= a && Readable(c, ackIdx, a, b) && data == Cut(Concat(DatasOf(c, a, b + 1 - a)), len)
    requires !got ==> data == []
    requires forall i :: Pending(d, r', i) <==> Pending(c, r, i) && !(got && a <= i <= b)
    requires got && OrderedAt(c, b) ==> forall i :: i < a ==> !Pending(c, r, i)
    ensures ReadsMsg(c, r, ackIdx, d, r', len, data, got, a, b)
  {
  }

  lemma Something(c: Cells, ackIdx: int, readIdx: int, size: int, a: int, b: int)
    requires readIdx <= a && Readable(c, ackIdx, a, b)
    ensures !NothingReadable(c, ackIdx, readIdx) && !FillsRing(c, ackIdx, readIdx, size)
  {
  }

  lemma NextLap(isn: int, size: int, x: int)
    requires size > 0
    ensures Slot(isn, size, x + size) == Slot(isn, size, x)
  {
    SlotMove(isn, size, x, size);
    DivUnique(Slot(isn, size, x) + size, 1, Slot(isn, size, x), size);
  }

  lemma NextSlot(isn: int, size: int, x: int)
    requires size > 0
    ensures var p := Slot(isn, size, x); Slot(isn, size, x + 1) == if p + 1 == size then 0 else p + 1
  {
    SlotMove(isn, size, x, 1);
    var p := Slot(isn, size, x);
    if p + 1 == size { DivUnique(p + 1, 1, 0, size); } else { DivUnique(p + 1, 0, p + 1, size); }
  }

  /** The distance around the ring. */
  lemma SlotDistance(isn: int, size: int, a: int, b: int)
    requires size > 0 && a <= b < a + size
    ensures var s, t := Slot(isn, size, a), Slot(isn, size, b);
      b - a == if t >= s then t - s else size + t - s
  {
    var s, d := Slot(isn, size, a), b - a;
    SlotMove(isn, size, a, d);
    if s + d >= size { DivUnique(s + d, 1, s + d - size, size); } else { DivUnique(s + d, 0, s + d, size); }
  }
}
