/** Payloads, their concatenation, and reading bytes off a run of payloads. */
module ByteStream {
  import opened Arith

  newtype Byte = x: int | 0 <= x < 256
  type Payload = seq<Byte>

  ghost function Concat(blocks: seq<Payload>): Payload {
    if |blocks| == 0 then [] else Concat(blocks[..|blocks| - 1]) + blocks[|blocks| - 1]
  }

  lemma {:induction false} ConcatSplit(a: seq<Payload>, b: seq<Payload>)
    ensures Concat(a + b) == Concat(a) + Concat(b)
  {
    if |b| == 0 {
      assert a + b == a;
    } else {
      assert (a + b)[..|a + b| - 1] == a + b[..|b| - 1];
      ConcatSplit(a, b[..|b| - 1]);
    }
  }

  lemma ConcatPrefix(a: seq<Payload>, n: nat)
    requires n <= |a|
    ensures Concat(a[..n]) <= Concat(a)
  {
    assert a == a[..n] + a[n..];
    ConcatSplit(a[..n], a[n..]);
  }

  lemma ConcatOne(p: Payload)
    ensures Concat([p]) == p
  {
    assert [p][..0] == [];
  }

  // ----- cutting data into blocks -----

  /** Blocks of `mss` bytes, the last one possibly shorter. */
  function Chunks(data: Payload, mss: int): seq<Payload>
    requires mss > 0
  {
    if |data| == 0 then []
    else if |data| <= mss then [data]
    else [data[..mss]] + Chunks(data[mss..], mss)
  }

  lemma {:induction false} ChunksCut(data: Payload, mss: int)
    requires mss > 0
    ensures Concat(Chunks(data, mss)) == data
    ensures forall k :: 0 <= k < |Chunks(data, mss)| ==> 0 < |Chunks(data, mss)[k]| <= mss
    ensures forall k :: 0 <= k < |Chunks(data, mss)| - 1 ==> |Chunks(data, mss)[k]| == mss
  {
    if |data| == 0 {
    } else if |data| <= mss {
      ConcatOne(data);
    } else {
      var rest := Chunks(data[mss..], mss);
      ChunksCut(data[mss..], mss);
      assert Chunks(data, mss) == [data[..mss]] + rest;
      assert data == data[..mss] + data[mss..];
      hide Concat, Chunks;
      ConcatSplit([data[..mss]], rest);
      ConcatOne(data[..mss]);
      assert forall k :: 1 <= k < |rest| + 1 ==> ([data[..mss]] + rest)[k] == rest[k - 1];
    }
  }

  /** Number of blocks for `len` bytes. */
  function BlocksFor(len: nat, mss: int): nat
    requires mss > 0
  {
    len / mss + if len % mss != 0 then 1 else 0
  }

  /** It is the least number that is enough. */
  lemma BlocksEnough(len: nat, mss: int, k: int)
    requires mss > 0 && k >= 0
    ensures len <= k * mss <==> BlocksFor(len, mss) <= k
  {
    var q, r := len / mss, len % mss;
    assert len == q * mss + r;
    if k <= q { Monotone(k, q, mss); } else { Monotone(q + 1, k, mss); }
    if k == q + 1 || k > q { assert (q + 1) * mss == q * mss + mss; }
    if k < q {
      Monotone(k + 1, q, mss);
      assert (k + 1) * mss == k * mss + mss;
    }
  }

  lemma Monotone(a: int, b: int, c: int)
    requires a <= b && c >= 0
    ensures a * c <= b * c
  {
    assert (b - a) * c >= 0;
    assert (b - a) * c == b * c - a * c;
  }

  lemma {:induction false} ChunksCount(data: Payload, mss: int)
    requires mss > 0
    ensures |Chunks(data, mss)| == BlocksFor(|data|, mss)
  {
    var len := |data|;
    if 0 < len <= mss {
      if len == mss { assert len / mss == 1 && len % mss == 0; } else { assert len / mss == 0 && len % mss == len; }
    } else if len > mss {
      ChunksCount(data[mss..], mss);
      DivStep(len, mss);
    }
  }

  lemma DivStep(len: int, mss: int)
    requires 0 < mss <= len
    ensures len / mss == (len - mss) / mss + 1 && len % mss == (len - mss) % mss
  {
    var q, r := (len - mss) / mss, (len - mss) % mss;
    assert len == (q + 1) * mss + r;
    DivUnique(len, q + 1, r, mss);
  }

  // ----- a receive buffer, keyed by sequence index -----

  /** Slots readIdx..ackIdx are acknowledged and unread; `notch` bytes of the
      first of them have been read. */
  datatype Window = Window(slots: map<int, Payload>, readIdx: int, ackIdx: int, notch: nat)

  ghost predicate WindowOk(w: Window) {
    && w.readIdx <= w.ackIdx
    && (forall i :: w.readIdx <= i < w.ackIdx ==> i in w.slots)
    && (w.notch > 0 ==> w.readIdx < w.ackIdx && w.notch < |w.slots[w.readIdx]|)
    && (forall i :: i in w.slots ==> w.readIdx <= i)
  }

  /** The payloads of a run of filled slots. */
  ghost function Run(slots: map<int, Payload>, from: int, to: int): seq<Payload>
    requires from <= to && forall i :: from <= i < to ==> i in slots
  {
    seq(to - from, k requires 0 <= k < to - from => slots[from + k])
  }

  /** The bytes a reader can still get. */
  ghost function Unread(w: Window): Payload
    requires WindowOk(w)
  {
    var all := Concat(Run(w.slots, w.readIdx, w.ackIdx));
    if w.notch <= |all| then all[w.notch..] else []
  }

  datatype ReadResult = ReadResult(bytes: Payload, window: Window)

  /** Reads up to `rs` bytes, giving up each slot that is used up. */
  function Read(w: Window, rs: nat): ReadResult
    requires WindowOk(w)
    decreases w.ackIdx - w.readIdx
  {
    if w.readIdx == w.ackIdx || rs == 0 then ReadResult([], w)
    else
      var p := w.slots[w.readIdx];
      if rs >= |p| - w.notch then
        var rest := Read(Window(w.slots - {w.readIdx}, w.readIdx + 1, w.ackIdx, 0), rs - (|p| - w.notch));
        ReadResult(p[w.notch..] + rest.bytes, rest.window)
      else
        ReadResult(p[w.notch..w.notch + rs], w.(notch := w.notch + rs))
  }

  lemma RunSplit(slots: map<int, Payload>, from: int, mid: int, to: int)
    requires from <= mid <= to && forall i :: from <= i < to ==> i in slots
    ensures Run(slots, from, to) == Run(slots, from, mid) + Run(slots, mid, to)
    ensures Concat(Run(slots, from, to)) == Concat(Run(slots, from, mid)) + Concat(Run(slots, mid, to))
  {
    assert Run(slots, from, to) == Run(slots, from, mid) + Run(slots, mid, to);
    ConcatSplit(Run(slots, from, mid), Run(slots, mid, to));
  }

  lemma RunOne(slots: map<int, Payload>, i: int)
    requires i in slots
    ensures Run(slots, i, i + 1) == [slots[i]]
  {
  }

  lemma RunSame(slots: map<int, Payload>, slots': map<int, Payload>, from: int, to: int)
    requires from <= to
    requires forall i :: from <= i < to ==> i in slots && i in slots' && slots[i] == slots'[i]
    ensures Run(slots, from, to) == Run(slots', from, to)
  {
  }

  /** The head slot's bytes come first. */
  lemma UnreadHead(w: Window)
    requires WindowOk(w) && w.readIdx < w.ackIdx
    ensures w.readIdx in w.slots && w.notch <= |w.slots[w.readIdx]|
    ensures var p, rest := w.slots[w.readIdx], Window(w.slots - {w.readIdx}, w.readIdx + 1, w.ackIdx, 0);
      WindowOk(rest) && Unread(w) == p[w.notch..] + Unread(rest)
  {
    hide Run, Concat;
    var p, rest := w.slots[w.readIdx], Window(w.slots - {w.readIdx}, w.readIdx + 1, w.ackIdx, 0);
    RunSplit(w.slots, w.readIdx, w.readIdx + 1, w.ackIdx);
    RunOne(w.slots, w.readIdx);
    ConcatOne(p);
    RunSame(w.slots, rest.slots, w.readIdx + 1, w.ackIdx);
    var tail := Concat(Run(w.slots, w.readIdx + 1, w.ackIdx));
    assert (p + tail)[w.notch..] == p[w.notch..] + tail;
  }

  /** `r` hands out the first min(rs, available) bytes of `w` and keeps the rest. */
  ghost predicate TakesFirst(w: Window, rs: nat, r: ReadResult)
    requires WindowOk(w)
  {
    && WindowOk(r.window) && r.window.ackIdx == w.ackIdx && w.readIdx <= r.window.readIdx
    && r.bytes + Unread(r.window) == Unread(w)
    && |r.bytes| == (if rs <= |Unread(w)| then rs else |Unread(w)|)
    && (forall i :: i in r.window.slots <==> i in w.slots && i >= r.window.readIdx)
    && (forall i :: i in r.window.slots ==> r.window.slots[i] == w.slots[i])
  }

  lemma TakeWhole(w: Window, rs: nat, r: ReadResult)
    requires WindowOk(w) && w.readIdx < w.ackIdx && |w.slots[w.readIdx]| - w.notch <= rs
    requires var p, rest := w.slots[w.readIdx], Window(w.slots - {w.readIdx}, w.readIdx + 1, w.ackIdx, 0);
      WindowOk(rest) && TakesFirst(rest, rs - (|p| - w.notch), r)
    ensures TakesFirst(w, rs, ReadResult(w.slots[w.readIdx][w.notch..] + r.bytes, r.window))
  {
    UnreadHead(w);
    var p, rest := w.slots[w.readIdx], Window(w.slots - {w.readIdx}, w.readIdx + 1, w.ackIdx, 0);
    hide Unread;
    assert p[w.notch..] + r.bytes + Unread(r.window) == p[w.notch..] + (r.bytes + Unread(r.window));
  }

  lemma TakePart(w: Window, rs: nat)
    requires WindowOk(w) && w.readIdx < w.ackIdx && rs < |w.slots[w.readIdx]| - w.notch
    ensures TakesFirst(w, rs, ReadResult(w.slots[w.readIdx][w.notch..w.notch + rs], w.(notch := w.notch + rs)))
  {
    var p, rest := w.slots[w.readIdx], Window(w.slots - {w.readIdx}, w.readIdx + 1, w.ackIdx, 0);
    var w' := w.(notch := w.notch + rs);
    UnreadHead(w);
    UnreadHead(w');
    hide Unread;
    assert p[w.notch..] == p[w.notch..w'.notch] + p[w'.notch..];
    assert p[w.notch..w'.notch] + (p[w'.notch..] + Unread(rest)) == p[w.notch..] + Unread(rest);
  }

  /** Reading is taking the first min(rs, available) bytes of a byte queue. */
  lemma {:induction false} ReadIsQueue(w: Window, rs: nat)
    requires WindowOk(w)
    ensures TakesFirst(w, rs, Read(w, rs))
    decreases w.ackIdx - w.readIdx
  {
    hide Unread, TakesFirst, Run, Concat;
    if w.readIdx == w.ackIdx || rs == 0 {
      ReadNothing(w, rs);
    } else {
      var p, rest := w.slots[w.readIdx], Window(w.slots - {w.readIdx}, w.readIdx + 1, w.ackIdx, 0);
      UnreadHead(w);
      if rs >= |p| - w.notch {
        ReadIsQueue(rest, rs - (|p| - w.notch));
        TakeWhole(w, rs, Read(rest, rs - (|p| - w.notch)));
      } else {
        TakePart(w, rs);
      }
    }
  }

  lemma ReadNothing(w: Window, rs: nat)
    requires WindowOk(w) && (w.readIdx == w.ackIdx || rs == 0)
    ensures TakesFirst(w, rs, ReadResult([], w))
  {
    if w.readIdx == w.ackIdx { assert Run(w.slots, w.readIdx, w.ackIdx) == []; }
  }

  /** The slots from index r on. */
  ghost function SlotsFrom(slots: map<int, Payload>, r: int): map<int, Payload> {
    map i | i in slots && r <= i :: slots[i]
  }

  /** Giving up whole slots is reading as many bytes as they hold. */
  lemma {:induction false} ReadSlots(w: Window, r: int) returns (n: nat)
    requires WindowOk(w) && w.notch == 0 && w.readIdx <= r <= w.ackIdx && forall i :: i in w.slots ==> |w.slots[i]| > 0
    ensures Read(w, n).window == Window(SlotsFrom(w.slots, r), r, w.ackIdx, 0)
    decreases r - w.readIdx
  {
    n := 0;
    if r == w.readIdx {
      assert SlotsFrom(w.slots, r) == w.slots;
    } else {
      var rest := Window(w.slots - {w.readIdx}, w.readIdx + 1, w.ackIdx, 0);
      n := ReadSlots(rest, r);
      n := n + |w.slots[w.readIdx]|;
      assert SlotsFrom(rest.slots, r) == SlotsFrom(w.slots, r);
    }
  }
}
