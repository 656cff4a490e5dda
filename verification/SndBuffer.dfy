/** CSndBuffer (UDT4/src/buffer.cpp:47-374): a ring of linked blocks that
    grows on demand, with a cursor for first transmissions. */
module SndBuffer {
  import opened ByteStream
  import opened PacketHeader
  import opened Messages

  class Block {
    var data: Payload        // m_pcData, m_iLength
    var word: Word           // m_iMsgNo
    var next: Block?         // m_pNext

    constructor ()
      ensures fresh(this) && next == null
    {
      data, word, next := [], 0, null;
    }
  }

  ghost function Stored(b: Block): Packet
    reads b
  {
    Packet(b.data, b.word)
  }

  /** Every block links to the one behind it, the last one to the first. */
  ghost predicate Linked(chain: seq<Block>)
    reads chain
  {
    && |chain| > 0
    && (forall i, j :: 0 <= i < j < |chain| ==> chain[i] != chain[j])
    && (forall k :: 0 <= k < |chain| - 1 ==> chain[k].next == chain[k + 1])
    && chain[|chain| - 1].next == chain[0]
  }

  ghost function Rotate(chain: seq<Block>, n: nat): seq<Block>
    requires n <= |chain|
  {
    chain[n..] + chain[..n]
  }

  lemma RotateLinked(chain: seq<Block>, n: nat)
    requires Linked(chain) && n < |chain|
    ensures Linked(Rotate(chain, n))
  {
    var c := Rotate(chain, n);
    assert forall k :: 0 <= k < |c| ==> c[k] == if k < |chain| - n then chain[n + k] else chain[k - (|chain| - n)];
  }

  class SndBuffer {
    const mss: int
    const unit: int                // size of the first and of every further physical buffer
    var firstBlock: Block          // m_pFirstBlock
    var currBlock: Block           // m_pCurrBlock
    var lastBlock: Block           // m_pLastBlock
    var nextMsgNo: Word            // m_iNextMsgNo
    var size: int                  // m_iSize
    var count: int                 // m_iCount
    ghost var chain: seq<Block>    // the ring, from the first block on
    ghost var cursor: nat          // how far the current block is from the first

    ghost predicate Valid()
      reads this, chain
    {
      && mss > 0 && unit > 0
      && Linked(chain) && |chain| == size
      && 0 <= cursor <= count < size
      && firstBlock == chain[0] && currBlock == chain[cursor] && lastBlock == chain[count]
    }

    ghost function Blocks(): set<Block>
      reads this
    {
      set b | b in chain
    }

    /** What every block of the ring holds, used or not. */
    ghost function All(): (a: seq<Packet>)
      reads this, chain
      ensures |a| == |chain|
    {
      seq(|chain|, k requires 0 <= k < |chain| reads this, chain => Stored(chain[k]))
    }

    /** The packets not yet released, oldest first. */
    ghost function Contents(): seq<Packet>
      requires Valid()
      reads this, chain
    {
      All()[..count]
    }

    /** Every block of the ring was in it before or is new. */
    twostate predicate Own()
      reads this`chain
    {
      forall k :: 0 <= k < |chain| ==> chain[k] in old(chain) || fresh(chain[k])
    }

    twostate lemma OwnIs()
      requires Own()
      ensures forall b :: b in chain ==> b in old(chain) || fresh(b)
    {
    }

    twostate lemma OwnSame()
      requires chain == old(chain)
      ensures Own()
    {
    }

    constructor (size: int, mss: int)
      requires size > 0 && mss > 0
      ensures Valid() && Contents() == [] && cursor == 0 && fresh(chain) && this.mss == mss && nextMsgNo == 1
      ensures this.size == size && unit == size
    {
      this.mss, this.unit := mss, size;
      var b := new Block();
      var pb := b;
      ghost var c := [b];
      for i := 1 to size
        invariant |c| == i && c[0] == b && c[i - 1] == pb && fresh(c)
        invariant forall j, k :: 0 <= j < k < |c| ==> c[j] != c[k]
        invariant forall k :: 0 <= k < i - 1 ==> c[k].next == c[k + 1]
      {
        pb.next := new Block();
        pb := pb.next;
        c := c + [pb];
      }
      pb.next := b;
      firstBlock, currBlock, lastBlock := b, b, b;
      nextMsgNo, this.size, count := 1, size, 0;
      chain, cursor := c, 0;
    }

    /** A ring of `unit` new blocks, open at its end. */
    method NewBlocks() returns (first: Block, last: Block, ghost c: seq<Block>)
      requires unit > 0
      ensures |c| == unit && first == c[0] && last == c[unit - 1] && fresh(c)
      ensures forall j, k :: 0 <= j < k < |c| ==> c[j] != c[k]
      ensures forall k :: 0 <= k < unit - 1 ==> c[k].next == c[k + 1]
    {
      first := new Block();
      last := first;
      c := [first];
      for i := 1 to unit
        invariant |c| == i && c[0] == first && c[i - 1] == last && fresh(c)
        invariant forall j, k :: 0 <= j < k < |c| ==> c[j] != c[k]
        invariant forall k :: 0 <= k < i - 1 ==> c[k].next == c[k + 1]
      {
        last.next := new Block();
        last := last.next;
        c := c + [last];
      }
    }

    /** increase(): more blocks go in behind the last used one; nothing that is
        stored, nor the cursor, changes. */
    method Increase()
      requires Valid()
      modifies this`size, this`chain, lastBlock
      ensures Valid() && size == old(size) + unit && Contents() == old(Contents())
      ensures fresh(Blocks() - old(Blocks()))
      ensures lastBlock.data == old(lastBlock.data) && lastBlock.word == old(lastBlock.word)
    {
      var first, last;
      ghost var c;
      first, last, c := NewBlocks();
      last.next := lastBlock.next;
      lastBlock.next := first;
      size := size + unit;
      ghost var ch := chain;
      chain := chain[..count + 1] + c + chain[count + 1..];
      SplicedLinked(ch, count, c, chain);
    }

    /** Grows the ring until `n` more blocks leave one unused. */
    method Reserve(n: nat)
      requires Valid()
      modifies this, chain
      ensures Valid() && n + count < size && Contents() == old(Contents())
      ensures cursor == old(cursor) && nextMsgNo == old(nextMsgNo) && count == old(count)
      ensures fresh(Blocks() - old(Blocks()))
    {
      hide Linked, Contents;
      ghost var was := Contents();
      while n + count >= size
        invariant Valid() && Contents() == was && cursor == old(cursor) && count == old(count)
        invariant nextMsgNo == old(nextMsgNo) && lastBlock == old(lastBlock) && lastBlock in old(chain)
        invariant fresh(Blocks() - old(Blocks()))
        decreases n + count - size
      {
        Increase();
      }
    }

    /** addBuffer(): appends the message, cut into blocks; the ring never fills. */
    method AddBuffer(data: Payload, order: bool)
      requires Valid()
      modifies this, chain
      ensures Valid() && cursor == old(cursor) && nextMsgNo == old(nextMsgNo) + 1
      ensures Contents() == old(Contents()) + Packets(Chunks(data, mss), old(nextMsgNo), order)
      ensures Own()
    {
      hide Linked, Packets, Contents, Chunks;
      var n := BlockCount(data);
      Reserve(n);
      StoreBlocks(data, order, n);
      NextMsgNo();
    }

    method BlockCount(data: Payload) returns (n: nat)
      requires mss > 0
      ensures n == |Chunks(data, mss)|
    {
      var len := |data|;
      n := len / mss;
      if len % mss != 0 {
        n := n + 1;
      }
      ChunksCount(data, mss);
    }

    method NextMsgNo()
      requires Valid()
      modifies this`nextMsgNo
      ensures Valid() && nextMsgNo == old(nextMsgNo) + 1 && Contents() == old(Contents())
    {
      nextMsgNo := nextMsgNo + 1;
    }

    /** The writes of one block; the next one follows it in the ring. */
    method Fill(s: Block, d: Payload, w: Word, ghost j: int) returns (t: Block)
      requires Linked(chain) && 0 <= j < |chain| - 1 && s == chain[j]
      modifies s`data, s`word
      ensures Linked(chain) && t == chain[j + 1]
      ensures All() == old(All())[j := Packet(d, w)]
    {
      s.data := d;
      s.word := w;
      assert chain[j].next == chain[j + 1];
      t := s.next;
    }

    /** The blocks' contents after the first i pieces are written. */
    ghost function Partly(was: seq<Packet>, ps: seq<Packet>, i: int): seq<Packet>
      requires 0 <= i <= |ps| && 0 <= count && count + i <= |was|
      reads this
    {
      was[..count] + ps[..i] + was[count + i..]
    }

    /** One turn of the loop below: the piece of `data` at `at`. */
    method StoreOne(data: Payload, order: bool, at: int, i: int, n: int, s: Block,
                    ghost chunks: seq<Payload>, ghost was: seq<Packet>)
      returns (t: Block)
      requires Linked(chain) && mss > 0 && 0 <= i < n == |chunks| && 0 <= count && n + count < |chain| == |was|
      requires s == chain[count + i] && 0 <= at <= |data| && Chunks(data[at..], mss) == chunks[i..]
      requires |Packets(chunks, nextMsgNo, order)| == n
      requires All() == Partly(was, Packets(chunks, nextMsgNo, order), i)
      modifies s`data, s`word
      ensures Linked(chain) && t == chain[count + i + 1]
      ensures All() == Partly(was, Packets(chunks, nextMsgNo, order), i + 1)
    {
      hide Compose, Linked, Chunks, All, Packets;
      var pktlen := if |data| - at > mss then mss else |data| - at;
      NextChunk(data, mss, at, chunks, i);
      PacketAt(chunks, nextMsgNo, order, i);
      Splice(was, Packets(chunks, nextMsgNo, order), count, i);
      t := Fill(s, data[at..at + pktlen], Compose(nextMsgNo, order, i == 0, i == n - 1), count + i);
    }

    /** The loop that writes the pieces, from the last block on. */
    method StoreLoop(data: Payload, order: bool, n: nat) returns (s: Block)
      requires Valid() && n == |Chunks(data, mss)| && n + count < size
      modifies chain
      ensures Linked(chain) && s == chain[count + n]
      ensures All()[..count + n] == old(All())[..count] + Packets(Chunks(data, mss), nextMsgNo, order)
    {
      ghost var chunks, was := Chunks(data, mss), All();
      ghost var ps := Packets(chunks, nextMsgNo, order);
      hide Compose, Linked, Chunks, All, Packets;
      s := lastBlock;
      var i, at := 0, 0;
      PacketsLen(chunks, nextMsgNo, order);
      assert data[0..] == data && chunks[0..] == chunks;
      while i < n
        invariant 0 <= i <= n && Linked(chain) && s == chain[count + i]
        invariant i < n ==> 0 <= at <= |data| && Chunks(data[at..], mss) == chunks[i..]
        invariant All() == Partly(was, ps, i)
      {
        s := StoreOne(data, order, at, i, n, s, chunks, was);
        NextChunk(data, mss, at, chunks, i);
        i := i + 1;
        at := at + mss;
      }
      assert ps[..n] == ps;
    }

    method StoreBlocks(data: Payload, order: bool, n: nat)
      requires Valid() && n == |Chunks(data, mss)| && n + count < size
      modifies this`lastBlock, this`count, chain
      ensures Valid()
      ensures Contents() == old(Contents()) + Packets(Chunks(data, mss), nextMsgNo, order)
    {
      hide Compose, Linked, Chunks, Packets;
      lastBlock := StoreLoop(data, order, n);
      count := count + n;
    }

    /** readData(): the block at the cursor, for its first transmission; None
        when there is nothing new to send. */
    method ReadNew() returns (found: bool, p: Packet)
      requires Valid()
      modifies this`currBlock, this`cursor
      ensures Valid() && Contents() == old(Contents())
      ensures found == (old(cursor) < |Contents()|)
      ensures found ==> p == Contents()[old(cursor)] && cursor == old(cursor) + 1
      ensures !found ==> cursor == old(cursor)
    {
      if currBlock == lastBlock {
        return false, Packet([], 0);
      }
      assert chain[cursor].next == chain[cursor + 1];
      p := Packet(currBlock.data, currBlock.word);
      found := true;
      currBlock := currBlock.next;
      cursor := cursor + 1;
    }

    /** readData(offset): a block to retransmit. */
    method ReadAt(offset: int) returns (p: Packet)
      requires Valid() && 0 <= offset < |Contents()|
      ensures p == Contents()[offset]
    {
      var b := firstBlock;
      for i := 0 to offset
        invariant b == chain[i]
      {
        b := b.next;
      }
      p := Packet(b.data, b.word);
    }

    /** ackData(): the first `offset` blocks are free again. */
    method AckData(offset: int)
      requires Valid() && 0 <= offset <= cursor
      modifies this`firstBlock, this`count, this`chain, this`cursor
      ensures Valid() && Contents() == old(Contents())[offset..] && cursor == old(cursor) - offset
      ensures forall b :: b in chain <==> b in old(chain)
    {
      var b := firstBlock;
      for i := 0 to offset
        invariant b == chain[i]
      {
        b := b.next;
      }
      firstBlock := b;
      count := count - offset;
      RotateLinked(chain, offset);
      chain := Rotate(chain, offset);
      cursor := cursor - offset;
    }

    function GetCurrBufSize(): (n: int)
      requires Valid()
      reads this, chain
      ensures n == |Contents()|
    {
      count
    }
  }

  lemma PacketsLen(chunks: seq<Payload>, msgNo: Word, order: bool)
    ensures |Packets(chunks, msgNo, order)| == |chunks|
  {
  }

  lemma PacketAt(chunks: seq<Payload>, msgNo: Word, order: bool, i: int)
    requires 0 <= i < |chunks|
    ensures |Packets(chunks, msgNo, order)| == |chunks|
    ensures Packets(chunks, msgNo, order)[i] == Packet(chunks[i], Compose(msgNo, order, i == 0, i == |chunks| - 1))
  {
  }

  lemma Splice(was: seq<Packet>, ps: seq<Packet>, base: nat, i: nat)
    requires base + i < |was| && i < |ps|
    ensures (was[..base] + ps[..i] + was[base + i..])[base + i := ps[i]]
         == was[..base] + ps[..i + 1] + was[base + i + 1..]
  {
  }

  lemma NextChunk(data: Payload, mss: int, at: int, chunks: seq<Payload>, i: int)
    requires mss > 0 && 0 <= at <= |data| && 0 <= i < |chunks|
    requires Chunks(data[at..], mss) == chunks[i..]
    ensures chunks[i] == data[at..at + if |data| - at > mss then mss else |data| - at]
    ensures i + 1 < |chunks| ==> at + mss <= |data| && Chunks(data[at + mss..], mss) == chunks[i + 1..]
  {
    var rest := data[at..];
    assert chunks[i] == chunks[i..][0] && chunks[i + 1..] == chunks[i..][1..];
    if |rest| > mss {
      assert rest[mss..] == data[at + mss..];
    }
  }

  /** A chain with new blocks spliced in behind block `at`. */
  lemma SplicedLinked(ch: seq<Block>, at: nat, c: seq<Block>, all: seq<Block>)
    requires at < |ch| && |c| > 0 && all == ch[..at + 1] + c + ch[at + 1..]
    requires forall i, j :: 0 <= i < j < |ch| ==> ch[i] != ch[j]
    requires forall i, j :: 0 <= i < j < |c| ==> c[i] != c[j]
    requires forall i, j :: 0 <= i < |ch| && 0 <= j < |c| ==> ch[i] != c[j]
    requires forall k :: 0 <= k < |ch| - 1 && k != at ==> ch[k].next == ch[k + 1]
    requires at < |ch| - 1 ==> ch[|ch| - 1].next == ch[0]
    requires forall k :: 0 <= k < |c| - 1 ==> c[k].next == c[k + 1]
    requires ch[at].next == c[0]
    requires c[|c| - 1].next == if at + 1 < |ch| then ch[at + 1] else ch[0]
    ensures Linked(all)
  {
    assert forall k :: 0 <= k < |all| ==>
      all[k] == if k <= at then ch[k] else if k <= at + |c| then c[k - at - 1] else ch[k - |c|];
  }
}
