/** The read cache of the file system client (udtfs/udtfs.cpp:102-172): one file
    may be open, and one window of it is kept. */
module UdtfsCache {
  import opened ByteStream

  const MAX_CACHE_SIZE := 0x200_0000

  /** `len` bytes of a file from `offset` on, zeros past its end, as the server
      sends them (udtfs/common.cpp:617-630). */
  ghost function Segment(file: Payload, offset: int, len: nat): Payload {
    seq(len, i => if 0 <= offset + i < |file| then file[offset + i] else 0)
  }

  /** server_sendsegment(): what the file has from `offset` on, then zeros. */
  method SendSegment(file: Payload, offset: nat, len: nat) returns (sent: Payload)
    ensures sent == Segment(file, offset, len) && |sent| == len
    ensures forall i :: 0 <= i < len ==> sent[i] == if offset + i < |file| then file[offset + i] else 0
  {
    sent := [];
    while |sent| < len && offset + |sent| < |file|
      invariant |sent| <= len && sent == Segment(file, offset, |sent|)
    {
      sent := sent + [file[offset + |sent|]];
    }
    while |sent| < len
      invariant |sent| <= len && sent == Segment(file, offset, |sent|)
      invariant |sent| < len ==> offset + |sent| >= |file|
    {
      sent := sent + [0];
    }
  }

  lemma SegmentPart(file: Payload, offset: int, len: nat, from: nat, n: nat)
    requires from + n <= len
    ensures Segment(file, offset, len)[from..from + n] == Segment(file, offset + from, n)
  {
  }

  lemma SegmentInside(file: Payload, offset: nat, n: nat)
    requires offset + n <= |file|
    ensures Segment(file, offset, n) == file[offset..offset + n]
  {
  }

  /** One leading slash goes. */
  function Strip(path: string): (name: string)
    ensures path == name || path == "/" + name
    ensures path == name <==> path == "" || path[0] != '/'
  {
    if |path| > 0 && path[0] == '/' then path[1..] else path
  }

  datatype Status = Ok | NoEntry | InUse

  lemma Inside(s: Payload, n: int, a: int, b: int)
    requires 0 <= a <= b <= n <= |s|
    ensures s[..n][a..b] == s[a..b]
  {
  }

  class Client {
    var isOpen: bool              // _file_is_open
    var name: string              // _file_name
    var stSize: int               // _file_stats.st_size
    var cacheOffset: int          // _cache_offset
    var cacheLen: nat             // _cache_len
    const cache: array<Byte>      // _cache
    ghost var file: Payload       // the open file, as the server holds it

    /** The window always shows the open file; no window outlives its file. */
    ghost predicate Valid()
      reads this, cache
    {
      && cache.Length == MAX_CACHE_SIZE && cacheLen <= MAX_CACHE_SIZE
      && (isOpen ==> stSize == |file|)
      && (!isOpen ==> cacheLen == 0)
      && cache[..cacheLen] == Segment(file, cacheOffset, cacheLen)
    }

    constructor ()
      ensures Valid() && !isOpen && fresh(cache)
    {
      cache := new Byte[MAX_CACHE_SIZE](_ => 0);
      isOpen, name, stSize, cacheOffset, cacheLen, file := false, "", 0, 0, 0, [];
    }

    /** udtfs_open(): `found` is what the server says of the path. */
    method Open(path: string, found: bool, ghost content: Payload, size: int) returns (r: Status)
      requires Valid() && size == |content|
      modifies this
      ensures Valid()
      ensures r == if old(isOpen) then InUse else if found then Ok else NoEntry
      ensures r == Ok ==> isOpen && name == Strip(path) && file == content
      ensures r != Ok ==> isOpen == old(isOpen) && name == old(name) && file == old(file)
    {
      if isOpen {
        return InUse;
      }
      if !found {
        return NoEntry;
      }
      stSize := size;
      name, isOpen := Strip(path), true;
      file := content;
      return Ok;
    }

    /** udtfs_release(): closing the open file forgets the window. */
    method Release(path: string)
      requires Valid()
      modifies this
      ensures Valid() && isOpen == (old(isOpen) && Strip(path) != old(name))
      ensures name == old(name) && file == old(file) && (isOpen ==> cacheLen == old(cacheLen))
    {
      if isOpen && Strip(path) == name {
        isOpen := false;
        cacheOffset, cacheLen := 0, 0;
      }
    }

    /** The window moves to `offset`; `segment` is what the server sent. */
    method Refill(offset: int, segment: Payload)
      requires Valid() && isOpen && |segment| <= MAX_CACHE_SIZE && segment == Segment(file, offset, |segment|)
      modifies this`cacheOffset, this`cacheLen, cache
      ensures Valid() && cacheOffset == offset && cacheLen == |segment|
    {
      for i := 0 to |segment|
        invariant cache[..i] == segment[..i]
      {
        cache[i] := segment[i];
      }
      assert segment[..|segment|] == segment;
      cacheOffset, cacheLen := offset, |segment|;
    }

    /** How many bytes a read asks the cache for.  The comparison is unsigned,
        so that past the end of the file nothing is cropped. */
    function ActualSize(size: int, offset: int): int
      reads this
    {
      if 0 <= stSize - offset < size then stSize - offset else size
    }

    function FetchSize(): int
      reads this
    {
      if stSize < MAX_CACHE_SIZE then stSize else MAX_CACHE_SIZE
    }

    /** udtfs_read(), hit or miss: the bytes of the file, cropped at its end.
        `up` says that the server can be reached, `segment` is what it would
        send now. */
    method Read(size: int, offset: int, up: bool, segment: Payload) returns (n: int, data: Payload)
      requires Valid() && isOpen && 0 <= size && 0 <= offset && ActualSize(size, offset) <= MAX_CACHE_SIZE
      requires segment == Segment(file, offset, FetchSize())
      modifies this`cacheOffset, this`cacheLen, cache
      ensures Valid()
      ensures n >= 0 && offset <= stSize ==>
        n == |data| && data == file[offset..if offset + size < stSize then offset + size else stSize]
      ensures n >= 0 && offset > stSize ==> n == size == |data|
      ensures var actual := old(ActualSize(size, offset));
        if n <= 0 || old(cacheOffset <= offset && offset + actual <= cacheOffset + cacheLen)
        then cacheOffset == old(cacheOffset) && cacheLen == old(cacheLen)
        else cacheOffset == offset && cacheLen == if stSize < 0x200_0000 then stSize else 0x200_0000
      ensures n < 0 ==> !up && data == []
    {
      data := [];
      var actual := ActualSize(size, offset);
      if actual <= 0 {
        return 0, [];
      }
      if offset < cacheOffset || offset + actual > cacheOffset + cacheLen {
        if !up {
          return -2, [];
        }
        Refill(offset, segment);
      }
      var at := offset - cacheOffset;
      n, data := actual, cache[at..at + actual];
      if offset <= stSize {
        Inside(cache[..], cacheLen, at, at + actual);
        SegmentPart(file, cacheOffset, cacheLen, at, actual);
        SegmentInside(file, offset, actual);
      }
    }
  }
}
