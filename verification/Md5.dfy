/** Streaming MD5 around its block function (UDT4/src/md5.cpp:308-381): what is
    hashed does not depend on how the message is cut, and it is the message
    padded as in sections 3.1 and 3.2 of RFC 1321. */
module Md5 {
  import opened Arith
  import opened ByteStream

  const WORD := 0x1_0000_0000
  const DOUBLE := 0x1_0000_0000_0000_0000

  /** The four registers, each below 2^32. */
  datatype Regs = Regs(a: nat, b: nat, c: nat, d: nat)

  const INIT := Regs(0x67452301, 0xefcdab89, 0x98badcfe, 0x10325476)

  type Process = (Regs, Payload) -> Regs

  // ----- the reference -----

  /** The registers after all whole blocks of `data`. */
  ghost function Absorb(process: Process, r: Regs, data: Payload): Regs
    decreases |data|
  {
    if |data| < 64 then r else Absorb(process, process(r, data[..64]), data[64..])
  }

  ghost function Zeros(n: nat): Payload { seq(n, _ => 0 as Byte) }

  /** How many zero bytes make the length 56 modulo 64 behind the byte 0x80. */
  ghost function ZeroCount(len: nat): (k: nat)
    ensures k < 64 && (len + 1 + k) % 64 == 56
  {
    (55 - len) % 64
  }

  /** Byte i of a number, the least significant first. */
  ghost function ByteAt(n: nat, i: nat): Byte
    requires i < 8
  {
    ((match i
      case 0 => n
      case 1 => n / 0x100
      case 2 => n / 0x1_0000
      case 3 => n / 0x100_0000
      case 4 => n / 0x1_0000_0000
      case 5 => n / 0x100_0000_0000
      case 6 => n / 0x1_0000_0000_0000
      case _ => n / 0x100_0000_0000_0000) % 256) as Byte
  }

  /** Section 3.2: the length in bits, modulo 2^64. */
  ghost function LengthBytes(len: nat): Payload {
    seq(8, i requires 0 <= i < 8 => ByteAt(8 * len % DOUBLE, i))
  }

  ghost function Padded(msg: Payload): Payload {
    msg + [0x80] + Zeros(ZeroCount(|msg|)) + LengthBytes(|msg|)
  }

  lemma PaddedWhole(msg: Payload)
    ensures |Padded(msg)| % 64 == 0
  {
  }

  /** Absorbing in two steps, cut at a block. */
  lemma {:induction false} AbsorbJoin(process: Process, r: Regs, a: Payload, b: Payload)
    requires |a| % 64 == 0
    ensures Absorb(process, r, a + b) == Absorb(process, Absorb(process, r, a), b)
    decreases |a|
  {
    if |a| == 0 {
      assert a + b == b;
    } else {
      assert (a + b)[..64] == a[..64] && (a + b)[64..] == a[64..] + b;
      AbsorbJoin(process, process(r, a[..64]), a[64..], b);
    }
  }

  /** The whole blocks of a message. */
  ghost function Whole(msg: Payload): Payload { msg[..|msg| - |msg| % 64] }

  ghost function Rest(msg: Payload): Payload { msg[|msg| - |msg| % 64..] }

  lemma {:induction false} AbsorbWhole(process: Process, r: Regs, msg: Payload)
    ensures Absorb(process, r, msg) == Absorb(process, r, Whole(msg))
  {
    assert msg == Whole(msg) + Rest(msg);
    AbsorbJoin(process, r, Whole(msg), Rest(msg));
  }

  // ----- the code -----

  function Shift(w: nat, k: nat): nat
    requires k < 4
  {
    match k case 0 => w case 1 => w / 0x100 case 2 => w / 0x1_0000 case _ => w / 0x100_0000
  }

  /** Byte k of a word. */
  function WordByte(w: nat, k: nat): Byte
    requires k < 4
  {
    (Shift(w, k) % 256) as Byte
  }

  /** The digest: the registers, the least significant bytes first. */
  function Digest(r: Regs): Payload {
    seq(16, i requires 0 <= i < 16 =>
      WordByte(if i < 4 then r.a else if i < 8 then r.b else if i < 12 then r.c else r.d, i % 4))
  }

  // ----- read back -----

  /** The word in bytes at..at+3, the least significant first. */
  ghost function WordAt(p: Payload, at: nat): nat
    requires at + 4 <= |p|
  {
    p[at] as nat + 0x100 * p[at + 1] as nat + 0x1_0000 * p[at + 2] as nat + 0x100_0000 * p[at + 3] as nat
  }

  lemma WordBack(w: nat)
    ensures var b := seq(4, i requires 0 <= i < 4 => WordByte(w, i)); WordAt(b, 0) == w % WORD
  {
    ModSplit(w, 0x100_0000, 0x100);
    ModSplit(w, 0x1_0000, 0x100);
    ModSplit(w, 0x100, 0x100);
  }

  lemma ModSplit(w: nat, d: nat, e: nat)
    requires d > 0 && e > 0
    ensures w % (d * e) == w % d + d * (w / d % e)
  {
    var q, r := w / d, w % d;
    var k, m := q / e, q % e;
    assert q == k * e + m && w == q * d + r;
    assert w == k * (d * e) + (d * m + r);
    assert d * m <= d * (e - 1);
    DivUnique(w, k, d * m + r, d * e);
  }

  /** Section 3.5 of RFC 1321: from the low-order byte of a to the high-order
      byte of d. */
  lemma DigestIs(r: Regs)
    ensures var p := Digest(r);
      && |p| == 16 && WordAt(p, 0) == r.a % WORD && WordAt(p, 4) == r.b % WORD
      && WordAt(p, 8) == r.c % WORD && WordAt(p, 12) == r.d % WORD
  {
    WordBack(r.a);
    WordBack(r.b);
    WordBack(r.c);
    WordBack(r.d);
  }

  /** Section 3.3: the registers before the first block, byte by byte. */
  lemma InitIs()
    ensures Digest(INIT) ==
      [0x01, 0x23, 0x45, 0x67, 0x89, 0xab, 0xcd, 0xef, 0xfe, 0xdc, 0xba, 0x98, 0x76, 0x54, 0x32, 0x10]
  {
  }

  /** The eight bytes hold the number of bits modulo 2^64. */
  lemma LengthBack(len: nat)
    ensures var p := LengthBytes(len); WordAt(p, 0) + WORD * WordAt(p, 4) == 8 * len % DOUBLE
  {
    hide ByteAt, WordByte;
    var n, p := 8 * len % DOUBLE, LengthBytes(len);
    var lo, hi := n % WORD, n / WORD;
    WordBack(lo);
    WordBack(hi);
    forall i | 0 <= i < 8 ensures p[i] == WordByte(if i < 4 then lo else hi, i % 4) { ByteOfWords(lo, hi, i); }
    assert n == lo + WORD * hi && hi < WORD;
  }

  /** The message, a byte 0x80, the fewest zeros, and the length. */
  lemma PaddedIs(msg: Payload)
    ensures var p := Padded(msg); var n := |msg|;
      && p[..n] == msg && p[n] == 0x80 && (forall i :: n < i < |p| - 8 ==> p[i] == 0)
      && |p| % 64 == 0 && n + 9 <= |p| < n + 9 + 64
      && WordAt(p, |p| - 8) + WORD * WordAt(p, |p| - 4) == 8 * n % DOUBLE
  {
    PaddedWhole(msg);
    LengthBack(|msg|);
    hide ByteAt, ZeroCount;
    var p, l := Padded(msg), LengthBytes(|msg|);
    assert p[|p| - 8..] == l;
    assert forall i :: 0 <= i < 8 ==> p[|p| - 8 + i] == l[i];
  }

  class Md5 {
    const process: Process        // md5_process
    var count0: nat               // count[0], count[1]
    var count1: nat
    var regs: Regs                // abcd
    const buf: array<Byte>        // buf
    ghost var msg: Payload        // all bytes appended

    ghost predicate Counted()
      reads this
    {
      count0 < WORD && count1 < WORD && count0 + WORD * count1 == 8 * |msg| % DOUBLE
    }

    /** All whole blocks of `m` are absorbed, the rest waits in the buffer. */
    ghost predicate Hashed(m: Payload)
      reads this`regs, buf
    {
      buf.Length == 64 && regs == Absorb(process, INIT, Whole(m)) && buf[..|m| % 64] == Rest(m)
    }

    /** The state is a function of the bytes appended so far. */
    ghost predicate Valid()
      reads this, buf
    {
      Counted() && Hashed(msg)
    }

    constructor (process: Process)
      ensures Valid() && msg == [] && fresh(buf) && this.process == process
    {
      this.process := process;
      count0, count1, regs, msg := 0, 0, INIT, [];
      buf := new Byte[64](_ => 0);
    }

    /** memcpy() into the buffer. */
    method Copy(at: nat, data: Payload)
      requires at + |data| <= buf.Length
      modifies buf
      ensures buf[..] == old(buf[..at]) + data + old(buf[at + |data|..])
    {
      for i := 0 to |data|
        invariant buf[..] == old(buf[..at]) + data[..i] + old(buf[at + i..])
      {
        buf[at + i] := data[i];
      }
      assert data[..|data|] == data;
    }

    /** The count of bits, in two words. */
    method Count(n: nat)
      requires Counted() && n < 0x8000_0000
      modifies this`count0, this`count1
      ensures count0 < WORD && count1 < WORD && count0 + WORD * count1 == 8 * (|msg| + n) % DOUBLE
    {
      CountUp(count0, count1, |msg|, n);
      var nbits := 8 * n % WORD;
      count1 := (count1 + n / 0x2000_0000) % WORD;
      count0 := (count0 + nbits) % WORD;
      if count0 < nbits {
        count1 := (count1 + 1) % WORD;
      }
    }

    /** Bytes that do not complete a block only fill the buffer. */
    method Fill(offset: nat, data: Payload, ghost m: Payload)
      requires Hashed(m) && offset == |m| % 64 && offset + |data| < 64
      modifies buf
      ensures Hashed(m + data)
    {
      FillWhole(m, data);
      hide Absorb, Whole, Rest;
      Copy(offset, data);
    }

    /** Bytes that complete the block in the buffer. */
    method Complete(offset: nat, data: Payload, ghost m: Payload)
      requires Hashed(m) && offset == |m| % 64 && offset + |data| == 64
      modifies buf, this`regs
      ensures Hashed(m + data)
    {
      CompleteWhole(process, m, data);
      hide Absorb, Whole, Rest;
      Copy(offset, data);
      assert buf[..] == Rest(m) + data;
      regs := process(regs, buf[..]);
    }

    /** md5_append(). */
    method Append(data: Payload)
      requires Valid() && |data| < 0x8000_0000
      modifies this`count0, this`count1, this`regs, this`msg, buf
      ensures Valid() && msg == old(msg) + data
    {
      hide *;
      Parts();
      var nbytes := |data|;
      var offset := count0 / 8 % 64;
      OffsetIs(count0, count1, |msg|);
      if nbytes == 0 {
        assert msg + data == msg;
        return;
      }
      Count(nbytes);
      var p := First(offset, data, msg);
      Blocks(data, p, msg);
      msg := msg + data;
      Parts();
    }

    lemma Parts()
      ensures Counted() <==> count0 < WORD && count1 < WORD && count0 + WORD * count1 == 8 * |msg| % DOUBLE
      ensures Valid() <==> Counted() && Hashed(msg)
      ensures Hashed(msg) ==> Hashed(msg + [])
    {
      assert msg + [] == msg;
    }

    /** The bytes that go to a block already begun; afterwards either a block
        has just been completed or nothing is left. */
    method First(offset: nat, data: Payload, ghost m: Payload) returns (p: nat)
      requires Hashed(m) && offset == |m| % 64
      modifies buf, this`regs
      ensures p <= |data| && Hashed(m + data[..p]) && (p < |data| ==> |m + data[..p]| % 64 == 0)
    {
      hide Whole, Rest, Absorb;
      p := 0;
      assert m + data[..0] == m;
      if offset != 0 {
        p := if offset + |data| > 64 then 64 - offset else |data|;
        if offset + p < 64 {
          Fill(offset, data[..p], m);
        } else {
          Complete(offset, data[..p], m);
          FillsUp(m, data[..p]);
        }
      }
    }

    /** Full blocks go straight in, what is left waits in the buffer. */
    method Blocks(data: Payload, start: nat, ghost was: Payload)
      requires start <= |data| && Hashed(was + data[..start])
      requires start < |data| ==> |was + data[..start]| % 64 == 0
      modifies this`regs, buf
      ensures Hashed(was + data)
    {
      hide Whole, Rest, Absorb;
      var p := start;
      while |data| - p >= 64
        invariant 0 <= p <= |data| && Hashed(was + data[..p]) && (p < |data| ==> |was + data[..p]| % 64 == 0)
      {
        ghost var m, block := was + data[..p], data[p..p + 64];
        assert was + data[..p + 64] == m + block;
        OneMore(process, m, block);
        regs := process(regs, data[p..p + 64]);
        p := p + 64;
      }
      assert was + data[..p] + data[p..] == was + data;
      if p < |data| {
        Fill(0, data[p..], was + data[..p]);
      } else {
        assert data[..p] == data;
      }
    }

    /** md5_finish(): the digest is that of the padded message. */
    method Finish() returns (digest: Payload)
      requires Valid()
      modifies this`count0, this`count1, this`regs, this`msg, buf
      ensures digest == Digest(Absorb(process, INIT, Padded(old(msg))))
      ensures var r := Absorb(process, INIT, Padded(old(msg)));
        && |digest| == 16 && WordAt(digest, 0) == r.a % WORD && WordAt(digest, 4) == r.b % WORD
        && WordAt(digest, 8) == r.c % WORD && WordAt(digest, 12) == r.d % WORD
    {
      hide Absorb, Whole, Rest;
      var data := [];
      for i := 0 to 8
        invariant |data| == i && forall j :: 0 <= j < i ==> data[j] == WordByte(if j < 4 then count0 else count1, j % 4)
      {
        data := data + [WordByte(if i < 4 then count0 else count1, i % 4)];
      }
      LengthIs(count0, count1, |msg|, data);
      OffsetIs(count0, count1, |msg|);
      ghost var was := msg;
      var pad: Payload := [0x80] + seq(63, _ => 0 as Byte);
      var n := (55 - count0 / 8) % 64 + 1;
      PadIs(|msg|, count0 / 8);
      assert pad[..n] == [0x80] + Zeros(ZeroCount(|msg|));
      Append(pad[..n]);
      Append(data);
      assert msg == Padded(was);
      PaddedWhole(was);
      AbsorbWhole(process, INIT, msg);
      digest := Digest(regs);
      DigestIs(regs);
    }
  }

  lemma CountUp(c0: nat, c1: nat, len: nat, n: nat)
    requires c0 < WORD && c1 < WORD && c0 + WORD * c1 == 8 * len % DOUBLE && n < 0x8000_0000
    ensures var nbits := 8 * n % WORD; var d0 := (c0 + nbits) % WORD; var e := (c1 + n / 0x2000_0000) % WORD;
      d0 + WORD * (if d0 < nbits then (e + 1) % WORD else e) == 8 * (len + n) % DOUBLE
  {
    var nbits, high := 8 * n % WORD, n / 0x2000_0000;
    assert 8 * n == nbits + WORD * high;
    var carry := if c0 + nbits >= WORD then 1 else 0;
    var d0 := (c0 + nbits) % WORD;
    assert c0 + nbits == d0 + WORD * carry && (d0 < nbits <==> carry == 1);
    var e := (c1 + high) % WORD;
    var d1 := (c1 + high + carry) % WORD;
    OneUp(c1 + high);
    var k, j := 8 * len / DOUBLE, (c1 + high + carry) / WORD;
    assert 8 * (len + n) == (k + j) * DOUBLE + d0 + WORD * d1;
    DivUnique(8 * (len + n), k + j, d0 + WORD * d1, DOUBLE);
  }

  lemma OneUp(x: nat)
    ensures (x + 1) % WORD == (x % WORD + 1) % WORD
  {
  }

  /** However the message was cut, the state is the same: bit count, registers
      and pending bytes. */
  lemma SameState(s: Md5, t: Md5)
    requires s.Valid() && t.Valid() && s.process == t.process && s.msg == t.msg
    ensures s.count0 == t.count0 && s.count1 == t.count1 && s.regs == t.regs
    ensures s.buf[..|s.msg| % 64] == t.buf[..|s.msg| % 64]
  {
    hide Absorb, Whole, Rest;
    TwoWords(s.count0, s.count1, t.count0, t.count1);
  }

  lemma TwoWords(a: nat, b: nat, c: nat, d: nat)
    requires a < WORD && c < WORD && a + WORD * b == c + WORD * d
    ensures a == c && b == d
  {
  }

  lemma RestLen(m: Payload)
    ensures |Rest(m)| == |m| % 64 && |Whole(m)| % 64 == 0 && Whole(m) + Rest(m) == m
  {
    assert (|m| - |m| % 64) % 64 == 0;
  }

  lemma FillWhole(m: Payload, data: Payload)
    requires |m| % 64 + |data| < 64
    ensures Whole(m + data) == Whole(m) && Rest(m + data) == Rest(m) + data && |Rest(m)| == |m| % 64
    ensures |m + data| % 64 == |m| % 64 + |data|
  {
    DivUnique(|m + data|, |m| / 64, |m| % 64 + |data|, 64);
    assert |m + data| - |m + data| % 64 == |m| - |m| % 64;
  }

  lemma CompleteWhole(process: Process, m: Payload, data: Payload)
    requires |m| % 64 + |data| == 64
    ensures |m + data| % 64 == 0 && Rest(m + data) == [] && |Rest(m)| == |m| % 64
    ensures Absorb(process, INIT, Whole(m + data)) == process(Absorb(process, INIT, Whole(m)), Rest(m) + data)
  {
    RestLen(m);
    assert Whole(m + data) == m + data == Whole(m) + (Rest(m) + data);
    AbsorbJoin(process, INIT, Whole(m), Rest(m) + data);
    AbsorbOne(process, Absorb(process, INIT, Whole(m)), Rest(m) + data);
  }

  lemma AbsorbOne(process: Process, r: Regs, block: Payload)
    requires |block| == 64
    ensures Absorb(process, r, block) == process(r, block)
  {
    assert block[..64] == block && block[64..] == [];
  }

  lemma FillsUp(m: Payload, data: Payload)
    requires |m| % 64 + |data| == 64
    ensures |m + data| % 64 == 0
  {
  }

  lemma OneMore(process: Process, m: Payload, block: Payload)
    requires |m| % 64 == 0 && |block| == 64
    ensures Absorb(process, INIT, Whole(m + block)) == process(Absorb(process, INIT, Whole(m)), block)
    ensures |m + block| % 64 == 0 && Rest(m + block) == []
  {
    assert Whole(m) == m && Whole(m + block) == m + block;
    AbsorbJoin(process, INIT, m, block);
    AbsorbOne(process, Absorb(process, INIT, m), block);
  }

  /** The low word gives the place in the buffer. */
  lemma OffsetIs(c0: nat, c1: nat, len: nat)
    requires c0 < WORD && c1 < WORD && c0 + WORD * c1 == 8 * len % DOUBLE
    ensures c0 / 8 % 64 == len % 64
  {
    var k := 8 * len / DOUBLE;
    assert 8 * len == k * DOUBLE + c0 + WORD * c1;
    assert c0 % 8 == 0;
    assert len == c0 / 8 + 64 * (k * 0x80_0000_0000_0000 + 0x80_0000 * c1);
    DivUnique(len, c0 / 8 / 64 + k * 0x80_0000_0000_0000 + 0x80_0000 * c1, c0 / 8 % 64, 64);
  }

  lemma PadIs(len: nat, bytes: nat)
    requires bytes % 64 == len % 64
    ensures (55 - bytes) % 64 == (55 - len) % 64
  {
  }

  lemma LengthIs(c0: nat, c1: nat, len: nat, data: Payload)
    requires c0 < WORD && c1 < WORD && c0 + WORD * c1 == 8 * len % DOUBLE && |data| == 8
    requires forall j :: 0 <= j < 8 ==> data[j] == WordByte(if j < 4 then c0 else c1, j % 4)
    ensures data == LengthBytes(len)
  {
    forall i | 0 <= i < 8 ensures data[i] == ByteAt(8 * len % DOUBLE, i) { ByteOfWords(c0, c1, i); }
  }

  lemma ByteOfWords(c0: nat, c1: nat, i: nat)
    requires c0 < WORD && c1 < WORD && i < 8
    ensures ByteAt(c0 + WORD * c1, i) == WordByte(if i < 4 then c0 else c1, i % 4)
  {
    match i
    case 0 => LowByte(c0, c1, 1, WORD);
    case 1 => LowByte(c0, c1, 0x100, 0x100_0000);
    case 2 => LowByte(c0, c1, 0x1_0000, 0x1_0000);
    case 3 => LowByte(c0, c1, 0x100_0000, 0x100);
    case 4 => HighByte(c0, c1, 1);
    case 5 => HighByte(c0, c1, 0x100);
    case 6 => HighByte(c0, c1, 0x1_0000);
    case _ => HighByte(c0, c1, 0x100_0000);
  }

  lemma LowByte(c0: nat, c1: nat, d: nat, e: nat)
    requires d > 0 && d * e == WORD && e % 256 == 0
    ensures (c0 + WORD * c1) / d % 256 == c0 / d % 256
  {
    var q, r := c0 / d, c0 % d;
    var f := e / 256;
    assert c0 + WORD * c1 == (q + e * c1) * d + r by {
      assert WORD * c1 == e * c1 * d;
    }
    DivUnique(c0 + WORD * c1, q + e * c1, r, d);
    assert q + e * c1 == (q / 256 + f * c1) * 256 + q % 256;
    DivUnique(q + e * c1, q / 256 + f * c1, q % 256, 256);
  }

  lemma HighByte(c0: nat, c1: nat, d: nat)
    requires d > 0 && c0 < WORD
    ensures (c0 + WORD * c1) / (WORD * d) == c1 / d
  {
    var q, r := c1 / d, c1 % d;
    assert c0 + WORD * c1 == q * (WORD * d) + (WORD * r + c0) by {
      assert c1 == q * d + r;
      assert WORD * c1 == q * (WORD * d) + WORD * r;
    }
    assert WORD * r + c0 < WORD * d;
    DivUnique(c0 + WORD * c1, q, WORD * r + c0, WORD * d);
  }
}
