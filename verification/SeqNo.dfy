/** Wrapping 31-bit sequence numbers (UDT4/src/common.h), related to unbounded
    indices: index `x` travels as `Wrap(x)`.  All other modules reason about
    indices and use the lemmas below wherever the code compares two numbers. */
module SeqNo {

  const TH := 0x3FFF_FFFF       // m_iSeqNoTH
  const MAX := 0x7FFF_FFFF      // m_iMaxSeqNo
  const MOD := 0x8000_0000

  type Seq = s: int | 0 <= s <= MAX

  function Abs(x: int): nat { if x < 0 then -x else x }

  function Wrap(x: int): Seq { x % MOD }

  function SeqCmp(seq1: int, seq2: int): int {
    if Abs(seq1 - seq2) < TH then seq1 - seq2 else seq2 - seq1
  }

  function SeqLen(seq1: int, seq2: int): int {
    if seq1 <= seq2 then seq2 - seq1 + 1 else seq2 - seq1 + MAX + 2
  }

  function SeqOff(seq1: int, seq2: int): int {
    if Abs(seq1 - seq2) < TH then seq2 - seq1
    else if seq1 < seq2 then seq2 - seq1 - MAX - 1
    else seq2 - seq1 + MAX + 1
  }

  function IncSeq(s: int): int { if s == MAX then 0 else s + 1 }

  function DecSeq(s: int): int { if s == 0 then MAX else s - 1 }

  function IncSeqBy(s: int, inc: int): int {
    if MAX - s >= inc then s + inc else s - MAX + inc - 1
  }

  /** Two indices closer than half the number space can be compared. */
  ghost predicate Near(x: int, y: int) { -TH < x - y < TH }

  ghost predicate SameSign(a: int, b: int) {
    (a < 0 <==> b < 0) && (a == 0 <==> b == 0)
  }

  lemma WrapStep(x: int)
    ensures IncSeq(Wrap(x)) == Wrap(x + 1)
    ensures DecSeq(Wrap(x)) == Wrap(x - 1)
    ensures DecSeq(IncSeq(Wrap(x))) == Wrap(x) == IncSeq(DecSeq(Wrap(x)))
  {
  }

  lemma IncSeqByAdds(x: int, inc: int)
    requires 0 <= inc <= MAX
    ensures IncSeqBy(Wrap(x), inc) == Wrap(x + inc)
  {
  }

  lemma WrapInjective(x: int, y: int)
    requires -MOD < x - y < MOD
    ensures Wrap(x) == Wrap(y) <==> x == y
  {
  }

  lemma WrapOfSeq(s: Seq)
    ensures Wrap(s) == s
  {
  }

  lemma CmpOfNear(x: int, y: int)
    requires Near(x, y)
    ensures SameSign(SeqCmp(Wrap(x), Wrap(y)), x - y)
  {
  }

  lemma OffOfNear(x: int, y: int)
    requires Near(x, y)
    ensures SeqOff(Wrap(x), Wrap(y)) == y - x
  {
  }

  lemma LenOfRange(x: int, y: int)
    requires x <= y < x + MOD
    ensures SeqLen(Wrap(x), Wrap(y)) == y - x + 1
  {
  }

  // ----- exactly when the three operations mean what their names say -----

  ghost predicate CmpRightAtDistance(d: int) {
    forall x :: SameSign(SeqCmp(Wrap(x), Wrap(x + d)), -d)
  }

  ghost predicate OffRightAtDistance(d: int) {
    forall x :: SeqOff(Wrap(x), Wrap(x + d)) == d
  }

  ghost predicate LenRightAtDistance(d: int) {
    forall x :: SeqLen(Wrap(x), Wrap(x + d)) == d + 1
  }

  /** Comparison orders every pair at distance `d` exactly below the threshold:
      from TH on, a pair that does not straddle the wrap compares backwards. */
  lemma CmpExact(d: int)
    requires -MOD < d < MOD
    ensures CmpRightAtDistance(d) <==> -0x3FFF_FFFF < d < 0x3FFF_FFFF
  {
    if -TH < d < TH {
      forall x ensures SameSign(SeqCmp(Wrap(x), Wrap(x + d)), -d) { CmpOfNear(x, x + d); }
    } else {
      var x := if d > 0 then 0 else -d;
      assert !SameSign(SeqCmp(Wrap(x), Wrap(x + d)), -d);
    }
  }

  lemma OffExact(d: int)
    ensures OffRightAtDistance(d) <==> -0x3FFF_FFFF < d < 0x3FFF_FFFF
  {
    if -TH < d < TH {
      forall x ensures SeqOff(Wrap(x), Wrap(x + d)) == d { OffOfNear(x, x + d); }
    } else {
      var x := if d > 0 then 0 else -d;
      assert SeqOff(Wrap(x), Wrap(x + d)) != d;
    }
  }

  lemma LenExact(d: int)
    ensures LenRightAtDistance(d) <==> 0 <= d < 0x8000_0000
  {
    if 0 <= d < MOD {
      forall x ensures SeqLen(Wrap(x), Wrap(x + d)) == d + 1 { LenOfRange(x, x + d); }
    } else {
      assert SeqLen(Wrap(0), Wrap(0 + d)) != d + 1;
    }
  }

  /** The 32-bit result of `SeqLen` overflows for the full circle only. */
  lemma LenOverflow(a: Seq, b: Seq)
    ensures 1 <= SeqLen(a, b) <= MOD
    ensures SeqLen(a, b) == MOD <==> a == IncSeq(b)
  {
  }
}
