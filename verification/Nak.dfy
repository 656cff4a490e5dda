/** The loss report: intervals of lost numbers coded in 32-bit words, the first
    number of a longer interval marked by the top bit
    (UDT4/src/packet.cpp:123-139, UDT4/src/list.cpp:699-713). */
module Nak {
  import opened SeqNo
  import opened LossNodes

  /** A report of lost numbers, as the sender reads it off the wire. */
  datatype Report = Single(at: int) | Pair(first: int, last: int)

  function Words(nd: Node): (w: seq<int>) {
    if nd.lo == nd.hi then [Wrap(nd.lo)] else [Wrap(nd.lo) + MOD, Wrap(nd.hi)]
  }

  /** A single number is one word; of an interval, the first number comes first,
      with the top bit set, and then the last. */
  lemma WordsAre(nd: Node)
    ensures var w := Words(nd); var first, last := Wrap(nd.lo), Wrap(nd.hi);
      && first < 0x8000_0000 && last < 0x8000_0000
      && (nd.lo == nd.hi ==> |w| == 1 && w[0] == first)
      && (nd.lo != nd.hi ==> |w| == 2 && w[0] == 0x8000_0000 + first && w[1] == last)
  {
  }

  function Encode(ns: seq<Node>): seq<int> {
    if |ns| == 0 then [] else Encode(ns[..|ns| - 1]) + Words(ns[|ns| - 1])
  }

  /** The sender's loop over the words (UDT4/src/core.cpp:1921-1957); a marked
      word at the very end has no partner and ends the reading. */
  function Decode(words: seq<int>): seq<Report> {
    if |words| == 0 then []
    else if words[0] >= MOD then
      if |words| == 1 then [] else [Pair(words[0] - MOD, words[1])] + Decode(words[2..])
    else [Single(words[0])] + Decode(words[1..])
  }

  function ReportOf(nd: Node): Report {
    if nd.lo == nd.hi then Single(Wrap(nd.lo)) else Pair(Wrap(nd.lo), Wrap(nd.hi))
  }

  function Reports(ns: seq<Node>): seq<Report> {
    seq(|ns|, k requires 0 <= k < |ns| => ReportOf(ns[k]))
  }

  lemma {:induction false} EncodeFront(nd: Node, ns: seq<Node>)
    ensures Encode([nd] + ns) == Words(nd) + Encode(ns)
  {
    var all := [nd] + ns;
    if |ns| == 0 {
      assert all[..0] == [];
      assert all == [nd];
    } else {
      assert all[..|all| - 1] == [nd] + ns[..|ns| - 1];
      EncodeFront(nd, ns[..|ns| - 1]);
    }
  }

  lemma DecodeFront(nd: Node, words: seq<int>)
    ensures Decode(Words(nd) + words) == [ReportOf(nd)] + Decode(words)
  {
    var w := Words(nd) + words;
    if nd.lo == nd.hi {
      assert w[1..] == words;
    } else {
      assert w[2..] == words;
    }
  }

  /** Nothing is lost on the wire: the sender reads off exactly the intervals
      the receiver wrote. */
  lemma {:induction false} RoundTrip(ns: seq<Node>)
    ensures Decode(Encode(ns)) == Reports(ns)
  {
    if |ns| > 0 {
      var rest := ns[1..];
      RoundTrip(rest);
      DecodeFront(ns[0], Encode(rest));
      EncodeFront(ns[0], rest);
      assert ns == [ns[0]] + rest;
      assert Reports(ns) == [ReportOf(ns[0])] + Reports(rest);
    }
  }
}
