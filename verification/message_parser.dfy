/** The validator that every received datagram passes through before it
    reaches the order book: three length checks and the sequence-gap count,
    all in the widths the parser stores them in (a 32-bit last sequence
    number, 64-bit counters). */
module MessageParser {
  import opened Common
  import opened MarketData

  datatype Parser = Parser(lastSequence: u32, gaps: u64, invalid: u64)

  /** A parser before any message: nothing seen, nothing counted. */
  const FRESH: Parser := Parser(0, 0, 0)

  /** The new parser state, and the header when the message is accepted
      (null in the source when it is rejected). */
  datatype ParseResult = ParseResult(parser: Parser, header: Option<Header>)

  // ---------------------------------------------------------------------
  // What counts as a well-formed message, stated on its own
  // ---------------------------------------------------------------------

  /** A datagram is well formed when it holds a whole header, that header
      names one of the four message types, and its declared length is that
      type's packed size and is covered by the datagram. */
  predicate WellFormed(raw: RawMessage)
  {
    && raw.len >= PackedSize(HEADER_LAYOUT)
    && IsKnownType(raw.header.msgType)
    && raw.header.msgLen as int == PackedSize(Layout(raw.header.msgType))
    && raw.header.msgLen as int <= raw.len
  }

  /** The gap a message opens after the last accepted one: the 32-bit
      difference less one, and nothing when no message has been seen
      (last sequence 0). A repeated or older number wraps around and
      counts as a gap of nearly 2^32. */
  function GapAfter(last: u32, sequenceNum: u32): (g: u32)
    ensures last == 0 || sequenceNum == Wrap32(last as int + 1) ==> g == 0
    ensures last != 0 && last < sequenceNum ==> g as int == sequenceNum as int - last as int - 1
    ensures last != 0 && sequenceNum <= last ==> g as int == TWO_32 + sequenceNum as int - last as int - 1
  {
    if last == 0 then 0 else Wrap32(sequenceNum as int - last as int - 1)
  }

  // ---------------------------------------------------------------------
  // The validator as written
  // ---------------------------------------------------------------------

  /** Checks the datagram's length, the header's declared length and the
      type's expected length in turn; any failure counts one invalid
      message and changes nothing else. An accepted message adds its gap
      (only when its number is not the successor of the last one) and
      becomes the last sequence number. */
  function Parse(p: Parser, raw: RawMessage): (r: ParseResult)
    ensures r.header.Some? <==> WellFormed(raw)
    ensures r.header.Some? ==> r.header.value == raw.header
    ensures r.header.None? ==> r.parser == p.(invalid := Wrap64(p.invalid as int + 1))
    ensures r.header.Some? ==> r.parser.lastSequence == raw.header.sequenceNum
    ensures r.header.Some? ==> r.parser.invalid == p.invalid
    ensures r.header.Some? ==>
      r.parser.gaps == Wrap64(p.gaps as int + GapAfter(p.lastSequence, raw.header.sequenceNum) as int)
  {
    SizesArePacked();
    var h := raw.header;
    var rejected := ParseResult(p.(invalid := Wrap64(p.invalid as int + 1)), None);
    if raw.len < HEADER_SIZE then
      rejected
    else if h.msgLen == 0 || h.msgLen as int > raw.len then
      rejected
    else
      var expected := ExpectedLen(h.msgType);
      if expected == 0 || expected as int != h.msgLen as int then
        rejected
      else
        var gaps :=
          if p.lastSequence != 0 && h.sequenceNum != Wrap32(p.lastSequence as int + 1)
          then Wrap64(p.gaps as int + Wrap32(h.sequenceNum as int - p.lastSequence as int - 1) as int)
          else p.gaps;
        ParseResult(Parser(h.sequenceNum, gaps, p.invalid), Some(h))
  }

  /** An accepted message's declared length lies between the header size
      and the datagram length, and is strictly more than a header. */
  lemma AcceptedLengthBounds(p: Parser, raw: RawMessage)
    requires Parse(p, raw).header.Some?
    ensures HEADER_SIZE < raw.header.msgLen as int <= raw.len
    ensures raw.header.msgLen as int <= MAX_PAYLOAD
  {
    MessageSizesBounded(raw.header.msgType);
  }

  /** The two counter readers: plain reads of the state. */
  function SequenceGaps(p: Parser): u64
  {
    p.gaps
  }

  function InvalidMessages(p: Parser): u64
  {
    p.invalid
  }

  // ---------------------------------------------------------------------
  // A stream of datagrams
  // ---------------------------------------------------------------------

  /** The parser after each datagram in turn. */
  function ParseAll(p: Parser, raws: seq<RawMessage>): Parser
    decreases |raws|
  {
    if |raws| == 0 then p else ParseAll(Parse(p, raws[0]).parser, raws[1..])
  }

  /** How many datagrams of a stream are malformed. */
  function Rejected(raws: seq<RawMessage>): nat
  {
    if |raws| == 0 then 0
    else (if WellFormed(raws[0]) then 0 else 1) + Rejected(raws[1..])
  }

  /** The invalid counter grows by exactly the number of malformed
      datagrams, modulo 2^64. */
  lemma {:induction false} InvalidCountsRejected(p: Parser, raws: seq<RawMessage>)
    ensures ParseAll(p, raws).invalid == Wrap64(p.invalid as int + Rejected(raws))
    decreases |raws|
  {
    if |raws| > 0 {
      var q := Parse(p, raws[0]).parser;
      InvalidCountsRejected(q, raws[1..]);
      if WellFormed(raws[0]) {
        assert q.invalid == p.invalid;
      } else {
        assert q.invalid == Wrap64(p.invalid as int + 1);
      }
    }
  }

  /** A stream of well-formed messages whose numbers rise strictly from a
      nonzero last number. */
  predicate RisingFrom(last: u32, raws: seq<RawMessage>)
  {
    && (forall i :: 0 <= i < |raws| ==> WellFormed(raws[i]))
    && (|raws| > 0 ==> last < raws[0].header.sequenceNum)
    && (forall i :: 0 < i < |raws| ==> raws[i - 1].header.sequenceNum < raws[i].header.sequenceNum)
  }

  /** Over a rising stream the gaps added are the numbers skipped: the
      distance from the last number to the final one, less one per
      message, so a stream without holes adds none. */
  lemma {:induction false} GapsCountSkippedNumbers(p: Parser, raws: seq<RawMessage>)
    requires p.lastSequence != 0 && |raws| > 0
    requires RisingFrom(p.lastSequence, raws)
    requires p.gaps as int + (raws[|raws| - 1].header.sequenceNum as int - p.lastSequence as int) < TWO_64
    ensures ParseAll(p, raws).lastSequence == raws[|raws| - 1].header.sequenceNum
    ensures ParseAll(p, raws).gaps as int ==
      p.gaps as int + (raws[|raws| - 1].header.sequenceNum as int - p.lastSequence as int) - |raws|
    decreases |raws|
  {
    var h := raws[0].header;
    assert WellFormed(raws[0]);
    RisingIsBelowLast(raws);
    var q := Parse(p, raws[0]).parser;
    assert q.lastSequence == h.sequenceNum;
    assert q.gaps as int == p.gaps as int + h.sequenceNum as int - p.lastSequence as int - 1;
    if |raws| > 1 {
      var rest := raws[1..];
      assert rest[|rest| - 1] == raws[|raws| - 1];
      assert RisingFrom(q.lastSequence, rest) by {
        assert forall i :: 0 < i < |rest| ==> rest[i - 1] == raws[i] && rest[i] == raws[i + 1];
      }
      GapsCountSkippedNumbers(q, rest);
    }
  }

  /** In a rising stream every number is at most the final one, less its
      distance from the end. */
  lemma {:induction false} RisingIsBelowLast(raws: seq<RawMessage>)
    requires |raws| > 0
    requires forall i :: 0 < i < |raws| ==> raws[i - 1].header.sequenceNum < raws[i].header.sequenceNum
    ensures forall i :: 0 <= i < |raws| ==>
      raws[i].header.sequenceNum as int + (|raws| - 1 - i) <= raws[|raws| - 1].header.sequenceNum as int
    decreases |raws|
  {
    if |raws| > 1 {
      var init := raws[..|raws| - 1];
      RisingIsBelowLast(init);
      assert forall i :: 0 <= i < |init| ==> init[i] == raws[i];
    }
  }

  /** The sequence number 0 doubles as "nothing seen yet": a message
      numbered 0 is accepted, after which the next message opens no gap
      whatever its number. */
  lemma ZeroResetsGapTracking(p: Parser, raw0: RawMessage, raw1: RawMessage)
    requires WellFormed(raw0) && raw0.header.sequenceNum == 0
    requires WellFormed(raw1)
    ensures ParseAll(p, [raw0, raw1]).gaps == Parse(p, raw0).parser.gaps
    ensures ParseAll(p, [raw0, raw1]).lastSequence == raw1.header.sequenceNum
  {
    var q := Parse(p, raw0).parser;
    assert q.lastSequence == 0;
    assert [raw0, raw1][1..] == [raw1];
    assert ParseAll(p, [raw0, raw1]) == ParseAll(q, [raw1]);
    assert [raw1][1..] == [];
    assert ParseAll(q, [raw1]) == ParseAll(Parse(q, raw1).parser, []);
    assert Parse(q, raw1).parser.gaps == Wrap64(q.gaps as int + 0);
  }

  /** The unit test's scenario: a full quote numbered 1 on a fresh parser
      is accepted with no gap, and a 4-byte datagram after it is rejected
      as the first invalid message. */
  lemma QuoteThenShortDatagram(quote: RawMessage, short: RawMessage)
    requires quote.len == QUOTE_SIZE
    requires quote.header.msgType == MSG_QUOTE && quote.header.msgLen as int == QUOTE_SIZE
    requires quote.header.sequenceNum == 1
    requires short.len == 4
    ensures Parse(FRESH, quote).header == Some(quote.header)
    ensures SequenceGaps(Parse(FRESH, quote).parser) == 0
    ensures Parse(Parse(FRESH, quote).parser, short).header.None?
    ensures InvalidMessages(Parse(Parse(FRESH, quote).parser, short).parser) == 1
  {
    SizesArePacked();
    var q := Parse(FRESH, quote).parser;
    assert q.invalid == 0;
    assert !WellFormed(short);
    assert Parse(q, short).parser.invalid == Wrap64(1);
  }
}
