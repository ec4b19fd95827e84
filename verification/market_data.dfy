/** The wire format of the feed: the four message type codes, the packed
    message layouts and the size of a received datagram's payload. Every
    layout is declared with one-byte packing, so a layout's size is the sum
    of its field widths with no alignment padding added. */
module MarketData {
  import opened Common

  // ---------------------------------------------------------------------
  // Type codes
  // ---------------------------------------------------------------------

  const MSG_QUOTE: u16 := 1
  const MSG_TRADE: u16 := 2
  const MSG_ORDER_ADD: u16 := 3
  const MSG_ORDER_CANCEL: u16 := 4

  /** The bytes a received datagram may carry. */
  const MAX_PAYLOAD: nat := 2048

  // ---------------------------------------------------------------------
  // Packed layouts
  // ---------------------------------------------------------------------

  /** A field of a packed struct; `Bytes(n)` is a `char` array of length n
      (a one-byte `char` when n is 1). */
  datatype Field = U16 | U32 | U64 | I64 | Bytes(n: nat)

  function Width(f: Field): (w: nat)
    ensures w > 0 || f == Bytes(0)
  {
    match f
    case U16 => 2
    case U32 => 4
    case U64 => 8
    case I64 => 8
    case Bytes(n) => n
  }

  /** The size of a layout packed at one-byte alignment. */
  function PackedSize(fields: seq<Field>): nat
  {
    if |fields| == 0 then 0 else Width(fields[0]) + PackedSize(fields[1..])
  }

  /** Packing a concatenation of layouts packs each part in turn. */
  lemma {:induction false} PackedSizeAppend(a: seq<Field>, b: seq<Field>)
    ensures PackedSize(a + b) == PackedSize(a) + PackedSize(b)
    decreases |a|
  {
    if |a| > 0 {
      assert (a + b)[0] == a[0] && (a + b)[1..] == a[1..] + b;
      PackedSizeAppend(a[1..], b);
      calc {
        PackedSize(a + b);
        Width(a[0]) + PackedSize(a[1..] + b);
        Width(a[0]) + PackedSize(a[1..]) + PackedSize(b);
      }
    } else {
      assert a + b == b;
    }
  }

  /** msg_type, msg_len, sequence_num, timestamp_ns. */
  const HEADER_LAYOUT: seq<Field> := [U16, U16, U32, U64]

  /** symbol_id, bid_price, ask_price, bid_size, ask_size. */
  const QUOTE_BODY: seq<Field> := [U32, I64, I64, U32, U32]

  /** symbol_id, price, size, side, padding[3]. */
  const TRADE_BODY: seq<Field> := [U32, I64, U32, Bytes(1), Bytes(3)]

  /** order_id, symbol_id, price, size, side, padding[3]. */
  const ORDER_ADD_BODY: seq<Field> := [U64, U32, I64, U32, Bytes(1), Bytes(3)]

  /** order_id, symbol_id. */
  const ORDER_CANCEL_BODY: seq<Field> := [U64, U32]

  /** Every message is the header followed by its own fields. */
  function Layout(msgType: u16): seq<Field>
  {
    HEADER_LAYOUT + (
      if msgType == MSG_QUOTE then QUOTE_BODY
      else if msgType == MSG_TRADE then TRADE_BODY
      else if msgType == MSG_ORDER_ADD then ORDER_ADD_BODY
      else if msgType == MSG_ORDER_CANCEL then ORDER_CANCEL_BODY
      else [])
  }

  predicate IsKnownType(msgType: u16)
  {
    msgType == MSG_QUOTE || msgType == MSG_TRADE || msgType == MSG_ORDER_ADD || msgType == MSG_ORDER_CANCEL
  }

  const HEADER_SIZE: nat := 16
  const QUOTE_SIZE: nat := 44
  const TRADE_SIZE: nat := 36
  const ORDER_ADD_SIZE: nat := 44
  const ORDER_CANCEL_SIZE: nat := 28

  /** The size constants are the packed sizes of the layouts. */
  lemma SizesArePacked()
    ensures PackedSize(HEADER_LAYOUT) == HEADER_SIZE
    ensures PackedSize(Layout(MSG_QUOTE)) == QUOTE_SIZE
    ensures PackedSize(Layout(MSG_TRADE)) == TRADE_SIZE
    ensures PackedSize(Layout(MSG_ORDER_ADD)) == ORDER_ADD_SIZE
    ensures PackedSize(Layout(MSG_ORDER_CANCEL)) == ORDER_CANCEL_SIZE
  {
    PackedSizeAppend(HEADER_LAYOUT, QUOTE_BODY);
    PackedSizeAppend(HEADER_LAYOUT, TRADE_BODY);
    PackedSizeAppend(HEADER_LAYOUT, ORDER_ADD_BODY);
    PackedSizeAppend(HEADER_LAYOUT, ORDER_CANCEL_BODY);
  }

  /** The length the validator demands for a message type: the packed size
      of its struct, or 0 for a code that names no message. */
  function ExpectedLen(msgType: u16): (n: u64)
    ensures n != 0 <==> IsKnownType(msgType)
    ensures n != 0 ==> n as int == PackedSize(Layout(msgType))
  {
    SizesArePacked();
    if msgType == MSG_QUOTE then QUOTE_SIZE as u64
    else if msgType == MSG_TRADE then TRADE_SIZE as u64
    else if msgType == MSG_ORDER_ADD then ORDER_ADD_SIZE as u64
    else if msgType == MSG_ORDER_CANCEL then ORDER_CANCEL_SIZE as u64
    else 0
  }

  /** Every message carries more than a bare header and fits in one
      datagram's payload. */
  lemma MessageSizesBounded(msgType: u16)
    requires IsKnownType(msgType)
    ensures HEADER_SIZE < ExpectedLen(msgType) as int <= MAX_PAYLOAD
  {
  }

  /** A quote and an order add have the same length, so the length alone
      does not tell the type. */
  lemma LengthDoesNotDetermineType()
    ensures ExpectedLen(MSG_QUOTE) == ExpectedLen(MSG_ORDER_ADD)
    ensures MSG_QUOTE != MSG_ORDER_ADD
  {
  }

  // ---------------------------------------------------------------------
  // Decoded messages
  // ---------------------------------------------------------------------

  datatype Header = Header(msgType: u16, msgLen: u16, sequenceNum: u32, timestampNs: u64)

  datatype Quote = Quote(header: Header, symbolId: u32, bidPrice: i64, askPrice: i64, bidSize: u32, askSize: u32)

  datatype Trade = Trade(header: Header, symbolId: u32, price: i64, size: u32, side: char)

  datatype OrderAdd = OrderAdd(header: Header, orderId: u64, symbolId: u32, price: i64, size: u32, side: char)

  datatype OrderCancel = OrderCancel(header: Header, orderId: u64, symbolId: u32)

  /** A received datagram: its length and, abstractly, the header its first
      bytes decode to. The header is meaningful only when `len` covers it. */
  datatype RawMessage = RawMessage(len: nat, header: Header)
}
