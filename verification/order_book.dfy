/** The order book: aggregated size per price on each side, and the resting
    orders by id so that a cancel can find the level it came from. The
    bid side is kept highest price first and the ask side lowest price
    first, so the best price on each side is its extreme key. */
module OrderBook {
  import opened Common
  import opened MarketData

  datatype Order = Order(orderId: u64, symbolId: u32, price: i64, size: u32, side: char)

  /** Price levels map a price to the total size resting there. */
  type Levels = map<i64, u32>

  datatype Book = Book(bids: Levels, asks: Levels, orders: map<u64, Order>)

  const EMPTY: Book := Book(map[], map[], map[])

  /** The side character that marks a bid; every other character is an
      ask. */
  const BUY: char := 'B'

  /** Every resting order is filed under its own id. */
  predicate Keyed(b: Book)
  {
    forall id :: id in b.orders ==> b.orders[id].orderId == id
  }

  // ---------------------------------------------------------------------
  // Level arithmetic
  // ---------------------------------------------------------------------

  /** The size at a price, a missing level reading as 0 (as indexing a
      `std::map` inserts a zero-size level). */
  function SizeAt(levels: Levels, price: i64): u32
  {
    if price in levels then levels[price] else 0
  }

  /** Adds size at a price in 32-bit unsigned arithmetic. */
  function AddSize(levels: Levels, price: i64, size: u32): (r: Levels)
    ensures r.Keys == levels.Keys + {price}
    ensures r[price] as int == (SizeAt(levels, price) as int + size as int) % TWO_32
    ensures forall p :: p in levels && p != price ==> r[p] == levels[p]
  {
    levels[price := Wrap32(SizeAt(levels, price) as int + size as int)]
  }

  /** Takes an order's size off its level: the level shrinks when it holds
      more than the order, is erased when it holds no more, and a missing
      level stays missing. */
  function RemoveSize(levels: Levels, price: i64, size: u32): (r: Levels)
    ensures price in levels && levels[price] > size ==>
      r.Keys == levels.Keys && r[price] as int == levels[price] as int - size as int
    ensures price in levels && levels[price] <= size ==> r.Keys == levels.Keys - {price}
    ensures price !in levels ==> r == levels
    ensures forall p :: p in levels && p != price ==> p in r && r[p] == levels[p]
  {
    if price in levels then
      if levels[price] > size then levels[price := levels[price] - size]
      else map p | p in levels && p != price :: levels[p]
    else levels
  }

  /** Adding a size that does not wrap and then removing it restores a
      level that was missing or held something. */
  lemma AddThenRemoveSize(levels: Levels, price: i64, size: u32)
    requires price !in levels || levels[price] > 0
    requires SizeAt(levels, price) as int + size as int < TWO_32
    ensures RemoveSize(AddSize(levels, price, size), price, size) == levels
  {
    var r := RemoveSize(AddSize(levels, price, size), price, size);
    assert r.Keys == levels.Keys;
  }

  // ---------------------------------------------------------------------
  // Updates
  // ---------------------------------------------------------------------

  function OrderOf(msg: OrderAdd): Order
  {
    Order(msg.orderId, msg.symbolId, msg.price, msg.size, msg.side)
  }

  /** Files the order under its id, replacing any order already there
      without taking the old one's size off its level, and adds its size
      to its price level on its side. */
  function OnOrderAdd(b: Book, msg: OrderAdd): (r: Book)
    ensures r.orders == b.orders[msg.orderId := OrderOf(msg)]
    ensures msg.side == BUY ==> r.asks == b.asks && r.bids == AddSize(b.bids, msg.price, msg.size)
    ensures msg.side != BUY ==> r.bids == b.bids && r.asks == AddSize(b.asks, msg.price, msg.size)
    ensures Keyed(b) ==> Keyed(r)
  {
    var orders := b.orders[msg.orderId := OrderOf(msg)];
    if msg.side == BUY then
      Book(AddSize(b.bids, msg.price, msg.size), b.asks, orders)
    else
      Book(b.bids, AddSize(b.asks, msg.price, msg.size), orders)
  }

  /** Removes a resting order and its size from its level; an unknown id
      changes nothing. The order leaves the id map even when its level is
      already gone. */
  function OnOrderCancel(b: Book, msg: OrderCancel): (r: Book)
    ensures msg.orderId !in b.orders ==> r == b
    ensures msg.orderId in b.orders ==> r.orders == b.orders - {msg.orderId}
    ensures msg.orderId in b.orders && b.orders[msg.orderId].side == BUY ==>
      var o := b.orders[msg.orderId];
      r.asks == b.asks && r.bids == RemoveSize(b.bids, o.price, o.size)
    ensures msg.orderId in b.orders && b.orders[msg.orderId].side != BUY ==>
      var o := b.orders[msg.orderId];
      r.bids == b.bids && r.asks == RemoveSize(b.asks, o.price, o.size)
    ensures Keyed(b) ==> Keyed(r)
  {
    if msg.orderId !in b.orders then b
    else
      var o := b.orders[msg.orderId];
      var orders := b.orders - {msg.orderId};
      if o.side == BUY then Book(RemoveSize(b.bids, o.price, o.size), b.asks, orders)
      else Book(b.bids, RemoveSize(b.asks, o.price, o.size), orders)
  }

  /** Sets the quoted bid and ask levels outright, a zero size included;
      every other level and every order is untouched. */
  function OnQuote(b: Book, q: Quote): (r: Book)
    ensures r.bids.Keys == b.bids.Keys + {q.bidPrice} && r.bids[q.bidPrice] == q.bidSize
    ensures r.asks.Keys == b.asks.Keys + {q.askPrice} && r.asks[q.askPrice] == q.askSize
    ensures forall p :: p in b.bids && p != q.bidPrice ==> r.bids[p] == b.bids[p]
    ensures forall p :: p in b.asks && p != q.askPrice ==> r.asks[p] == b.asks[p]
    ensures r.orders == b.orders
  {
    Book(b.bids[q.bidPrice := q.bidSize], b.asks[q.askPrice := q.askSize], b.orders)
  }

  // ---------------------------------------------------------------------
  // Queries
  // ---------------------------------------------------------------------

  /** A finite nonempty set of prices has a greatest element. */
  lemma {:induction false} HighestExists(s: set<i64>)
    requires s != {}
    ensures exists m :: m in s && forall k :: k in s ==> k <= m
    decreases |s|
  {
    var x :| x in s;
    var rest := s - {x};
    if rest == {} {
      assert forall k :: k in s && k != x ==> k in rest;
      IsGreatest(s, x, x);
    } else {
      HighestExists(rest);
      var hi :| hi in rest && forall k :: k in rest ==> k <= hi;
      assert forall k :: k in s && k != x ==> k in rest;
      IsGreatest(s, x, hi);
    }
  }

  /** When `hi` bounds every price but `x`, the larger of the two bounds
      them all. */
  lemma IsGreatest(s: set<i64>, x: i64, hi: i64)
    requires x in s && hi in s
    requires forall k :: k in s && k != x ==> k <= hi
    ensures exists m :: m in s && forall k :: k in s ==> k <= m
  {
    if x <= hi {
      assert hi in s && forall k :: k in s ==> k <= hi;
    } else {
      assert x in s && forall k :: k in s ==> k <= x;
    }
  }

  /** A finite nonempty set of prices has a least element. */
  lemma {:induction false} LowestExists(s: set<i64>)
    requires s != {}
    ensures exists m :: m in s && forall k :: k in s ==> m <= k
    decreases |s|
  {
    var x :| x in s;
    var rest := s - {x};
    if rest == {} {
      assert forall k :: k in s && k != x ==> k in rest;
      IsLeast(s, x, x);
    } else {
      LowestExists(rest);
      var lo :| lo in rest && forall k :: k in rest ==> lo <= k;
      assert forall k :: k in s && k != x ==> k in rest;
      IsLeast(s, x, lo);
    }
  }

  /** When `lo` is below every price but `x`, the smaller of the two is
      below them all. */
  lemma IsLeast(s: set<i64>, x: i64, lo: i64)
    requires x in s && lo in s
    requires forall k :: k in s && k != x ==> lo <= k
    ensures exists m :: m in s && forall k :: k in s ==> m <= k
  {
    if lo <= x {
      assert lo in s && forall k :: k in s ==> lo <= k;
    } else {
      assert x in s && forall k :: k in s ==> x <= k;
    }
  }

  /** The first key of a map ordered by descending price. */
  function Highest(s: set<i64>): (m: i64)
    requires s != {}
    ensures m in s && forall k :: k in s ==> k <= m
  {
    HighestExists(s);
    var m :| m in s && forall k :: k in s ==> k <= m;
    m
  }

  /** The first key of a map ordered by ascending price. */
  function Lowest(s: set<i64>): (m: i64)
    requires s != {}
    ensures m in s && forall k :: k in s ==> m <= k
  {
    LowestExists(s);
    var m :| m in s && forall k :: k in s ==> m <= k;
    m
  }

  /** The highest bid price, or 0 with no bids. */
  function BestBid(b: Book): (p: i64)
    ensures b.bids == map[] ==> p == 0
    ensures b.bids != map[] ==> p in b.bids && forall k :: k in b.bids ==> k <= p
  {
    if b.bids == map[] then 0 else Highest(b.bids.Keys)
  }

  /** The lowest ask price, or 0 with no asks. */
  function BestAsk(b: Book): (p: i64)
    ensures b.asks == map[] ==> p == 0
    ensures b.asks != map[] ==> p in b.asks && forall k :: k in b.asks ==> p <= k
  {
    if b.asks == map[] then 0 else Lowest(b.asks.Keys)
  }

  /** Ask less bid, or 0 when either best price reads 0 (an empty side
      and a level at price 0 look alike here). A crossed book gives a
      negative spread. */
  function Spread(b: Book): (s: int)
    ensures BestBid(b) == 0 || BestAsk(b) == 0 ==> s == 0
    ensures BestBid(b) != 0 && BestAsk(b) != 0 ==>
      s == BestAsk(b) as int - BestBid(b) as int && (s < 0 <==> BestAsk(b) < BestBid(b))
  {
    var bid := BestBid(b);
    var ask := BestAsk(b);
    if bid == 0 || ask == 0 then 0 else ask as int - bid as int
  }

  // ---------------------------------------------------------------------
  // Properties across operations
  // ---------------------------------------------------------------------

  /** A new book answers 0 to every query. */
  lemma EmptyBookQueries()
    ensures BestBid(EMPTY) == 0 && BestAsk(EMPTY) == 0 && Spread(EMPTY) == 0
    ensures Keyed(EMPTY)
  {
  }

  /** Cancelling an order just added under a fresh id restores the book,
      provided its level neither wraps nor held a bare zero-size entry
      before. */
  lemma AddThenCancel(b: Book, msg: OrderAdd, cancel: OrderCancel)
    requires msg.orderId !in b.orders && cancel.orderId == msg.orderId
    requires msg.side == BUY ==> (msg.price !in b.bids || b.bids[msg.price] > 0)
    requires msg.side == BUY ==> SizeAt(b.bids, msg.price) as int + msg.size as int < TWO_32
    requires msg.side != BUY ==> (msg.price !in b.asks || b.asks[msg.price] > 0)
    requires msg.side != BUY ==> SizeAt(b.asks, msg.price) as int + msg.size as int < TWO_32
    ensures OnOrderCancel(OnOrderAdd(b, msg), cancel) == b
  {
    var added := OnOrderAdd(b, msg);
    var r := OnOrderCancel(added, cancel);
    assert added.orders[msg.orderId] == OrderOf(msg);
    assert r.orders == b.orders;
    if msg.side == BUY {
      AddThenRemoveSize(b.bids, msg.price, msg.size);
    } else {
      AddThenRemoveSize(b.asks, msg.price, msg.size);
    }
  }

  /** A quote can only raise the best bid and lower the best ask: the new
      best is the better of the old best and the quoted price, whatever
      size was quoted. */
  lemma QuoteBestPrices(b: Book, q: Quote)
    ensures BestBid(OnQuote(b, q)) == if b.bids == map[] || BestBid(b) <= q.bidPrice then q.bidPrice else BestBid(b)
    ensures BestAsk(OnQuote(b, q)) == if b.asks == map[] || q.askPrice <= BestAsk(b) then q.askPrice else BestAsk(b)
  {
    var r := OnQuote(b, q);
    assert q.bidPrice in r.bids && q.askPrice in r.asks;
  }

  /** Adding a bid never lowers the best bid and leaves the asks alone. */
  lemma AddBidRaisesBest(b: Book, msg: OrderAdd)
    requires msg.side == BUY
    ensures BestBid(OnOrderAdd(b, msg)) == if b.bids == map[] || BestBid(b) <= msg.price then msg.price else BestBid(b)
    ensures BestAsk(OnOrderAdd(b, msg)) == BestAsk(b)
  {
    var r := OnOrderAdd(b, msg);
    assert msg.price in r.bids;
  }

  /** The unit test's scenario: a bid of 100 at 1,000,000 under id 10 on a
      new book is the best bid, and cancelling id 10 empties the bid side
      again. */
  lemma AddCancelScenario(add: OrderAdd, cancel: OrderCancel)
    requires add.orderId == 10 && add.symbolId == 55 && add.price == 1_000_000
    requires add.size == 100 && add.side == 'B'
    requires cancel.orderId == 10 && cancel.symbolId == 55
    ensures BestBid(OnOrderAdd(EMPTY, add)) == 1_000_000
    ensures BestBid(OnOrderCancel(OnOrderAdd(EMPTY, add), cancel)) == 0
  {
    AddBidRaisesBest(EMPTY, add);
    AddThenCancel(EMPTY, add, cancel);
  }
}
