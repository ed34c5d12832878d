/** The order book: price levels, placing, matching. */
module OrderBooks {
  import opened Bytes
  import opened OrderQueue

  /** One entry of a price map. */
  datatype Level = Level(price: uint64, queue: seq<Order>)

  datatype Trade = Trade(buyId: Bytes, sellId: Bytes, buyer: Bytes, seller: Bytes,
                         baseAsset: nat, quoteAsset: nat, price: uint64, amount: nat)

  // ---------------------------------------------------------------- one side of the book

  predicate ValidLevel(l: Level) {
    && l.queue != [] && AllOpen(l.queue)
    && forall i | 0 <= i < |l.queue| :: l.queue[i].price == l.price
  }

  /** A price map: levels in ascending order of price, none empty. */
  predicate ValidSide(levels: seq<Level>) {
    && (forall i | 0 <= i < |levels| :: ValidLevel(levels[i]))
    && (forall i, j | 0 <= i < j < |levels| :: levels[i].price < levels[j].price)
  }

  /** The sell side in priority order: lowest price first. */
  function Asks(levels: seq<Level>): seq<Order> {
    if levels == [] then [] else levels[0].queue + Asks(levels[1..])
  }

  /** The buy side in priority order: highest price first. */
  function Bids(levels: seq<Level>): seq<Order>
    decreases |levels|
  {
    if levels == [] then [] else levels[|levels| - 1].queue + Bids(levels[..|levels| - 1])
  }

  lemma {:induction false} AsksInOrder(levels: seq<Level>)
    requires ValidSide(levels)
    ensures AllOpen(Asks(levels)) && Rising(Asks(levels))
    ensures forall i | 0 <= i < |Asks(levels)| :: Asks(levels)[i].price >= levels[0].price
    decreases |levels|
  {
    if levels != [] {
      AsksInOrder(levels[1..]);
    }
  }

  lemma {:induction false} BidsInOrder(levels: seq<Level>)
    requires ValidSide(levels)
    ensures AllOpen(Bids(levels)) && Falling(Bids(levels))
    ensures forall i | 0 <= i < |Bids(levels)| :: Bids(levels)[i].price <= levels[|levels| - 1].price
    decreases |levels|
  {
    if levels != [] {
      BidsInOrder(levels[..|levels| - 1]);
    }
  }

  // ---------------------------------------------------------------- placing

  /** Append to the queue of the order's price, making the level if it is missing. */
  function Enqueue(levels: seq<Level>, o: Order): seq<Level> {
    if levels == [] || o.price < levels[0].price then [Level(o.price, [o])] + levels
    else if o.price == levels[0].price then
      [Level(o.price, levels[0].queue + [o])] + levels[1..]
    else
      [levels[0]] + Enqueue(levels[1..], o)
  }

  lemma {:induction false} EnqueueValid(levels: seq<Level>, o: Order)
    requires ValidSide(levels) && Open(o)
    ensures ValidSide(Enqueue(levels, o))
    ensures Enqueue(levels, o) != []
    ensures Enqueue(levels, o)[0].price == if levels == [] || o.price < levels[0].price then o.price else levels[0].price
    decreases |levels|
  {
    if levels != [] && o.price > levels[0].price {
      EnqueueValid(levels[1..], o);
      var rest := Enqueue(levels[1..], o);
      assert forall j | 0 <= j < |rest| :: rest[j].price >= rest[0].price > levels[0].price;
    }
  }

  /** Placing an order puts it behind every order of a price as good, ahead of every worse one. */
  ghost predicate Queued(before: seq<Order>, o: Order, after: seq<Order>, k: nat) {
    k <= |before| && after == before[..k] + [o] + before[k..]
  }

  /** The order belongs behind the first `k` asks and ahead of the others. */
  ghost predicate AskPosition(asks: seq<Order>, o: Order, k: nat) {
    && k <= |asks|
    && (forall i | 0 <= i < k :: asks[i].price <= o.price)
    && (forall i | k <= i < |asks| :: asks[i].price > o.price)
  }

  lemma {:induction false} EnqueueAsks(levels: seq<Level>, o: Order) returns (k: nat)
    requires ValidSide(levels) && Open(o)
    ensures Queued(Asks(levels), o, Asks(Enqueue(levels, o)), k) && AskPosition(Asks(levels), o, k)
    decreases |levels|
  {
    if levels != [] && o.price > levels[0].price {
      var below := EnqueueAsks(levels[1..], o);
      k := AskBehindFirst(levels, o, Enqueue(levels[1..], o), below);
    } else {
      k := AskAtFirst(levels, o);
    }
  }

  lemma AskAtFirst(levels: seq<Level>, o: Order) returns (k: nat)
    requires ValidSide(levels) && Open(o) && (levels == [] || o.price <= levels[0].price)
    ensures Queued(Asks(levels), o, Asks(Enqueue(levels, o)), k) && AskPosition(Asks(levels), o, k)
  {
    AsksInOrder(levels);
    var after := Enqueue(levels, o);
    if levels == [] || o.price < levels[0].price {
      k := 0;
      assert after[1..] == levels;
    } else {
      k := |levels[0].queue|;
      AsksInOrder(levels[1..]);
      assert after[1..] == levels[1..];
    }
  }

  lemma AskBehindFirst(levels: seq<Level>, o: Order, rest: seq<Level>, below: nat) returns (k: nat)
    requires ValidSide(levels) && levels != [] && o.price > levels[0].price
    requires Queued(Asks(levels[1..]), o, Asks(rest), below) && AskPosition(Asks(levels[1..]), o, below)
    ensures Queued(Asks(levels), o, Asks([levels[0]] + rest), k) && AskPosition(Asks(levels), o, k)
  {
    k := |levels[0].queue| + below;
    assert ([levels[0]] + rest)[1..] == rest;
    QueuedAfter(levels[0].queue, Asks(levels[1..]), o, Asks(rest), below);
    PositionAfter(levels[0].queue, Asks(levels[1..]), o, below);
  }

  lemma PositionAfter(first: seq<Order>, rest: seq<Order>, o: Order, k: nat)
    requires AskPosition(rest, o, k) && forall i | 0 <= i < |first| :: first[i].price <= o.price
    ensures AskPosition(first + rest, o, |first| + k)
  {
  }

  lemma QueuedAfter(first: seq<Order>, before: seq<Order>, o: Order, after: seq<Order>, k: nat)
    requires Queued(before, o, after, k)
    ensures Queued(first + before, o, first + after, |first| + k)
  {
  }

  lemma {:induction false} BidsFromFront(levels: seq<Level>)
    requires levels != []
    ensures Bids(levels) == Bids(levels[1..]) + levels[0].queue
    decreases |levels|
  {
    if |levels| > 1 {
      var last := |levels| - 1;
      BidsFromFront(levels[..last]);
      assert levels[..last][1..] == levels[1..][..last - 1];
    }
  }

  /** The order belongs behind the first `k` bids and ahead of the others. */
  ghost predicate BidPosition(bids: seq<Order>, o: Order, k: nat) {
    && k <= |bids|
    && (forall i | 0 <= i < k :: bids[i].price >= o.price)
    && (forall i | k <= i < |bids| :: bids[i].price < o.price)
  }

  lemma {:induction false} EnqueueBids(levels: seq<Level>, o: Order) returns (k: nat)
    requires ValidSide(levels) && Open(o)
    ensures Queued(Bids(levels), o, Bids(Enqueue(levels, o)), k) && BidPosition(Bids(levels), o, k)
    decreases |levels|
  {
    if levels == [] {
      k := 0;
      BidsFromFront(Enqueue(levels, o));
    } else if o.price > levels[0].price {
      k := EnqueueBids(levels[1..], o);
      BidAheadOfFirst(levels, o, Enqueue(levels[1..], o), k);
    } else {
      k := |Bids(levels)|;
      BidsAtLeast(levels);
      EnqueueLastBid(levels, o);
    }
  }

  lemma BidAheadOfFirst(levels: seq<Level>, o: Order, rest: seq<Level>, k: nat)
    requires ValidSide(levels) && levels != [] && o.price > levels[0].price
    requires Queued(Bids(levels[1..]), o, Bids(rest), k) && BidPosition(Bids(levels[1..]), o, k)
    ensures Queued(Bids(levels), o, Bids([levels[0]] + rest), k) && BidPosition(Bids(levels), o, k)
  {
    BidsFromFront(levels);
    BidsFromFront([levels[0]] + rest);
    assert ([levels[0]] + rest)[1..] == rest;
    QueuedBefore(Bids(levels[1..]), o, Bids(rest), k, levels[0].queue);
  }

  lemma QueuedBefore(before: seq<Order>, o: Order, after: seq<Order>, k: nat, rest: seq<Order>)
    requires Queued(before, o, after, k)
    ensures Queued(before + rest, o, after + rest, k)
  {
  }

  lemma EnqueueLastBid(levels: seq<Level>, o: Order)
    requires levels != [] && o.price <= levels[0].price
    ensures Bids(Enqueue(levels, o)) == Bids(levels) + [o]
  {
    var after := Enqueue(levels, o);
    BidsFromFront(after);
    if o.price < levels[0].price {
      assert after[1..] == levels;
    } else {
      BidsFromFront(levels);
      assert after[1..] == levels[1..];
    }
  }

  lemma {:induction false} BidsAtLeast(levels: seq<Level>)
    requires ValidSide(levels) && levels != []
    ensures forall i | 0 <= i < |Bids(levels)| :: Bids(levels)[i].price >= levels[0].price
    decreases |levels|
  {
    if |levels| > 1 {
      BidsAtLeast(levels[..|levels| - 1]);
    }
  }

  // ---------------------------------------------------------------- one trade

  /** The queue after `t` units of its first order have traded. */
  function AfterTrade(queue: seq<Order>, t: nat): seq<Order>
    requires queue != [] && queue[0].filled + t <= queue[0].amount
  {
    if queue[0].filled + t == queue[0].amount then queue[1..]
    else [queue[0].(filled := queue[0].filled + t)] + queue[1..]
  }

  /** The level `at` after a trade; an empty level is erased. */
  function TradeAt(levels: seq<Level>, at: nat, t: nat): seq<Level>
    requires at < |levels| && levels[at].queue != []
    requires levels[at].queue[0].filled + t <= levels[at].queue[0].amount
  {
    var queue := AfterTrade(levels[at].queue, t);
    if queue == [] then levels[..at] + levels[at + 1..] else levels[at := Level(levels[at].price, queue)]
  }

  lemma TradeAtValid(levels: seq<Level>, at: nat, t: nat)
    requires ValidSide(levels) && at < |levels| && 0 < t <= Unfilled(levels[at].queue[0])
    ensures ValidSide(TradeAt(levels, at, t))
  {
    var queue := AfterTrade(levels[at].queue, t);
    assert queue != [] ==> ValidLevel(Level(levels[at].price, queue));
  }

  /** A trade of at most the first order is a fill of the front. */
  lemma {:induction false} AfterTradeFills(queue: seq<Order>, rest: seq<Order>, t: nat)
    requires AllOpen(queue) && AllOpen(rest) && queue != [] && 0 < t <= Unfilled(queue[0])
    ensures AllOpen(queue + rest) && t <= Volume(queue + rest)
    ensures AfterTrade(queue, t) + rest == Fill(queue + rest, t)
  {
    var q := queue + rest;
    assert q[1..] == queue[1..] + rest;
    assert Fill(q[1..], 0) == q[1..];
  }

  lemma TradeAtBestAsk(levels: seq<Level>, t: nat)
    requires ValidSide(levels) && levels != [] && 0 < t <= Unfilled(levels[0].queue[0])
    ensures AllOpen(Asks(levels)) && t <= Volume(Asks(levels))
    ensures Asks(TradeAt(levels, 0, t)) == Fill(Asks(levels), t) && ValidSide(TradeAt(levels, 0, t))
  {
    TradeAtValid(levels, 0, t);
    AsksInOrder(levels);
    AsksInOrder(levels[1..]);
    AfterTradeFills(levels[0].queue, Asks(levels[1..]), t);
    var after := TradeAt(levels, 0, t);
    if AfterTrade(levels[0].queue, t) == [] {
      assert after == levels[1..];
    } else {
      assert after[1..] == levels[1..];
    }
  }

  lemma TradeAtBestBid(levels: seq<Level>, t: nat)
    requires ValidSide(levels) && levels != [] && 0 < t <= Unfilled(levels[|levels| - 1].queue[0])
    ensures AllOpen(Bids(levels)) && t <= Volume(Bids(levels))
    ensures Bids(TradeAt(levels, |levels| - 1, t)) == Fill(Bids(levels), t)
    ensures ValidSide(TradeAt(levels, |levels| - 1, t))
  {
    var last := |levels| - 1;
    var queue, rest := levels[last].queue, Bids(levels[..last]);
    TradeAtValid(levels, last, t);
    BidsInOrder(levels[..last]);
    assert AllOpen(queue) by { assert ValidLevel(levels[last]); }
    assert Bids(levels) == queue + rest;
    AfterTradeFills(queue, rest, t);
    BidsAfterTrade(levels, last, t);
  }

  lemma BidsAfterTrade(levels: seq<Level>, last: nat, t: nat)
    requires last == |levels| - 1 && levels[last].queue != []
    requires levels[last].queue[0].filled + t <= levels[last].queue[0].amount
    ensures Bids(TradeAt(levels, last, t)) == AfterTrade(levels[last].queue, t) + Bids(levels[..last])
  {
    var after := TradeAt(levels, last, t);
    if AfterTrade(levels[last].queue, t) == [] {
      assert after == levels[..last];
      assert [] + Bids(levels[..last]) == Bids(levels[..last]);
    } else {
      assert after[..last] == levels[..last];
    }
  }

  // ---------------------------------------------------------------- the trades of a run

  function Traded(trades: seq<Trade>): nat {
    if trades == [] then 0 else Traded(trades[..|trades| - 1]) + trades[|trades| - 1].amount
  }

  /** Unit `x` of both sides is what this trade exchanged. */
  predicate Exchanges(bids: seq<Order>, asks: seq<Order>, t: Trade, x: nat)
    requires AllOpen(bids) && AllOpen(asks)
  {
    && Meets(bids, asks, x)
    && Unit(bids, x).id == t.buyId && Unit(bids, x).trader == t.buyer
    && Unit(asks, x) == Quote(t.sellId, t.seller, t.price)
  }

  /** The trades take the units of both sides in priority order: each exchanges the next units of
      one bid for the same number of units of one ask, at the price of that ask, which is no higher
      than the price of the bid. */
  predicate TradesInPriority(bids: seq<Order>, asks: seq<Order>, trades: seq<Trade>)
    requires AllOpen(bids) && AllOpen(asks)
    decreases |trades|
  {
    trades == [] ||
    var before, t := trades[..|trades| - 1], trades[|trades| - 1];
    TradesInPriority(bids, asks, before) && t.amount > 0 && ExchangesFrom(bids, asks, t, Traded(before))
  }

  predicate ExchangesFrom(bids: seq<Order>, asks: seq<Order>, t: Trade, v: nat)
    requires AllOpen(bids) && AllOpen(asks)
  {
    forall x | v <= x < v + t.amount :: Exchanges(bids, asks, t, x)
  }

  lemma {:induction false} TradedUnitsMeet(bids: seq<Order>, asks: seq<Order>, trades: seq<Trade>, x: nat)
    requires AllOpen(bids) && AllOpen(asks) && TradesInPriority(bids, asks, trades)
    requires x < Traded(trades)
    ensures Meets(bids, asks, x)
    decreases |trades|
  {
    var before, t := trades[..|trades| - 1], trades[|trades| - 1];
    if x < Traded(before) {
      TradedUnitsMeet(bids, asks, before, x);
    } else {
      assert ExchangesFrom(bids, asks, t, Traded(before)) && Exchanges(bids, asks, t, x);
    }
  }

  /** What has been traded so far, and what of both sides is left. */
  ghost predicate Matched(bids: seq<Order>, asks: seq<Order>, trades: seq<Trade>, bids': seq<Order>, asks': seq<Order>) {
    && AllOpen(bids) && AllOpen(asks) && TradesInPriority(bids, asks, trades)
    && Traded(trades) <= Volume(bids) && Traded(trades) <= Volume(asks)
    && bids' == Fill(bids, Traded(trades)) && asks' == Fill(asks, Traded(trades))
  }

  /** The trade is between the two orders, at the price of the ask. */
  predicate TradeOf(t: Trade, buy: Order, sell: Order)
    requires Open(buy) && Open(sell)
  {
    && buy.price >= sell.price
    && 0 < t.amount <= Unfilled(buy) && t.amount <= Unfilled(sell)
    && t.buyId == buy.id && t.buyer == buy.trader
    && t.sellId == sell.id && t.seller == sell.trader && t.price == sell.price
  }

  /** One more trade between the two best orders. */
  lemma NextTrade(bids: seq<Order>, asks: seq<Order>, trades: seq<Trade>, bids': seq<Order>, asks': seq<Order>, t: Trade)
    requires Matched(bids, asks, trades, bids', asks') && bids' != [] && asks' != []
    requires TradeOf(t, bids'[0], asks'[0])
    ensures t.amount <= Volume(bids') && t.amount <= Volume(asks')
    ensures Matched(bids, asks, trades + [t], Fill(bids', t.amount), Fill(asks', t.amount))
    ensures Traded(trades + [t]) > Traded(trades)
  {
    FillOn(bids, Traded(trades), t.amount, bids');
    FillOn(asks, Traded(trades), t.amount, asks');
    NextMatched(bids, asks, trades, Traded(trades), t, Fill(bids', t.amount), Fill(asks', t.amount));
  }

  lemma NextMatched(bids: seq<Order>, asks: seq<Order>, trades: seq<Trade>, v: nat, t: Trade, bids': seq<Order>,
                    asks': seq<Order>)
    requires AllOpen(bids) && AllOpen(asks) && TradesInPriority(bids, asks, trades) && v == Traded(trades)
    requires v + t.amount <= Volume(bids) && v + t.amount <= Volume(asks)
    requires Fill(bids, v) != [] && Fill(asks, v) != [] && TradeOf(t, Fill(bids, v)[0], Fill(asks, v)[0])
    requires bids' == Fill(bids, v + t.amount) && asks' == Fill(asks, v + t.amount)
    ensures Matched(bids, asks, trades + [t], bids', asks') && Traded(trades + [t]) == v + t.amount
  {
    AnotherAmount(trades, t);
    NextInPriority(bids, asks, trades, t);
    MatchedAt(bids, asks, trades + [t], v + t.amount, bids', asks');
  }

  lemma MatchedAt(bids: seq<Order>, asks: seq<Order>, trades: seq<Trade>, v: nat, bids': seq<Order>, asks': seq<Order>)
    requires AllOpen(bids) && AllOpen(asks) && TradesInPriority(bids, asks, trades) && v == Traded(trades)
    requires v <= Volume(bids) && v <= Volume(asks) && bids' == Fill(bids, v) && asks' == Fill(asks, v)
    ensures Matched(bids, asks, trades, bids', asks')
  {
  }

  lemma AnotherAmount(trades: seq<Trade>, t: Trade)
    ensures Traded(trades + [t]) == Traded(trades) + t.amount
  {
    assert (trades + [t])[..|trades|] == trades;
  }

  /** The best order of what is left can be filled a little further. */
  lemma FillOn(q: seq<Order>, v: nat, amount: nat, left: seq<Order>)
    requires AllOpen(q) && v <= Volume(q) && left == Fill(q, v) && left != [] && amount <= Unfilled(left[0])
    ensures amount <= Volume(left) && v + amount <= Volume(q) && Fill(left, amount) == Fill(q, v + amount)
  {
    assert Volume(left) == Unfilled(left[0]) + Volume(left[1..]);
    FillFill(q, v, amount);
  }

  lemma NextInPriority(bids: seq<Order>, asks: seq<Order>, trades: seq<Trade>, t: Trade)
    requires AllOpen(bids) && AllOpen(asks) && TradesInPriority(bids, asks, trades)
    requires Traded(trades) <= Volume(bids) && Traded(trades) <= Volume(asks)
    requires Fill(bids, Traded(trades)) != [] && Fill(asks, Traded(trades)) != []
    requires TradeOf(t, Fill(bids, Traded(trades))[0], Fill(asks, Traded(trades))[0])
    ensures TradesInPriority(bids, asks, trades + [t])
  {
    BestExchanged(bids, asks, Traded(trades), t);
    OneMoreInPriority(bids, asks, trades, t);
  }

  lemma BestExchanged(bids: seq<Order>, asks: seq<Order>, v: nat, t: Trade)
    requires AllOpen(bids) && AllOpen(asks) && v <= Volume(bids) && v <= Volume(asks)
    requires Fill(bids, v) != [] && Fill(asks, v) != [] && TradeOf(t, Fill(bids, v)[0], Fill(asks, v)[0])
    ensures ExchangesFrom(bids, asks, t, v)
  {
    forall x | v <= x < v + t.amount ensures Exchanges(bids, asks, t, x) {
      BestUnits(bids, asks, v, t, x - v);
    }
  }

  lemma OneMoreInPriority(bids: seq<Order>, asks: seq<Order>, trades: seq<Trade>, t: Trade)
    requires AllOpen(bids) && AllOpen(asks) && TradesInPriority(bids, asks, trades)
    requires t.amount > 0 && ExchangesFrom(bids, asks, t, Traded(trades))
    ensures TradesInPriority(bids, asks, trades + [t])
  {
    assert (trades + [t])[..|trades|] == trades;
  }

  lemma BestUnits(bids: seq<Order>, asks: seq<Order>, v: nat, t: Trade, x: nat)
    requires AllOpen(bids) && AllOpen(asks) && v <= Volume(bids) && v <= Volume(asks)
    requires Fill(bids, v) != [] && Fill(asks, v) != [] && TradeOf(t, Fill(bids, v)[0], Fill(asks, v)[0])
    requires x < t.amount
    ensures Exchanges(bids, asks, t, v + x)
  {
    UnitAfterFill(bids, v, x);
    UnitAfterFill(asks, v, x);
  }

  /** When the best orders no longer meet, the traded volume is the clearing volume. */
  lemma UncrossedClears(bids: seq<Order>, asks: seq<Order>, trades: seq<Trade>, bids': seq<Order>, asks': seq<Order>)
    requires Matched(bids, asks, trades, bids', asks') && Falling(bids) && Rising(asks)
    requires bids' == [] || asks' == [] || bids'[0].price < asks'[0].price
    ensures Clears(bids, asks, Traded(trades))
  {
    var v := Traded(trades);
    forall x | 0 <= x < v ensures Meets(bids, asks, x) {
      TradedUnitsMeet(bids, asks, trades, x);
    }
    if bids' != [] && asks' != [] {
      UnitAfterFill(bids, v, 0);
      UnitAfterFill(asks, v, 0);
    }
    ClearingVolume(bids, asks, v);
  }

  // ---------------------------------------------------------------- the book

  class OrderBook {
    const baseAsset: nat
    const quoteAsset: nat
    var buyOrders: seq<Level>
    var sellOrders: seq<Level>

    ghost predicate Valid()
      reads this
    {
      ValidSide(buyOrders) && ValidSide(sellOrders)
    }

    constructor (baseAsset: nat, quoteAsset: nat)
      ensures Valid() && buyOrders == [] && sellOrders == []
      ensures this.baseAsset == baseAsset && this.quoteAsset == quoteAsset
    {
      this.baseAsset, this.quoteAsset := baseAsset, quoteAsset;
      buyOrders, sellOrders := [], [];
    }

    predicate ValidateOrder(o: Order) {
      o.amount != 0 && o.price != 0 && o.baseAsset == baseAsset && o.quoteAsset == quoteAsset
    }

    /** `id` is the hash the source derives from the order; the order is stored unfilled. */
    method PlaceOrder(order: Order, id: Bytes) returns (placed: Bytes)
      requires Valid()
      modifies this
      ensures Valid()
      ensures var accepted := && order.amount > 0 && order.price > 0
                              && order.baseAsset == baseAsset && order.quoteAsset == quoteAsset;
              placed == if accepted then id else []
      ensures var accepted := && order.amount > 0 && order.price > 0
                              && order.baseAsset == baseAsset && order.quoteAsset == quoteAsset;
              var o := order.(id := id, filled := 0);
              && (if accepted && order.kind == LimitBuy then
                    exists k: nat :: Queued(Bids(old(buyOrders)), o, Bids(buyOrders), k)
                                     && BidPosition(Bids(old(buyOrders)), o, k)
                  else buyOrders == old(buyOrders))
              && (if accepted && order.kind == LimitSell then
                    exists k: nat :: Queued(Asks(old(sellOrders)), o, Asks(sellOrders), k)
                                     && AskPosition(Asks(old(sellOrders)), o, k)
                  else sellOrders == old(sellOrders))
    {
      if !ValidateOrder(order) {
        return [];
      }
      var o := order.(id := id, filled := 0);
      if order.kind == LimitBuy {
        ghost var k := EnqueueBids(buyOrders, o);
        EnqueueValid(buyOrders, o);
        buyOrders := Enqueue(buyOrders, o);
      } else if order.kind == LimitSell {
        ghost var k := EnqueueAsks(sellOrders, o);
        EnqueueValid(sellOrders, o);
        sellOrders := Enqueue(sellOrders, o);
      }
      return id;
    }

    /** One pass of the matching loop: the two best orders trade, and leave the book when filled. */
    method TradeBest() returns (trade: Trade)
      requires Valid() && buyOrders != [] && sellOrders != []
      requires buyOrders[|buyOrders| - 1].price >= sellOrders[0].price
      modifies this
      ensures Valid() && trade.baseAsset == baseAsset && trade.quoteAsset == quoteAsset
      ensures var bids, asks := Bids(old(buyOrders)), Asks(old(sellOrders));
              && AllOpen(bids) && AllOpen(asks) && bids != [] && asks != []
              && TradeOf(trade, bids[0], asks[0]) && trade.amount <= Volume(bids) && trade.amount <= Volume(asks)
              && Bids(buyOrders) == Fill(bids, trade.amount) && Asks(sellOrders) == Fill(asks, trade.amount)
    {
      var best := |buyOrders| - 1;
      var buy, sell := buyOrders[best].queue[0], sellOrders[0].queue[0];
      var amount := Min(buy.amount - buy.filled, sell.amount - sell.filled);
      trade := Trade(buy.id, sell.id, buy.trader, sell.trader, baseAsset, quoteAsset, sell.price, amount);
      TradeAtBestBid(buyOrders, amount);
      TradeAtBestAsk(sellOrders, amount);
      buyOrders := TradeAt(buyOrders, best, amount);
      sellOrders := TradeAt(sellOrders, 0, amount);
    }

    method MatchOrders() returns (trades: seq<Trade>)
      requires Valid()
      modifies this
      ensures Valid()
      ensures buyOrders == [] || sellOrders == [] || buyOrders[|buyOrders| - 1].price < sellOrders[0].price
      ensures Matched(Bids(old(buyOrders)), Asks(old(sellOrders)), trades, Bids(buyOrders), Asks(sellOrders))
      ensures Clears(Bids(old(buyOrders)), Asks(old(sellOrders)), Traded(trades))
      ensures forall t | t in trades :: t.baseAsset == baseAsset && t.quoteAsset == quoteAsset
    {
      ghost var bids, asks := Bids(buyOrders), Asks(sellOrders);
      BidsInOrder(buyOrders);
      AsksInOrder(sellOrders);
      trades := [];
      while buyOrders != [] && sellOrders != []
        invariant Valid() && Matched(bids, asks, trades, Bids(buyOrders), Asks(sellOrders))
        invariant forall t | t in trades :: t.baseAsset == baseAsset && t.quoteAsset == quoteAsset
        decreases Volume(bids) - Traded(trades)
      {
        if buyOrders[|buyOrders| - 1].price < sellOrders[0].price {
          break;
        }
        var trade := TradeBest();
        NextTrade(bids, asks, trades, Fill(bids, Traded(trades)), Fill(asks, Traded(trades)), trade);
        trades := trades + [trade];
      }
      UncrossedClears(bids, asks, trades, Bids(buyOrders), Asks(sellOrders));
    }
  }
}
