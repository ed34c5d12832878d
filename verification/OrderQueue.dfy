/** Orders in priority order, best price first and oldest first within a price. */
module OrderQueue {
  import opened Bytes

  datatype OrderKind = LimitBuy | LimitSell | MarketBuy | MarketSell

  datatype Order = Order(
    id: Bytes, trader: Bytes, baseAsset: nat, quoteAsset: nat, kind: OrderKind,
    price: uint64, amount: uint64, filled: uint64)

  predicate Open(o: Order) {
    o.filled < o.amount && o.price > 0
  }

  predicate AllOpen(q: seq<Order>) {
    forall i | 0 <= i < |q| :: Open(q[i])
  }

  function Unfilled(o: Order): nat
    requires o.filled <= o.amount
  {
    o.amount - o.filled
  }

  function Volume(q: seq<Order>): (v: nat)
    requires AllOpen(q)
    ensures v == 0 <==> q == []
  {
    if q == [] then 0 else Unfilled(q[0]) + Volume(q[1..])
  }

  /** The orders left after `v` units have been filled from the front. */
  function Fill(q: seq<Order>, v: nat): (r: seq<Order>)
    requires AllOpen(q) && v <= Volume(q)
    ensures AllOpen(r) && Volume(r) == Volume(q) - v
  {
    if v == 0 then q
    else if v >= Unfilled(q[0]) then Fill(q[1..], v - Unfilled(q[0]))
    else
      var head := q[0].(filled := q[0].filled + v);
      [head] + q[1..]
  }

  /** Who offers a unit of volume, and at what price. */
  datatype Quote = Quote(id: Bytes, trader: Bytes, price: uint64)

  function QuoteOf(o: Order): Quote {
    Quote(o.id, o.trader, o.price)
  }

  /** The offer behind the unit of volume number `x` from the front. */
  function Unit(q: seq<Order>, x: nat): Quote
    requires AllOpen(q) && x < Volume(q)
  {
    if x < Unfilled(q[0]) then QuoteOf(q[0]) else Unit(q[1..], x - Unfilled(q[0]))
  }

  /** Filling the front moves every later unit forward and changes nothing else about it. */
  lemma {:induction false} UnitAfterFill(q: seq<Order>, v: nat, x: nat)
    requires AllOpen(q) && v + x < Volume(q)
    ensures Unit(Fill(q, v), x) == Unit(q, v + x)
    decreases |q|
  {
    if v > 0 {
      if v >= Unfilled(q[0]) {
        UnitAfterFill(q[1..], v - Unfilled(q[0]), x);
      } else {
        assert Fill(q, v)[1..] == q[1..];
      }
    }
  }

  lemma {:induction false} FillFill(q: seq<Order>, v: nat, w: nat)
    requires AllOpen(q) && v + w <= Volume(q)
    ensures Fill(Fill(q, v), w) == Fill(q, v + w)
    decreases |q|
  {
    if v > 0 && w > 0 {
      if v >= Unfilled(q[0]) {
        FillFill(q[1..], v - Unfilled(q[0]), w);
      } else {
        PartFill(q[0], q[1..], v, w);
        assert q == [q[0]] + q[1..];
      }
    }
  }

  lemma PartFill(o: Order, rest: seq<Order>, v: nat, w: nat)
    requires Open(o) && AllOpen(rest) && 0 < v < Unfilled(o) && 0 < w && v + w <= Unfilled(o) + Volume(rest)
    ensures AllOpen([o] + rest) && Volume([o] + rest) == Unfilled(o) + Volume(rest)
    ensures Fill(Fill([o] + rest, v), w) == Fill([o] + rest, v + w)
  {
    var q := [o] + rest;
    assert q[1..] == rest;
    var o' := o.(filled := o.filled + v);
    var r := [o'] + rest;
    assert r[1..] == rest;
    assert Fill(q, v) == r;
    if w < Unfilled(o') {
      assert Fill(r, w) == [o'.(filled := o'.filled + w)] + rest;
    } else {
      assert Fill(r, w) == Fill(rest, w - Unfilled(o'));
    }
  }

  /** Units of demand at or above a price, or of supply at or below it. */
  function Demand(q: seq<Order>, p: nat): nat
    requires AllOpen(q)
  {
    if q == [] then 0 else (if q[0].price >= p then Unfilled(q[0]) else 0) + Demand(q[1..], p)
  }

  function Supply(q: seq<Order>, p: nat): nat
    requires AllOpen(q)
  {
    if q == [] then 0 else (if q[0].price <= p then Unfilled(q[0]) else 0) + Supply(q[1..], p)
  }

  predicate Falling(q: seq<Order>) {
    forall i, j | 0 <= i < j < |q| :: q[i].price >= q[j].price
  }

  predicate Rising(q: seq<Order>) {
    forall i, j | 0 <= i < j < |q| :: q[i].price <= q[j].price
  }

  lemma {:induction false} NoDemandBelow(q: seq<Order>, p: nat)
    requires AllOpen(q) && forall o | o in q :: o.price < p
    ensures Demand(q, p) == 0
    decreases |q|
  {
    if q != [] {
      NoDemandBelow(q[1..], p);
    }
  }

  lemma {:induction false} NoSupplyAbove(q: seq<Order>, p: nat)
    requires AllOpen(q) && forall o | o in q :: o.price > p
    ensures Supply(q, p) == 0
    decreases |q|
  {
    if q != [] {
      NoSupplyAbove(q[1..], p);
    }
  }

  /** In priority order the demand at or above `p` is exactly the first `Demand` units. */
  lemma {:induction false} UnitDemand(q: seq<Order>, p: nat, x: nat)
    requires AllOpen(q) && Falling(q) && x < Volume(q)
    ensures Unit(q, x).price >= p <==> x < Demand(q, p)
    decreases |q|
  {
    if x >= Unfilled(q[0]) {
      UnitDemand(q[1..], p, x - Unfilled(q[0]));
      if q[0].price < p {
        NoDemandBelow(q[1..], p);
      }
    } else if q[0].price < p {
      NoDemandBelow(q[1..], p);
    }
  }

  lemma {:induction false} UnitSupply(q: seq<Order>, p: nat, x: nat)
    requires AllOpen(q) && Rising(q) && x < Volume(q)
    ensures Unit(q, x).price <= p <==> x < Supply(q, p)
    decreases |q|
  {
    if x >= Unfilled(q[0]) {
      UnitSupply(q[1..], p, x - Unfilled(q[0]));
      if q[0].price > p {
        NoSupplyAbove(q[1..], p);
      }
    } else if q[0].price > p {
      NoSupplyAbove(q[1..], p);
    }
  }

  lemma {:induction false} DemandWithinVolume(q: seq<Order>, p: nat)
    requires AllOpen(q)
    ensures Demand(q, p) <= Volume(q)
    decreases |q|
  {
    if q != [] {
      DemandWithinVolume(q[1..], p);
    }
  }

  lemma {:induction false} SupplyWithinVolume(q: seq<Order>, p: nat)
    requires AllOpen(q)
    ensures Supply(q, p) <= Volume(q)
    decreases |q|
  {
    if q != [] {
      SupplyWithinVolume(q[1..], p);
    }
  }

  function Min(a: nat, b: nat): nat {
    if a < b then a else b
  }

  /** Unit `x` of the bids meets unit `x` of the asks. */
  predicate Meets(bids: seq<Order>, asks: seq<Order>, x: nat)
    requires AllOpen(bids) && AllOpen(asks)
  {
    x < Volume(bids) && x < Volume(asks) && Unit(bids, x).price >= Unit(asks, x).price
  }

  /** The volume that clears is the largest over all prices of the smaller of demand and supply. */
  ghost predicate Clears(bids: seq<Order>, asks: seq<Order>, v: nat)
    requires AllOpen(bids) && AllOpen(asks)
  {
    && (forall p: nat :: Min(Demand(bids, p), Supply(asks, p)) <= v)
    && (exists p: nat :: Min(Demand(bids, p), Supply(asks, p)) == v)
  }

  /** Matching unit by unit until the first two units that do not meet clears the market. */
  lemma {:induction false} ClearingVolume(bids: seq<Order>, asks: seq<Order>, v: nat)
    requires AllOpen(bids) && AllOpen(asks) && Falling(bids) && Rising(asks)
    requires v <= Volume(bids) && v <= Volume(asks)
    requires forall x | 0 <= x < v :: Meets(bids, asks, x)
    requires !Meets(bids, asks, v)
    ensures Clears(bids, asks, v)
  {
    forall p: nat ensures Min(Demand(bids, p), Supply(asks, p)) <= v {
      if Demand(bids, p) > v && Supply(asks, p) > v {
        DemandWithinVolume(bids, p);
        SupplyWithinVolume(asks, p);
        UnitDemand(bids, p, v);
        UnitSupply(asks, p, v);
      }
    }
    if v > 0 {
      assert Meets(bids, asks, v - 1);
      var p := Unit(asks, v - 1).price;
      UnitDemand(bids, p, v - 1);
      UnitSupply(asks, p, v - 1);
      assert Min(Demand(bids, p), Supply(asks, p)) == v;
    } else {
      NoSupplyAbove(asks, 0);
      assert Min(Demand(bids, 0), Supply(asks, 0)) == 0;
    }
  }
}
