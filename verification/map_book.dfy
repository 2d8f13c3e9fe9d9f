/** The ordered-map order book (src/orderbook.rs): one map per side from an integer price tick to
    the level resting there, an incremental best-of tracker, and an admission gate that drops an
    event only when both its timestamp and its sequence number are older than the book's. */
module MapBook {
  import opened Wrappers
  import opened Seqs
  import opened Events
  import opened Levels

  // ---------------------------------------------------------------------------------------------
  // Ordered keys
  // ---------------------------------------------------------------------------------------------

  predicate IsMin(m: U64, s: set<U64>) {
    m in s && forall k :: k in s ==> m <= k
  }

  predicate IsMax(m: U64, s: set<U64>) {
    m in s && forall k :: k in s ==> k <= m
  }

  /** A non-empty finite set of keys has a smallest element. */
  lemma {:induction false} MinExists(s: set<U64>)
    requires s != {}
    ensures exists m :: IsMin(m, s)
    decreases |s|
  {
    assert |s| > 0;
    var x :| x in s;
    if s == {x} {
      assert IsMin(x, s);
    } else {
      MinExists(s - {x});
      var lo :| IsMin(lo, s - {x});
      var m := if x < lo then x else lo;
      forall k | k in s
        ensures m <= k
      {
        if k != x {
          assert k in s - {x};
        }
      }
      assert IsMin(m, s);
    }
  }

  /** A non-empty finite set of keys has a largest element. */
  lemma {:induction false} MaxExists(s: set<U64>)
    requires s != {}
    ensures exists m :: IsMax(m, s)
    decreases |s|
  {
    assert |s| > 0;
    var x :| x in s;
    if s == {x} {
      assert IsMax(x, s);
    } else {
      MaxExists(s - {x});
      var hi :| IsMax(hi, s - {x});
      var m := if x > hi then x else hi;
      forall k | k in s
        ensures k <= m
      {
        if k != x {
          assert k in s - {x};
        }
      }
      assert IsMax(m, s);
    }
  }

  /** The smallest key of a non-empty set (`BTreeMap::values().next()` reads the level stored under it). */
  function SetMin(s: set<U64>): (m: U64)
    requires s != {}
    ensures IsMin(m, s)
  {
    MinExists(s);
    var m :| IsMin(m, s);
    m
  }

  /** The largest key of a non-empty set (`values().next_back()`). */
  function SetMax(s: set<U64>): (m: U64)
    requires s != {}
    ensures IsMax(m, s)
  {
    MaxExists(s);
    var m :| IsMax(m, s);
    m
  }

  /** The keys of a set in ascending order: the iteration order of a `BTreeMap`. */
  function SortedKeys(s: set<U64>): (r: seq<U64>)
    ensures |r| == |s|
    ensures forall i, j :: 0 <= i < j < |r| ==> r[i] < r[j]
    ensures forall k :: k in s <==> k in r
    decreases |s|
  {
    if s == {} then []
    else
      var m := SetMin(s);
      [m] + SortedKeys(s - {m})
  }

  /** The key of the best level of a side: the largest tick for bids, the smallest for asks. */
  function ExtremeKey(side: Side, m: map<U64, Level>): (k: U64)
    requires m != map[]
    ensures k in m
    ensures forall k' :: k' in m ==> if side == Bid then k' <= k else k <= k'
  {
    assert m.Keys != {} by {
      var x :| x in m;
    }
    if side == Bid then SetMax(m.Keys) else SetMin(m.Keys)
  }

  /** The rescan of the best-of tracker: the level at the extreme key, or none on an empty side. */
  function Extreme(side: Side, m: map<U64, Level>): (r: Option<Level>)
    ensures r.None? <==> m == map[]
    ensures r.Some? ==> r.value == m[ExtremeKey(side, m)]
  {
    if m == map[] then None else Some(m[ExtremeKey(side, m)])
  }

  /** Tick `a` is a better price than tick `b` on `side`. */
  predicate KeyBefore(side: Side, a: U64, b: U64) {
    if side == Bid then a > b else a < b
  }

  /** All keys of a side from best to worst: descending for bids (`values().rev()`), ascending for asks. */
  function BestFirst(side: Side, m: map<U64, Level>): (r: seq<U64>)
    ensures |r| == |m|
    ensures forall k :: k in m <==> k in r
    ensures forall i, j :: 0 <= i < j < |r| ==> KeyBefore(side, r[i], r[j])
  {
    var asc := SortedKeys(m.Keys);
    BestFirstOrders(side, m, asc);
    if side == Ask then asc else Reverse(asc)
  }

  lemma BestFirstOrders(side: Side, m: map<U64, Level>, asc: seq<U64>)
    requires asc == SortedKeys(m.Keys)
    ensures var r := if side == Ask then asc else Reverse(asc);
      && |r| == |m|
      && (forall k :: k in m <==> k in r)
      && (forall i, j :: 0 <= i < j < |r| ==> KeyBefore(side, r[i], r[j]))
  {
    assert |m.Keys| == |m|;
    if side == Bid {
      ReverseDescends(asc);
    }
  }

  lemma ReverseDescends(asc: seq<U64>)
    requires forall i, j :: 0 <= i < j < |asc| ==> asc[i] < asc[j]
    ensures forall k :: k in asc <==> k in Reverse(asc)
    ensures forall i, j :: 0 <= i < j < |asc| ==> Reverse(asc)[i] > Reverse(asc)[j]
  {
    var r := Reverse(asc);
    forall k | k in r
      ensures k in asc
    {
      var j :| 0 <= j < |r| && r[j] == k;
      assert r[j] == asc[|asc| - 1 - j];
    }
    forall k | k in asc
      ensures k in r
    {
      var j :| 0 <= j < |asc| && asc[j] == k;
      assert r[|asc| - 1 - j] == k;
    }
  }

  /** The first `n` keys of a side from best to worst. */
  function TopKeys(side: Side, m: map<U64, Level>, n: nat): (ks: seq<U64>)
    ensures |ks| == Min(n, |m|)
    ensures forall i :: 0 <= i < |ks| ==> ks[i] in m
    ensures forall i, j :: 0 <= i < j < |ks| ==> KeyBefore(side, ks[i], ks[j])
    ensures forall k, i :: k in m && k !in ks && 0 <= i < |ks| ==> KeyBefore(side, ks[i], k)
  {
    var ordered := BestFirst(side, m);
    TakeOfOrdered(side, m, ordered, n);
    Take(ordered, n)
  }

  /** A prefix of the keys listed from best to worst holds the best keys of the map. */
  lemma TakeOfOrdered(side: Side, m: map<U64, Level>, ordered: seq<U64>, n: nat)
    requires |ordered| == |m|
    requires forall k :: k in m <==> k in ordered
    requires forall i, j :: 0 <= i < j < |ordered| ==> KeyBefore(side, ordered[i], ordered[j])
    ensures var ks := Take(ordered, n);
      && |ks| == Min(n, |m|)
      && (forall i :: 0 <= i < |ks| ==> ks[i] in m)
      && (forall i, j :: 0 <= i < j < |ks| ==> KeyBefore(side, ks[i], ks[j]))
      && (forall k, i :: k in m && k !in ks && 0 <= i < |ks| ==> KeyBefore(side, ks[i], k))
  {
    var ks := Take(ordered, n);
    forall i | 0 <= i < |ks|
      ensures ks[i] in m
    {
      assert ks[i] == ordered[i];
    }
    forall k, i | k in m && k !in ks && 0 <= i < |ks|
      ensures KeyBefore(side, ks[i], k)
    {
      var j :| 0 <= j < |ordered| && ordered[j] == k;
      assert ks[i] == ordered[i];
    }
  }

  // ---------------------------------------------------------------------------------------------
  // The book
  // ---------------------------------------------------------------------------------------------

  datatype Book = Book(
    bestBid: Option<Level>, bestAsk: Option<Level>,
    bids: map<U64, Level>, asks: map<U64, Level>,
    lastUpdated: U64, lastSequence: U64,
    invTickSize: real)
  {
    function Depth(side: Side): map<U64, Level> {
      if side == Bid then bids else asks
    }

    function Best(side: Side): Option<Level> {
      if side == Bid then bestBid else bestAsk
    }

    /** This book with one side's levels and best replaced. */
    function With(side: Side, depth: map<U64, Level>, best: Option<Level>): Book {
      if side == Bid then this.(bids := depth, bestBid := best) else this.(asks := depth, bestAsk := best)
    }

    /** This book with one side's levels replaced. */
    function WithDepth(side: Side, depth: map<U64, Level>): Book {
      With(side, depth, Best(side))
    }
  }

  /** `Orderbook::new`: an empty book that keys prices by multiples of `tickSize`. */
  function New(tickSize: real): (b: Book)
    requires tickSize > 0.0
    ensures b.invTickSize * tickSize == 1.0
    ensures b.bids == map[] && b.asks == map[] && b.bestBid.None? && b.bestAsk.None?
    ensures b.lastUpdated == 0 && b.lastSequence == 0
  {
    Book(None, None, map[], map[], 0, 0, 1.0 / tickSize)
  }

  /** The tick key of a price: the number of whole ticks in it. The source computes it at
      src/orderbook.rs:106 as `event.price_ticks(inv_tick_size)`; see `PriceKeyAsWritten`. */
  function PriceKey(b: Book, price: real): U64 {
    Ticks(price, b.invTickSize)
  }

  /** The key as the source computes it: `price_ticks` divides by its argument, so passing it the
      inverse tick size yields `price * tick_size` ticks. */
  function PriceKeyAsWritten(b: Book, e: Event): U64 {
    PriceTicks(e, b.invTickSize)
  }

  lemma PriceKeyMonotone(b: Book, p: real, q: real)
    requires b.invTickSize > 0.0 && p <= q
    ensures PriceKey(b, p) <= PriceKey(b, q)
  {
    TicksMonotone(p, q, b.invTickSize);
  }

  /** Prices at least one tick apart get different keys (within the `u64` range). */
  lemma PriceKeySeparatesTicks(b: Book, p: real, q: real)
    requires b.invTickSize > 0.0
    requires 0.0 <= p * b.invTickSize && q * b.invTickSize < U64Limit as real
    requires (q - p) * b.invTickSize >= 1.0
    ensures PriceKey(b, p) < PriceKey(b, q)
  {
    assert q * b.invTickSize >= p * b.invTickSize + 1.0;
  }

  /** The admission gate of src/orderbook.rs: an event is dropped only when it is older on both counts. */
  predicate Stale(b: Book, e: Event) {
    e.timestamp < b.lastUpdated && e.sequence < b.lastSequence
  }

  /** `Orderbook::process`. */
  function Process(b: Book, e: Event): (r: Book)
    ensures Stale(b, e) ==> r == b
    ensures !Stale(b, e) ==> r.lastUpdated == e.timestamp && r.lastSequence == e.sequence
    ensures !Stale(b, e) ==>
      r.(lastUpdated := b.lastUpdated, lastSequence := b.lastSequence)
        == if e.isTrade then ProcessTrade(b, e) else ProcessLvl2(b, e)
  {
    if Stale(b, e) then b
    else
      var applied := if e.isTrade then ProcessTrade(b, e) else ProcessLvl2(b, e);
      applied.(lastUpdated := e.timestamp, lastSequence := e.sequence)
  }

  /** `Orderbook::process_stream_bbo`: apply the event and report the best pair when it changed. */
  function ProcessStreamBbo(b: Book, e: Event): (r: (Book, Option<Bbo>))
    ensures r.0 == Process(b, e)
    ensures r.1.Some? <==> (r.0.bestBid, r.0.bestAsk) != (b.bestBid, b.bestAsk)
    ensures r.1.Some? ==> r.1.value == (r.0.bestBid, r.0.bestAsk)
  {
    var next := Process(b, e);
    if b.bestBid != next.bestBid || b.bestAsk != next.bestAsk then (next, Some((next.bestBid, next.bestAsk)))
    else (next, None)
  }

  /** `Orderbook::process_lvl2` at the key the book uses, the whole number of ticks in the price;
      only the event's side changes. */
  function ProcessLvl2(b: Book, e: Event): (r: Book)
    ensures r.lastUpdated == b.lastUpdated && r.lastSequence == b.lastSequence && r.invTickSize == b.invTickSize
    ensures r.Depth(SideOf(e).Other()) == b.Depth(SideOf(e).Other())
    ensures r.Best(SideOf(e).Other()) == b.Best(SideOf(e).Other())
    ensures (r.Depth(SideOf(e)), r.Best(SideOf(e)))
      == DepthUpdate(SideOf(e), b.Depth(SideOf(e)), b.Best(SideOf(e)), e, Ticks(e.price, b.invTickSize))
  {
    ApplyDepth(b, e, PriceKey(b, e.price))
  }

  /** `Orderbook::process_lvl2` at the key src/orderbook.rs:106 computes, `price * tick_size` ticks;
      only the event's side changes. */
  function ProcessLvl2AsWritten(b: Book, e: Event): (r: Book)
    ensures r.lastUpdated == b.lastUpdated && r.lastSequence == b.lastSequence && r.invTickSize == b.invTickSize
    ensures r.Depth(SideOf(e).Other()) == b.Depth(SideOf(e).Other())
    ensures r.Best(SideOf(e).Other()) == b.Best(SideOf(e).Other())
    ensures (r.Depth(SideOf(e)), r.Best(SideOf(e)))
      == DepthUpdate(SideOf(e), b.Depth(SideOf(e)), b.Best(SideOf(e)), e, PriceTicks(e, b.invTickSize))
  {
    ApplyDepth(b, e, PriceKeyAsWritten(b, e))
  }

  /** A depth update at tick `key` on the event's side; the other side and the gate fields stay. */
  function ApplyDepth(b: Book, e: Event, key: U64): Book {
    var side := SideOf(e);
    var (depth, best) := DepthUpdate(side, b.Depth(side), b.Best(side), e, key);
    b.With(side, depth, best)
  }

  /** One side's levels `m` and best `best` after a depth update at tick `key`: a zero size removes
      the level, any other size upserts it, and the best follows the one-sided rule. */
  function DepthUpdate(side: Side, m: map<U64, Level>, best: Option<Level>, e: Event, key: U64)
    : (r: (map<U64, Level>, Option<Level>))
    // A zero size removes exactly that key, and is a no-op when the key is absent.
    ensures e.size == 0.0 && key !in m ==> r == (m, best)
    ensures e.size == 0.0 && key in m ==> r.0 == m - {key}
    // The best is rescanned only when the removed level carried the best price.
    ensures e.size == 0.0 && key in m ==>
      r.1 == if best.Some? && m[key].price == best.value.price then Extreme(side, r.0) else best
    // Any other size: a new key stores the event's level, an existing key only takes the new size.
    ensures e.size != 0.0 ==> r.0.Keys == m.Keys + {key}
    ensures e.size != 0.0 && key !in m ==> r.0[key] == FromEvent(e)
    ensures e.size != 0.0 && key in m ==> r.0[key] == m[key].(size := e.size)
    ensures e.size != 0.0 ==> forall k :: k in m && k != key ==> r.0[k] == m[k]
    // The best becomes the event's level when absent or no better than the event's price; no rescan.
    ensures e.size != 0.0 ==>
      r.1 == if best.None? || AtLeastAsGood(side, e.price, best.value.price) then Some(FromEvent(e)) else best
  {
    if e.size == 0.0 then
      if key in m then
        var removed := m[key];
        var rest := m - {key};
        if best.Some? && removed.price == best.value.price then (rest, Extreme(side, rest))
        else (rest, best)
      else (m, best)
    else
      var updated := if key in m then m[key := m[key].(size := e.size)] else m[key := FromEvent(e)];
      if best.None? || AtLeastAsGood(side, e.price, best.value.price) then (updated, Some(FromEvent(e)))
      else (updated, best)
  }

  /** `Orderbook::process_trade`: a trade consumes the level at its price, and never moves the best. */
  function ProcessTrade(b: Book, e: Event): (r: Book)
    ensures r.bestBid == b.bestBid && r.bestAsk == b.bestAsk
    ensures r == b.WithDepth(SideOf(e), r.Depth(SideOf(e)))
    ensures r.Depth(SideOf(e)) == TradeUpdate(b.Depth(SideOf(e)), e, PriceKey(b, e.price))
  {
    var side := SideOf(e);
    b.WithDepth(side, TradeUpdate(b.Depth(side), e, PriceKey(b, e.price)))
  }

  /** `Orderbook::process_trade` at the key src/orderbook.rs:168 computes, `price * tick_size`
      ticks: the trade consumes whatever level that key holds. */
  function ProcessTradeAsWritten(b: Book, e: Event): (r: Book)
    ensures r.bestBid == b.bestBid && r.bestAsk == b.bestAsk
    ensures r == b.WithDepth(SideOf(e), r.Depth(SideOf(e)))
    ensures r.Depth(SideOf(e)) == TradeUpdate(b.Depth(SideOf(e)), e, PriceTicks(e, b.invTickSize))
  {
    var side := SideOf(e);
    b.WithDepth(side, TradeUpdate(b.Depth(side), e, PriceKeyAsWritten(b, e)))
  }

  /** One side's levels after a trade at tick `key`. */
  function TradeUpdate(m: map<U64, Level>, e: Event, key: U64): (r: map<U64, Level>)
    ensures key !in m ==> r == m
    ensures key in m && e.size >= m[key].size ==> r == m - {key}
    ensures key in m && e.size < m[key].size ==>
      r.Keys == m.Keys && r[key].price == m[key].price && r[key].size == m[key].size - e.size
      && forall k :: k in m && k != key ==> r[k] == m[k]
  {
    if key in m then
      var level := m[key];
      if e.size >= level.size then m - {key}
      else m[key := level.(size := level.size - e.size)]
    else m
  }

  function BestBid(b: Book): Option<Level> {
    b.bestBid
  }

  function BestAsk(b: Book): Option<Level> {
    b.bestAsk
  }

  /** `top_bids(n)` and `top_asks(n)`: at most `n` levels of a side, best first. */
  function Top(b: Book, side: Side, n: nat): (r: seq<Level>)
    ensures |r| == Min(n, |b.Depth(side)|)
    ensures forall i :: 0 <= i < |r| ==> r[i] == b.Depth(side)[TopKeys(side, b.Depth(side), n)[i]]
  {
    var ks := TopKeys(side, b.Depth(side), n);
    seq(|ks|, i requires 0 <= i < |ks| => b.Depth(side)[ks[i]])
  }

  function TopBids(b: Book, n: nat): (r: seq<Level>)
    ensures r == Top(b, Bid, n)
  {
    Top(b, Bid, n)
  }

  function TopAsks(b: Book, n: nat): (r: seq<Level>)
    ensures r == Top(b, Ask, n)
  {
    Top(b, Ask, n)
  }

  /** `midprice`: defined only when both sides have a best level. */
  function Midprice(b: Book): (r: Option<real>)
    ensures r.Some? <==> b.bestBid.Some? && b.bestAsk.Some?
    ensures r.Some? ==> r.value == Midpoint(b.bestBid.value, b.bestAsk.value)
  {
    if b.bestBid.Some? && b.bestAsk.Some? then Some(Midpoint(b.bestBid.value, b.bestAsk.value)) else None
  }

  /** `weighted_midprice`: defined only when both sides have a best level. */
  function WeightedMidprice(b: Book): (r: Option<Quotient>)
    ensures r.Some? <==> b.bestBid.Some? && b.bestAsk.Some?
    ensures r.Some? ==> r.value == WeightedMid(b.bestBid.value, b.bestAsk.value)
  {
    if b.bestBid.Some? && b.bestAsk.Some? then Some(WeightedMid(b.bestBid.value, b.bestAsk.value)) else None
  }

  // ---------------------------------------------------------------------------------------------
  // Properties
  // ---------------------------------------------------------------------------------------------

  /** An admitted event sets both gate fields even when it changes no level, so an event older on
      one field only moves `lastUpdated` (or `lastSequence`) backwards. */
  lemma GateCanMoveTimestampBackwards(b: Book, e: Event)
    requires e.timestamp < b.lastUpdated && e.sequence >= b.lastSequence
    ensures Process(b, e).lastUpdated == e.timestamp < b.lastUpdated
  {
  }

  /** Removing the same price twice leaves the book as removing it once. */
  lemma RemovalIdempotent(b: Book, e: Event)
    requires !e.isTrade && e.size == 0.0
    ensures Process(Process(b, e), e) == Process(b, e)
  {
    var b1 := Process(b, e);
    if !Stale(b, e) {
      assert !Stale(b1, e);
      var side := SideOf(e);
      var key := PriceKey(b, e.price);
      var once := ProcessLvl2(b, e);
      assert b1 == once.(lastUpdated := e.timestamp, lastSequence := e.sequence);
      assert key !in once.Depth(side);
      assert PriceKey(b1, e.price) == key;
      assert ProcessLvl2(b1, e) == b1;
    }
  }

  /** The best of a side is its extreme level, as a full rescan would compute it. */
  predicate Consistent(side: Side, m: map<U64, Level>, best: Option<Level>) {
    best == Extreme(side, m)
  }

  /** Every level of a side is stored under the key of its own price. */
  predicate OnGrid(b: Book, m: map<U64, Level>) {
    forall k :: k in m ==> PriceKey(b, m[k].price) == k
  }

  lemma KeyOrderIsPriceOrder(b: Book, side: Side, p: real, q: real)
    requires b.invTickSize > 0.0
    requires KeyBefore(side, PriceKey(b, p), PriceKey(b, q))
    ensures Better(side, p, q)
  {
    if side == Bid && p <= q {
      PriceKeyMonotone(b, p, q);
    }
    if side == Ask && q <= p {
      PriceKeyMonotone(b, q, p);
    }
  }

  lemma RemovalKeepsBestConsistent(b: Book, side: Side, m: map<U64, Level>, best: Option<Level>, e: Event)
    requires e.size == 0.0 && Consistent(side, m, best)
    ensures Consistent(side, DepthUpdate(side, m, best, e, PriceKey(b, e.price)).0,
      DepthUpdate(side, m, best, e, PriceKey(b, e.price)).1)
  {
    var key := PriceKey(b, e.price);
    if key in m {
      var top := ExtremeKey(side, m);
      if m[key].price != best.value.price {
        assert key != top;
        var m' := m - {key};
        assert top in m';
        assert ExtremeKey(side, m') == top;
      }
    }
  }

  lemma UpsertKeepsBestConsistent(b: Book, side: Side, m: map<U64, Level>, best: Option<Level>, e: Event)
    requires e.size != 0.0 && b.invTickSize > 0.0
    requires Consistent(side, m, best) && OnGrid(b, m)
    requires PriceKey(b, e.price) in m ==> m[PriceKey(b, e.price)].price == e.price
    ensures Consistent(side, DepthUpdate(side, m, best, e, PriceKey(b, e.price)).0,
      DepthUpdate(side, m, best, e, PriceKey(b, e.price)).1)
    ensures OnGrid(b, DepthUpdate(side, m, best, e, PriceKey(b, e.price)).0)
  {
    UpsertKeepsOnGrid(b, side, m, best, e);
    UpsertKeepsExtreme(b, side, m, best, e);
  }

  /** An upsert stores its level under the key of its own price; a second price inside a held
      tick only changes the size of the level already there, whose price is on the grid. */
  lemma UpsertKeepsOnGrid(b: Book, side: Side, m: map<U64, Level>, best: Option<Level>, e: Event)
    requires e.size != 0.0 && OnGrid(b, m)
    ensures OnGrid(b, DepthUpdate(side, m, best, e, PriceKey(b, e.price)).0)
  {
    var key := PriceKey(b, e.price);
    var m' := DepthUpdate(side, m, best, e, key).0;
    forall k | k in m'
      ensures PriceKey(b, m'[k].price) == k
    {
      if k != key {
        assert m'[k] == m[k];
      }
    }
  }

  /** An upsert keeps the best equal to the level at the extreme key. */
  lemma UpsertKeepsExtreme(b: Book, side: Side, m: map<U64, Level>, best: Option<Level>, e: Event)
    requires e.size != 0.0 && b.invTickSize > 0.0
    requires Consistent(side, m, best) && OnGrid(b, m)
    requires PriceKey(b, e.price) in m ==> m[PriceKey(b, e.price)].price == e.price
    ensures Consistent(side, DepthUpdate(side, m, best, e, PriceKey(b, e.price)).0,
      DepthUpdate(side, m, best, e, PriceKey(b, e.price)).1)
  {
    var key := PriceKey(b, e.price);
    var m' := DepthUpdate(side, m, best, e, key).0;
    assert key in m';
    if m == map[] {
      assert forall k :: k in m' ==> k == key;
      assert ExtremeKey(side, m') == key;
    } else {
      var top := ExtremeKey(side, m);
      var cur := best.value;
      assert cur == m[top];
      if KeyBefore(side, key, top) {
        KeyOrderIsPriceOrder(b, side, e.price, cur.price);
        assert ExtremeKey(side, m') == key;
      } else if key == top {
        assert ExtremeKey(side, m') == key;
      } else {
        KeyOrderIsPriceOrder(b, side, cur.price, e.price);
        assert top in m';
        assert ExtremeKey(side, m') == top;
      }
    }
  }

  /** The one-sided best-of rule is exact for depth updates: when the best is the extreme level and
      every level sits under its own price's key, a depth update whose price matches the level
      already stored at its key (if any) keeps the best equal to a full rescan. */
  lemma DepthUpdateKeepsBestConsistent(b: Book, e: Event)
    requires !e.isTrade && b.invTickSize > 0.0
    requires Consistent(SideOf(e), b.Depth(SideOf(e)), b.Best(SideOf(e))) && OnGrid(b, b.Depth(SideOf(e)))
    requires PriceKey(b, e.price) in b.Depth(SideOf(e)) ==> b.Depth(SideOf(e))[PriceKey(b, e.price)].price == e.price
    ensures
      var r := Process(b, e);
      && Consistent(SideOf(e), r.Depth(SideOf(e)), r.Best(SideOf(e)))
      && r.invTickSize == b.invTickSize && OnGrid(b, r.Depth(SideOf(e)))
  {
    var side := SideOf(e);
    if e.size == 0.0 {
      RemovalKeepsBestConsistent(b, side, b.Depth(side), b.Best(side), e);
    } else {
      UpsertKeepsBestConsistent(b, side, b.Depth(side), b.Best(side), e);
    }
    DepthEventUpdatesItsSide(b, e);
  }

  /** The best-of rule needs every price of a tick to be one price. With a tick of 0.01, a bid at
      16.004 on a book holding a bid at 16.001 (both tick 1600) only changes the stored level's
      size, yet becomes the best bid, which no stored level carries. A later removal at that tick
      finds a stored price other than the best's and does not rescan, so the emptied side keeps
      a best. */
  lemma SecondPriceInTickLeavesBestUnheld()
    ensures
      var b := Book(Some(Level(16.001, 1.0)), None, map[1600 := Level(16.001, 1.0)], map[], 0, 0, 100.0);
      var r := Process(b, Event(1, 1, false, true, 16.004, 2.0));
      var r2 := Process(r, Event(2, 2, false, true, 16.004, 0.0));
      && Consistent(Bid, b.bids, b.bestBid) && OnGrid(b, b.bids)
      && r.bids == map[1600 := Level(16.001, 2.0)] && r.bestBid == Some(Level(16.004, 2.0))
      && !Consistent(Bid, r.bids, r.bestBid)
      && r2.bids == map[] && r2.bestBid == Some(Level(16.004, 2.0))
  {
    var b := Book(Some(Level(16.001, 1.0)), None, map[1600 := Level(16.001, 1.0)], map[], 0, 0, 100.0);
    assert PriceKey(b, 16.001) == 1600 && PriceKey(b, 16.004) == 1600;
    assert 1600 in b.bids;
    assert ExtremeKey(Bid, b.bids) == 1600;
    var r := Process(b, Event(1, 1, false, true, 16.004, 2.0));
    assert r.bids == map[1600 := Level(16.001, 2.0)];
    assert 1600 in r.bids;
    assert ExtremeKey(Bid, r.bids) == 1600;
    assert r.bids - {1600} == map[];
  }

  /** An admitted depth event replaces its side's levels and best by `DepthUpdate`'s result and keeps
      the tick size. */
  lemma DepthEventUpdatesItsSide(b: Book, e: Event)
    requires !e.isTrade
    ensures
      var r := Process(b, e);
      var upd := DepthUpdate(SideOf(e), b.Depth(SideOf(e)), b.Best(SideOf(e)), e, PriceKey(b, e.price));
      && r.invTickSize == b.invTickSize
      && (!Stale(b, e) ==> r.Depth(SideOf(e)) == upd.0 && r.Best(SideOf(e)) == upd.1)
      && (Stale(b, e) ==> r == b)
  {
  }

  /** Trades never touch the best, so exhausting the best level leaves a best the side no longer holds. */
  lemma TradeCanLeaveBestStale()
    ensures
      var b := Book(Some(Level(16.0, 1.0)), None, map[1600 := Level(16.0, 1.0)], map[], 0, 0, 100.0);
      var r := Process(b, Event(0, 0, true, true, 16.0, 1.0));
      r.bids == map[] && r.bestBid == Some(Level(16.0, 1.0))
  {
    var b := Book(Some(Level(16.0, 1.0)), None, map[1600 := Level(16.0, 1.0)], map[], 0, 0, 100.0);
    assert PriceKey(b, 16.0) == 1600;
  }

  /** A trade keeps every level under the key of its own price, and never adds a key. */
  lemma TradeKeepsOnGrid(b: Book, m: map<U64, Level>, e: Event)
    requires OnGrid(b, m)
    ensures OnGrid(b, TradeUpdate(m, e, PriceKey(b, e.price)))
    ensures TradeUpdate(m, e, PriceKey(b, e.price)).Keys <= m.Keys
  {
  }

  /** As written, a trade at 7.0 on a book with tick size 0.01 looks up key 0, where the bid at 16.0
      is stored, and consumes that level. At the book's own key 700 it finds nothing, and the bid
      at 16.0 stays. */
  lemma TradeKeyAsWrittenHitsOtherLevel()
    ensures
      var e16 := Event(0, 0, false, true, 16.0, 1.0);
      var t7 := Event(0, 0, true, true, 7.0, 1.0);
      && ProcessTradeAsWritten(ProcessLvl2AsWritten(New(0.01), e16), t7).bids == map[]
      && ProcessTrade(ProcessLvl2(New(0.01), e16), t7).bids == map[1600 := Level(16.0, 1.0)]
  {
    var b := New(0.01);
    var e16 := Event(0, 0, false, true, 16.0, 1.0);
    var t7 := Event(0, 0, true, true, 7.0, 1.0);
    assert b.invTickSize == 100.0;
    assert PriceKeyAsWritten(b, e16) == 0 && PriceKeyAsWritten(b, t7) == 0;
    assert PriceKey(b, 16.0) == 1600 && PriceKey(b, 7.0) == 700;
    assert ProcessLvl2AsWritten(b, e16).bids == map[0 := Level(16.0, 1.0)];
    assert ProcessLvl2(b, e16).bids == map[1600 := Level(16.0, 1.0)];
  }

  /** As written, a tick size of 0.01 puts the bids at 16.0 and 7.0 under the same key 0, so the
      second update only overwrites the size of the first and the book shows one level. */
  lemma KeyAsWrittenMergesLevels()
    ensures
      var b := New(0.01);
      var e16 := Event(0, 0, false, true, 16.0, 1.0);
      var e7 := Event(0, 0, false, true, 7.0, 1.0);
      && PriceKeyAsWritten(b, e16) == 0 && PriceKeyAsWritten(b, e7) == 0
      && TopBids(ProcessLvl2AsWritten(ProcessLvl2AsWritten(b, e16), e7), 5) == [Level(16.0, 1.0)]
  {
    var b := New(0.01);
    var e16 := Event(0, 0, false, true, 16.0, 1.0);
    var e7 := Event(0, 0, false, true, 7.0, 1.0);
    assert b.invTickSize == 100.0;
    var b2 := ProcessLvl2AsWritten(ProcessLvl2AsWritten(b, e16), e7);
    assert b2.bids == map[0 := Level(16.0, 1.0)];
    var ks := TopKeys(Bid, b2.bids, 5);
    assert |ks| == 1 && ks[0] in b2.bids;
  }

  lemma TwoBidsStored()
    ensures
      var b := New(0.01);
      ProcessLvl2(ProcessLvl2(b, Event(0, 0, false, true, 16.0, 1.0)), Event(0, 0, false, true, 7.0, 1.0)).bids
        == map[1600 := Level(16.0, 1.0), 700 := Level(7.0, 1.0)]
  {
    var b := New(0.01);
    assert b.invTickSize == 100.0;
    assert PriceKey(b, 16.0) == 1600 && PriceKey(b, 7.0) == 700;
  }

  /** With the tick key the book uses, the same two updates give two levels, best first. */
  lemma KeyKeepsLevelsApart()
    ensures
      var b := New(0.01);
      var e16 := Event(0, 0, false, true, 16.0, 1.0);
      var e7 := Event(0, 0, false, true, 7.0, 1.0);
      TopBids(ProcessLvl2(ProcessLvl2(b, e16), e7), 5) == [Level(16.0, 1.0), Level(7.0, 1.0)]
  {
    var b2 := ProcessLvl2(ProcessLvl2(New(0.01), Event(0, 0, false, true, 16.0, 1.0)), Event(0, 0, false, true, 7.0, 1.0));
    TwoBidsStored();
    TwoBidsShape(b2.bids);
    TopOfTwoBids(b2, 1600, 700, 5);
  }

  /** A bid side with exactly two keys shows both levels, the higher key first. */
  lemma TopOfTwoBids(b: Book, hi: U64, lo: U64, n: nat)
    requires hi in b.bids && lo in b.bids && lo < hi && n >= 2
    requires forall k :: k in b.bids ==> k == hi || k == lo
    ensures TopBids(b, n) == [b.bids[hi], b.bids[lo]]
  {
    var m: map<U64, Level> := b.bids;
    assert b.Depth(Bid) == m;
    TwoKeysBestFirst(m, hi, lo, n);
    var r := Top(b, Bid, n);
    PairIs(r, m[hi], m[lo]);
  }

  lemma PairIs(r: seq<Level>, x: Level, y: Level)
    requires |r| == 2 && r[0] == x && r[1] == y
    ensures r == [x, y]
  {
  }

  lemma TwoBidsShape(m: map<U64, Level>)
    requires m == map[1600 := Level(16.0, 1.0), 700 := Level(7.0, 1.0)]
    ensures 1600 in m && 700 in m && m[1600] == Level(16.0, 1.0) && m[700] == Level(7.0, 1.0)
    ensures forall k :: k in m ==> k == 1600 || k == 700
  {
  }

  /** A side with two keys lists the higher one first. */
  lemma TwoKeysBestFirst(m: map<U64, Level>, hi: U64, lo: U64, n: nat)
    requires hi in m && lo in m && lo < hi && n >= 2
    requires forall k :: k in m ==> k == hi || k == lo
    ensures |m| == 2
    ensures TopKeys(Bid, m, n) == [hi, lo]
  {
    TwoKeys(m, hi, lo);
    var ks := TopKeys(Bid, m, n);
    DescendingPair(ks, hi, lo);
  }

  lemma TwoKeys(m: map<U64, Level>, hi: U64, lo: U64)
    requires hi in m && lo in m && lo < hi
    requires forall k :: k in m ==> k == hi || k == lo
    ensures |m| == 2
  {
    assert m.Keys == {hi} + {lo};
    assert |m.Keys| == |m|;
  }

  lemma DescendingPair(ks: seq<U64>, hi: U64, lo: U64)
    requires |ks| == 2 && lo < hi
    requires ks[0] in {hi, lo} && ks[1] in {hi, lo} && ks[0] > ks[1]
    ensures ks == [hi, lo]
  {
  }
}
