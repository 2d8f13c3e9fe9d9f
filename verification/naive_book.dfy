/** The reference order book (src/naive_orderbook.rs): each side is a vector of levels kept in
    ascending price order, searched linearly and re-sorted after every upsert. Its admission gate
    drops an event that is older on either count. */
module NaiveBook {
  import opened Wrappers
  import opened Seqs
  import opened Events
  import opened Levels

  // ---------------------------------------------------------------------------------------------
  // Vectors of levels
  // ---------------------------------------------------------------------------------------------

  /** Prices never decrease along `s`. */
  predicate SortedByPrice(s: seq<Level>) {
    forall i, j :: 0 <= i < j < |s| ==> s[i].price <= s[j].price
  }

  /** Prices strictly increase along `s`: sorted, and no price appears twice. */
  predicate Ascending(s: seq<Level>) {
    forall i, j :: 0 <= i < j < |s| ==> s[i].price < s[j].price
  }

  /** Some level of `s` rests at `price`. */
  predicate HasPrice(s: seq<Level>, price: real) {
    exists i :: 0 <= i < |s| && s[i].price == price
  }

  /** `iter().position(|x| x.price == price)`: the first index holding `price`. */
  function PositionOf(s: seq<Level>, price: real): (r: Option<nat>)
    ensures r.None? <==> !HasPrice(s, price)
    ensures r.Some? ==> r.value < |s| && s[r.value].price == price
    ensures r.Some? ==> forall i :: 0 <= i < r.value ==> s[i].price != price
  {
    if s == [] then None
    else if s[0].price == price then Some(0)
    else
      match PositionOf(s[1..], price)
      case None =>
        assert forall i :: 1 <= i < |s| ==> s[i] == s[1..][i - 1];
        None
      case Some(i) =>
        assert s[i + 1] == s[1..][i];
        Some(i + 1)
  }

  /** `Vec::remove(i)`: the elements before `i` stay put, those after it move down one place. */
  function RemoveAt(s: seq<Level>, i: nat): (r: seq<Level>)
    requires i < |s|
    ensures |r| == |s| - 1
    ensures forall j :: 0 <= j < i ==> r[j] == s[j]
    ensures forall j :: i <= j < |r| ==> r[j] == s[j + 1]
  {
    s[..i] + s[i + 1..]
  }

  /** Stable insertion of `x`: after every level whose price is not above it, before the first
      level whose price is. */
  function InsertByPrice(x: Level, s: seq<Level>): (r: seq<Level>)
    ensures |r| == |s| + 1
    ensures multiset(r) == multiset(s) + multiset{x}
    ensures forall y :: y in r <==> y == x || y in s
  {
    if s == [] then [x]
    else if x.price < s[0].price then [x] + s
    else
      assert s == [s[0]] + s[1..];
      [s[0]] + InsertByPrice(x, s[1..])
  }

  lemma {:induction false} InsertKeepsSorted(x: Level, s: seq<Level>)
    requires SortedByPrice(s)
    ensures SortedByPrice(InsertByPrice(x, s))
  {
    if s != [] && x.price >= s[0].price {
      InsertKeepsSorted(x, s[1..]);
      var rest := InsertByPrice(x, s[1..]);
      var r := InsertByPrice(x, s);
      assert r == [s[0]] + rest;
      forall j | 0 <= j < |rest|
        ensures s[0].price <= rest[j].price
      {
        assert rest[j] in rest;
        if rest[j] != x {
          var k :| 0 <= k < |s[1..]| && s[1..][k] == rest[j];
          assert s[1..][k] == s[k + 1];
        }
      }
      forall i, j | 0 <= i < j < |r|
        ensures r[i].price <= r[j].price
      {
        assert r[j] == rest[j - 1];
        if i > 0 {
          assert r[i] == rest[i - 1];
        }
      }
    }
  }

  /** `sort_by` on price: a stable sort, modelled as insertion sort. */
  function SortByPrice(s: seq<Level>): (r: seq<Level>)
    ensures SortedByPrice(r)
    ensures multiset(r) == multiset(s)
    ensures |r| == |s|
  {
    if s == [] then []
    else
      var n := |s| - 1;
      assert s == s[..n] + [s[n]];
      var sorted := SortByPrice(s[..n]);
      InsertKeepsSorted(s[n], sorted);
      InsertByPrice(s[n], sorted)
  }

  // ---------------------------------------------------------------------------------------------
  // The book
  // ---------------------------------------------------------------------------------------------

  datatype Book = Book(
    bestBid: Option<Level>, bestAsk: Option<Level>,
    bids: seq<Level>, asks: seq<Level>,
    lastUpdated: U64, lastSequence: U64)
  {
    function Depth(side: Side): seq<Level> {
      if side == Bid then bids else asks
    }

    function Best(side: Side): Option<Level> {
      if side == Bid then bestBid else bestAsk
    }

    /** This book with one side's levels and best replaced. */
    function With(side: Side, depth: seq<Level>, best: Option<Level>): Book {
      if side == Bid then this.(bids := depth, bestBid := best) else this.(asks := depth, bestAsk := best)
    }
  }

  function New(): (b: Book)
    ensures b.bids == [] && b.asks == [] && b.bestBid.None? && b.bestAsk.None?
    ensures b.lastUpdated == 0 && b.lastSequence == 0
  {
    Book(None, None, [], [], 0, 0)
  }

  /** The admission gate: an event older than the book on either count is dropped. */
  predicate Stale(b: Book, e: Event) {
    e.timestamp < b.lastUpdated || e.sequence < b.lastSequence
  }

  /** `Orderbook::process`. */
  function Process(b: Book, e: Event): (r: Book)
    ensures Stale(b, e) ==> r == b
    ensures !Stale(b, e) ==> r.lastUpdated == e.timestamp && r.lastSequence == e.sequence
    ensures !Stale(b, e) ==>
      r.(lastUpdated := b.lastUpdated, lastSequence := b.lastSequence)
        == if e.isTrade then ProcessTrade(b, e) else ProcessLvl2(b, e)
  {
    if Stale(b, e) then b
    else
      var applied := if e.isTrade then ProcessTrade(b, e) else ProcessLvl2(b, e);
      applied.(lastUpdated := e.timestamp, lastSequence := e.sequence)
  }

  /** `Orderbook::process_stream_bbo`: apply the event and report the best pair when it changed. */
  function ProcessStreamBbo(b: Book, e: Event): (r: (Book, Option<Bbo>))
    ensures r.0 == Process(b, e)
    ensures r.1.Some? <==> (r.0.bestBid, r.0.bestAsk) != (b.bestBid, b.bestAsk)
    ensures r.1.Some? ==> r.1.value == (r.0.bestBid, r.0.bestAsk)
  {
    var next := Process(b, e);
    if b.bestBid != next.bestBid || b.bestAsk != next.bestAsk then (next, Some((next.bestBid, next.bestAsk)))
    else (next, None)
  }

  /** `Orderbook::process_lvl2`: a depth update on the event's side. */
  function ProcessLvl2(b: Book, e: Event): (r: Book)
    ensures r.lastUpdated == b.lastUpdated && r.lastSequence == b.lastSequence
    ensures r.Depth(SideOf(e).Other()) == b.Depth(SideOf(e).Other())
    ensures r.Best(SideOf(e).Other()) == b.Best(SideOf(e).Other())
    ensures (r.Depth(SideOf(e)), r.Best(SideOf(e))) == DepthUpdate(SideOf(e), b.Depth(SideOf(e)), b.Best(SideOf(e)), e)
  {
    var side := SideOf(e);
    var (depth, best) := DepthUpdate(side, b.Depth(side), b.Best(side), e);
    b.With(side, depth, best)
  }

  /** The vector `s` with the event's level stored at its price: over the level already there, or
      pushed at the back. */
  function Upserted(s: seq<Level>, e: Event): (r: seq<Level>)
    ensures PositionOf(s, e.price).Some? ==> r == s[PositionOf(s, e.price).value := FromEvent(e)]
    ensures PositionOf(s, e.price).None? ==> r == s + [FromEvent(e)]
  {
    match PositionOf(s, e.price)
    case Some(i) => s[i := FromEvent(e)]
    case None => s + [FromEvent(e)]
  }

  /** One side's levels `s` and best `best` after a depth update. A zero size removes the first level
      at the price and never moves the best; any other size upserts the level, moves the best by the
      one-sided rule, and re-sorts, except when the side had no best yet. */
  function DepthUpdate(side: Side, s: seq<Level>, best: Option<Level>, e: Event): (r: (seq<Level>, Option<Level>))
    ensures e.size == 0.0 ==> r.1 == best
    ensures e.size == 0.0 && !HasPrice(s, e.price) ==> r.0 == s
    ensures e.size == 0.0 && HasPrice(s, e.price) ==> r.0 == RemoveAt(s, PositionOf(s, e.price).value)
    ensures e.size != 0.0 ==>
      r.1 == if best.None? || AtLeastAsGood(side, e.price, best.value.price) then Some(FromEvent(e)) else best
    ensures e.size != 0.0 && best.None? ==> r.0 == Upserted(s, e)
    ensures e.size != 0.0 && best.Some? ==> r.0 == SortByPrice(Upserted(s, e))
  {
    if e.size == 0.0 then
      match PositionOf(s, e.price)
      case Some(i) => (RemoveAt(s, i), best)
      case None => (s, best)
    else
      var upserted := Upserted(s, e);
      if best.None? then (upserted, Some(FromEvent(e)))
      else if AtLeastAsGood(side, e.price, best.value.price) then (SortByPrice(upserted), Some(FromEvent(e)))
      else (SortByPrice(upserted), best)
  }

  /** `Orderbook::process_trade`: a trade consumes the first level at its price and never moves the best. */
  function ProcessTrade(b: Book, e: Event): (r: Book)
    ensures r.bestBid == b.bestBid && r.bestAsk == b.bestAsk
    ensures r.lastUpdated == b.lastUpdated && r.lastSequence == b.lastSequence
    ensures r.Depth(SideOf(e).Other()) == b.Depth(SideOf(e).Other())
    ensures r.Depth(SideOf(e)) == TradeUpdate(b.Depth(SideOf(e)), e)
  {
    var side := SideOf(e);
    b.With(side, TradeUpdate(b.Depth(side), e), b.Best(side))
  }

  /** One side's levels after a trade: an exhausted level is removed, a larger one shrinks. */
  function TradeUpdate(s: seq<Level>, e: Event): (r: seq<Level>)
    ensures !HasPrice(s, e.price) ==> r == s
    ensures HasPrice(s, e.price) && e.size >= s[PositionOf(s, e.price).value].size ==>
      r == RemoveAt(s, PositionOf(s, e.price).value)
    ensures HasPrice(s, e.price) && e.size < s[PositionOf(s, e.price).value].size ==>
      var i := PositionOf(s, e.price).value;
      |r| == |s| && r[i] == Level(s[i].price, s[i].size - e.size)
      && forall j :: 0 <= j < |s| && j != i ==> r[j] == s[j]
  {
    match PositionOf(s, e.price)
    case None => s
    case Some(i) =>
      if e.size >= s[i].size then RemoveAt(s, i)
      else s[i := s[i].(size := s[i].size - e.size)]
  }

  function BestBid(b: Book): Option<Level> {
    b.bestBid
  }

  function BestAsk(b: Book): Option<Level> {
    b.bestAsk
  }

  /** `top_n_bids(n)`: the `n` highest bids, read from the back of the ascending vector. */
  function TopNBids(b: Book, n: nat): (r: seq<Level>)
    ensures |r| == Min(n, |b.bids|)
    ensures forall i :: 0 <= i < |r| ==> r[i] == b.bids[|b.bids| - 1 - i]
  {
    Take(Reverse(b.bids), n)
  }

  /** `top_n_asks(n)`: the `n` lowest asks, read from the front. */
  function TopNAsks(b: Book, n: nat): (r: seq<Level>)
    ensures |r| == Min(n, |b.asks|)
    ensures forall i :: 0 <= i < |r| ==> r[i] == b.asks[i]
  {
    Take(b.asks, n)
  }

  /** `midprice`: defined only when both sides have a best level. */
  function Midprice(b: Book): (r: Option<real>)
    ensures r.Some? <==> b.bestBid.Some? && b.bestAsk.Some?
    ensures r.Some? ==> r.value == Midpoint(b.bestBid.value, b.bestAsk.value)
  {
    if b.bestBid.Some? && b.bestAsk.Some? then Some(Midpoint(b.bestBid.value, b.bestAsk.value)) else None
  }

  /** `weighted_midprice`: defined only when both sides have a best level. */
  function WeightedMidprice(b: Book): (r: Option<Quotient>)
    ensures r.Some? <==> b.bestBid.Some? && b.bestAsk.Some?
    ensures r.Some? ==> r.value == WeightedMid(b.bestBid.value, b.bestAsk.value)
  {
    if b.bestBid.Some? && b.bestAsk.Some? then Some(WeightedMid(b.bestBid.value, b.bestAsk.value)) else None
  }

  // ---------------------------------------------------------------------------------------------
  // Properties of the sort
  // ---------------------------------------------------------------------------------------------

  /** Inserting a level no cheaper than every level appends it. */
  lemma {:induction false} InsertLastIsAppend(x: Level, s: seq<Level>)
    requires SortedByPrice(s)
    requires forall i :: 0 <= i < |s| ==> s[i].price <= x.price
    ensures InsertByPrice(x, s) == s + [x]
  {
    if s != [] {
      InsertLastIsAppend(x, s[1..]);
      assert [s[0]] + (s[1..] + [x]) == s + [x];
    }
  }

  /** Sorting a sorted vector changes nothing. */
  lemma {:induction false} SortOfSortedIsIdentity(s: seq<Level>)
    requires SortedByPrice(s)
    ensures SortByPrice(s) == s
  {
    if s != [] {
      var n := |s| - 1;
      SortOfSortedIsIdentity(s[..n]);
      InsertLastIsAppend(s[n], s[..n]);
      assert s[..n] + [s[n]] == s;
    }
  }

  /** Inserting a level at a new price into a strictly ascending vector keeps it strictly ascending. */
  lemma {:induction false} InsertKeepsAscending(x: Level, s: seq<Level>)
    requires Ascending(s) && !HasPrice(s, x.price)
    ensures Ascending(InsertByPrice(x, s))
  {
    if s != [] && x.price >= s[0].price {
      var t := s[1..];
      assert x.price != s[0].price;
      assert !HasPrice(t, x.price) by {
        forall i | 0 <= i < |t|
          ensures t[i].price != x.price
        {
          assert t[i] == s[i + 1];
        }
      }
      InsertKeepsAscending(x, t);
      var rest := InsertByPrice(x, t);
      forall j | 0 <= j < |rest|
        ensures s[0].price < rest[j].price
      {
        assert rest[j] in rest;
        if rest[j] != x {
          var k :| 0 <= k < |t| && t[k] == rest[j];
          assert t[k] == s[k + 1];
        }
      }
      ConsAscending(s[0], rest);
      assert InsertByPrice(x, s) == [s[0]] + rest;
    }
  }

  /** A level cheaper than every level of an ascending vector can go in front of it. */
  lemma ConsAscending(a: Level, rest: seq<Level>)
    requires Ascending(rest)
    requires forall j :: 0 <= j < |rest| ==> a.price < rest[j].price
    ensures Ascending([a] + rest)
  {
    var r := [a] + rest;
    forall i, j | 0 <= i < j < |r|
      ensures r[i].price < r[j].price
    {
      assert r[j] == rest[j - 1];
      if i > 0 {
        assert r[i] == rest[i - 1];
      }
    }
  }

  /** Into a strictly ascending vector, a level at a new price goes in at its rank: after the
      cheaper levels, before the dearer ones. */
  lemma {:induction false} InsertByPriceAtRank(x: Level, s: seq<Level>, i: nat)
    requires i <= |s|
    requires forall k :: 0 <= k < i ==> s[k].price < x.price
    requires forall k :: i <= k < |s| ==> x.price < s[k].price
    ensures InsertByPrice(x, s) == s[..i] + [x] + s[i..]
  {
    if s != [] && i > 0 {
      var t := s[1..];
      InsertByPriceAtRank(x, t, i - 1);
      ConsInsert(s[0], t, i - 1, x);
      assert [s[0]] + t == s;
    }
  }

  /** Inserting into the tail and then prepending the head is inserting one place further on. */
  lemma ConsInsert(a: Level, t: seq<Level>, j: nat, x: Level)
    requires j <= |t|
    ensures [a] + (t[..j] + [x] + t[j..]) == ([a] + t)[..j + 1] + [x] + ([a] + t)[j + 1..]
  {
    assert ([a] + t)[..j + 1] == [a] + t[..j];
    assert ([a] + t)[j + 1..] == t[j..];
  }

  /** Pushing a level at a new price onto a strictly ascending vector and sorting puts it at its
      rank. */
  lemma SortAfterPushIsInsertAtRank(x: Level, s: seq<Level>, i: nat)
    requires Ascending(s) && i <= |s|
    requires forall k :: 0 <= k < i ==> s[k].price < x.price
    requires forall k :: i <= k < |s| ==> x.price < s[k].price
    ensures SortByPrice(s + [x]) == s[..i] + [x] + s[i..]
  {
    assert (s + [x])[..|s|] == s;
    SortOfSortedIsIdentity(s);
    assert SortByPrice(s + [x]) == InsertByPrice(x, s);
    InsertByPriceAtRank(x, s, i);
  }

  /** On a side that has a best, an upsert at a price the vector does not hold pushes the level and
      re-sorts. */
  lemma UpsertNewPriceSorts(side: Side, s: seq<Level>, best: Option<Level>, e: Event)
    requires best.Some? && e.size != 0.0 && !HasPrice(s, e.price)
    ensures DepthUpdate(side, s, best, e).0 == SortByPrice(s + [FromEvent(e)])
  {
  }

  // ---------------------------------------------------------------------------------------------
  // The book's invariant
  // ---------------------------------------------------------------------------------------------

  /** What the naive book keeps: each side strictly ascending by price, and a side without a best
      is empty (a best, once set, is never cleared). */
  predicate SideInv(s: seq<Level>, best: Option<Level>) {
    Ascending(s) && (best.None? ==> s == [])
  }

  predicate Inv(b: Book) {
    SideInv(b.bids, b.bestBid) && SideInv(b.asks, b.bestAsk)
  }

  lemma RemoveAtKeepsAscending(s: seq<Level>, i: nat)
    requires Ascending(s) && i < |s|
    ensures Ascending(RemoveAt(s, i))
  {
    var r := RemoveAt(s, i);
    forall a, c | 0 <= a < c < |r|
      ensures r[a].price < r[c].price
    {
      var a' := if a < i then a else a + 1;
      var c' := if c < i then c else c + 1;
      assert r[a] == s[a'] && r[c] == s[c'];
    }
  }

  /** Replacing a level by one at the same price keeps a side strictly ascending. */
  lemma ReplaceKeepsAscending(s: seq<Level>, i: nat, x: Level)
    requires Ascending(s) && i < |s| && x.price == s[i].price
    ensures Ascending(s[i := x])
  {
  }

  /** An upsert keeps a strictly ascending side strictly ascending, once sorted. */
  lemma UpsertKeepsAscending(s: seq<Level>, e: Event)
    requires Ascending(s)
    ensures Ascending(SortByPrice(Upserted(s, e)))
  {
    match PositionOf(s, e.price)
    case Some(i) =>
      var u := s[i := FromEvent(e)];
      ReplaceKeepsAscending(s, i, FromEvent(e));
      SortOfSortedIsIdentity(u);
    case None =>
      var u := s + [FromEvent(e)];
      assert u[..|s|] == s;
      SortOfSortedIsIdentity(s);
      assert SortByPrice(u) == InsertByPrice(FromEvent(e), s);
      InsertKeepsAscending(FromEvent(e), s);
  }

  lemma DepthUpdateKeepsSideInv(side: Side, s: seq<Level>, best: Option<Level>, e: Event)
    requires SideInv(s, best)
    ensures SideInv(DepthUpdate(side, s, best, e).0, DepthUpdate(side, s, best, e).1)
  {
    if e.size == 0.0 {
      if HasPrice(s, e.price) {
        RemoveAtKeepsAscending(s, PositionOf(s, e.price).value);
      }
    } else if best.None? {
      assert Upserted(s, e) == [FromEvent(e)];
    } else {
      UpsertKeepsAscending(s, e);
    }
  }

  lemma TradeUpdateKeepsAscending(s: seq<Level>, e: Event)
    requires Ascending(s)
    ensures Ascending(TradeUpdate(s, e))
  {
    if HasPrice(s, e.price) {
      var i := PositionOf(s, e.price).value;
      if e.size >= s[i].size {
        RemoveAtKeepsAscending(s, i);
      }
    }
  }

  /** Every event keeps both sides strictly ascending, and a side without a best empty. */
  lemma ProcessKeepsInv(b: Book, e: Event)
    requires Inv(b)
    ensures Inv(Process(b, e))
  {
    var side := SideOf(e);
    if !Stale(b, e) {
      if e.isTrade {
        TradeUpdateKeepsAscending(b.Depth(side), e);
        assert ProcessTrade(b, e).Depth(side) == TradeUpdate(b.Depth(side), e);
      } else {
        DepthUpdateKeepsSideInv(side, b.Depth(side), b.Best(side), e);
      }
    }
  }

  // ---------------------------------------------------------------------------------------------
  // What an update does to a side's contents
  // ---------------------------------------------------------------------------------------------

  lemma AscendingPositionIsUnique(s: seq<Level>, price: real, i: nat)
    requires Ascending(s) && i < |s| && s[i].price == price
    ensures PositionOf(s, price) == Some(i)
  {
    assert PositionOf(s, price).Some?;
  }

  /** On a strictly ascending side, a removal takes away exactly the level at the event's price. */
  lemma RemovalContents(side: Side, s: seq<Level>, best: Option<Level>, e: Event)
    requires Ascending(s) && e.size == 0.0
    ensures forall l :: l in DepthUpdate(side, s, best, e).0 <==> l in s && l.price != e.price
  {
    var r := DepthUpdate(side, s, best, e).0;
    if HasPrice(s, e.price) {
      var i := PositionOf(s, e.price).value;
      forall l
        ensures l in r <==> l in s && l.price != e.price
      {
        if l in r {
          var j :| 0 <= j < |r| && r[j] == l;
          if j < i {
            assert r[j] == s[j];
          } else {
            assert r[j] == s[j + 1];
          }
        }
        if l in s && l.price != e.price {
          var j :| 0 <= j < |s| && s[j] == l;
          if j < i {
            assert r[j] == l;
          } else {
            assert j != i;
            assert r[j - 1] == l;
          }
        }
      }
    }
  }

  /** On a side with a best, an upsert leaves exactly the event's level at its price and every
      other level in place. */
  lemma UpsertContents(side: Side, s: seq<Level>, best: Option<Level>, e: Event)
    requires Ascending(s) && e.size != 0.0
    ensures forall l :: l in DepthUpdate(side, s, best, e).0 <==> (l in s && l.price != e.price) || l == FromEvent(e)
  {
    var u := Upserted(s, e);
    if best.Some? {
      SortKeepsMembers(u);
    }
    UpsertedMembers(s, e);
  }

  /** Sorting neither adds nor drops a level. */
  lemma SortKeepsMembers(u: seq<Level>)
    ensures forall l :: l in SortByPrice(u) <==> l in u
  {
    var r := SortByPrice(u);
    forall l
      ensures l in r <==> l in u
    {
      assert l in r <==> l in multiset(r);
      assert l in u <==> l in multiset(u);
    }
  }

  /** Storing the event's level over the one at its price, or pushing it, leaves the levels at
      other prices and adds the new one. */
  lemma UpsertedMembers(s: seq<Level>, e: Event)
    requires Ascending(s)
    ensures forall l :: l in Upserted(s, e) <==> (l in s && l.price != e.price) || l == FromEvent(e)
  {
    var u := Upserted(s, e);
    match PositionOf(s, e.price)
    case Some(i) =>
      forall l
        ensures l in u <==> (l in s && l.price != e.price) || l == FromEvent(e)
      {
        if l in u && l != FromEvent(e) {
          var j :| 0 <= j < |u| && u[j] == l;
          assert j != i && u[j] == s[j];
          assert s[j].price != e.price;
        }
        if l in s && l.price != e.price {
          var j :| 0 <= j < |s| && s[j] == l;
          assert j != i;
          assert u[j] == l;
        }
        if l == FromEvent(e) {
          assert u[i] == l;
        }
      }
    case None =>
      forall l
        ensures l in u <==> (l in s && l.price != e.price) || l == FromEvent(e)
      {
        if l in s {
          var j :| 0 <= j < |s| && s[j] == l;
          assert s[j].price != e.price;
        }
      }
  }

  /** Removing the same price twice leaves the book as removing it once. */
  lemma RemovalIdempotent(b: Book, e: Event)
    requires Inv(b) && !e.isTrade && e.size == 0.0
    ensures Process(Process(b, e), e) == Process(b, e)
  {
    var b1 := Process(b, e);
    if !Stale(b, e) {
      assert !Stale(b1, e);
      var side := SideOf(e);
      RemovalContents(side, b.Depth(side), b.Best(side), e);
      var s1 := b1.Depth(side);
      assert s1 == DepthUpdate(side, b.Depth(side), b.Best(side), e).0;
      assert ProcessLvl2(b1, e) == b1;
    }
  }

  /** Trades never touch the best, so exhausting the best bid leaves a best the side no longer holds. */
  lemma TradeCanLeaveBestStale()
    ensures
      var b := Book(Some(Level(16.0, 1.0)), None, [Level(16.0, 1.0)], [], 0, 0);
      var r := Process(b, Event(0, 0, true, true, 16.0, 1.0));
      r.bids == [] && r.bestBid == Some(Level(16.0, 1.0))
  {
    var b := Book(Some(Level(16.0, 1.0)), None, [Level(16.0, 1.0)], [], 0, 0);
    assert PositionOf(b.bids, 16.0) == Some(0);
  }

  /** Removing the best bid never moves the best, so the book reports a price it no longer holds. */
  lemma RemovalCanLeaveBestStale()
    ensures
      var b := Book(Some(Level(16.0, 1.0)), None, [Level(7.0, 1.0), Level(16.0, 1.0)], [], 0, 0);
      var r := Process(b, Event(0, 0, false, true, 16.0, 0.0));
      r.bids == [Level(7.0, 1.0)] && r.bestBid == Some(Level(16.0, 1.0))
  {
    var b := Book(Some(Level(16.0, 1.0)), None, [Level(7.0, 1.0), Level(16.0, 1.0)], [], 0, 0);
    assert PositionOf(b.bids, 16.0) == Some(1);
  }

  /** On a strictly ascending book the top bids come out in strictly descending price order. */
  lemma TopNBidsDescend(b: Book, n: nat)
    requires Inv(b)
    ensures forall i, j :: 0 <= i < j < |TopNBids(b, n)| ==> TopNBids(b, n)[i].price > TopNBids(b, n)[j].price
  {
  }
}
