/** The fixed-array order book (src/fixed_orderbook.rs): each side is a 100-slot buffer holding its
    levels best first, found by a quarter-step search. After every upsert the best is re-read from
    the first slot; after a removal only when the removed price was the best. The admission gate
    drops an event that is older on either count. */
module FixedBook {
  import opened Wrappers
  import opened Seqs
  import opened Events
  import opened Levels
  import opened FixedBuffer

  datatype Book = Book(
    bestBid: Option<Level>, bestAsk: Option<Level>,
    bids: Buffer, asks: Buffer,
    lastUpdated: U64, lastSequence: U64)
  {
    function Depth(side: Side): Buffer {
      if side == Bid then bids else asks
    }

    function Best(side: Side): Option<Level> {
      if side == Bid then bestBid else bestAsk
    }

    /** This book with one side's buffer and best replaced. */
    function With(side: Side, depth: Buffer, best: Option<Level>): Book {
      if side == Bid then this.(bids := depth, bestBid := best) else this.(asks := depth, bestAsk := best)
    }
  }

  function New(): (b: Book)
    ensures b.bestBid.None? && b.bestAsk.None? && b.lastUpdated == 0 && b.lastSequence == 0
    ensures Filled(b.bids) == [] && Filled(b.asks) == []
    ensures WellFormed(Bid, b.bids) && WellFormed(Ask, b.asks)
  {
    Book(None, None, FixedBuffer.New(), FixedBuffer.New(), 0, 0)
  }

  /** The admission gate: an event older than the book on either count is dropped. */
  predicate Stale(b: Book, e: Event) {
    e.timestamp < b.lastUpdated || e.sequence < b.lastSequence
  }

  /** `Orderbook::process`. */
  function Process(b: Book, e: Event): (r: Book)
    ensures Stale(b, e) ==> r == b
    ensures !Stale(b, e) ==> r.lastUpdated == e.timestamp && r.lastSequence == e.sequence
    ensures !Stale(b, e) ==>
      r.(lastUpdated := b.lastUpdated, lastSequence := b.lastSequence)
        == if e.isTrade then ProcessTrade(b, e) else ProcessLvl2(b, e)
  {
    if Stale(b, e) then b
    else
      var applied := if e.isTrade then ProcessTrade(b, e) else ProcessLvl2(b, e);
      applied.(lastUpdated := e.timestamp, lastSequence := e.sequence)
  }

  /** `Orderbook::process_stream_bbo`: apply the event and report the best pair when it changed. */
  function ProcessStreamBbo(b: Book, e: Event): (r: (Book, Option<Bbo>))
    ensures r.0 == Process(b, e)
    ensures r.1.Some? <==> (r.0.bestBid, r.0.bestAsk) != (b.bestBid, b.bestAsk)
    ensures r.1.Some? ==> r.1.value == (r.0.bestBid, r.0.bestAsk)
  {
    var next := Process(b, e);
    if b.bestBid != next.bestBid || b.bestAsk != next.bestAsk then (next, Some((next.bestBid, next.bestAsk)))
    else (next, None)
  }

  /** `Orderbook::process_lvl2`: a depth update on the event's side. */
  function ProcessLvl2(b: Book, e: Event): (r: Book)
    ensures r.lastUpdated == b.lastUpdated && r.lastSequence == b.lastSequence
    ensures r.Depth(SideOf(e).Other()) == b.Depth(SideOf(e).Other())
    ensures r.Best(SideOf(e).Other()) == b.Best(SideOf(e).Other())
    ensures (r.Depth(SideOf(e)), r.Best(SideOf(e))) == DepthUpdate(SideOf(e), b.Depth(SideOf(e)), b.Best(SideOf(e)), e)
  {
    var side := SideOf(e);
    var (depth, best) := DepthUpdate(side, b.Depth(side), b.Best(side), e);
    b.With(side, depth, best)
  }

  /** One side's buffer `s` and best `best` after a depth update. A zero size removes the level at
      the price, re-reading the best only when the removed price was the best's; any other size
      changes the size of the level held at the price or inserts a new one, then re-reads the best.
      A new level with no slot left for it (the search answers one past the last slot) is dropped. */
  function DepthUpdate(side: Side, s: Buffer, best: Option<Level>, e: Event): (r: (Buffer, Option<Level>))
    // A removal: a price not held changes nothing; a held one is taken out.
    ensures e.size == 0.0 && !Holds(s, e.price) && WellFormed(side, s) ==> r == (s, best)
    ensures e.size == 0.0 && SearchFor(side, s, e.price).Found? ==>
      var i := SearchFor(side, s, e.price).index;
      r.0 == RemoveAt(s, i)
      && r.1 == if best.Some? && e.price == best.value.price then First(r.0) else best
    // An upsert: the best is always the first slot afterwards.
    ensures e.size != 0.0 ==> r.1 == First(r.0)
    ensures e.size != 0.0 && SearchFor(side, s, e.price).Found? ==>
      r.0 == Modify(s, SearchFor(side, s, e.price).index, e.size)
    ensures e.size != 0.0 && SearchFor(side, s, e.price).Vacant? && SearchFor(side, s, e.price).index < Capacity ==>
      r.0 == InsertAt(s, SearchFor(side, s, e.price).index, FromEvent(e))
    ensures e.size != 0.0 && SearchFor(side, s, e.price) == Vacant(Capacity) ==> r.0 == s
  {
    match SearchFor(side, s, e.price)
    case Found(i) =>
      if e.size == 0.0 then
        var rest := RemoveAt(s, i);
        var removed := s[i].level.price;
        if best.Some? && removed == best.value.price then (rest, First(rest)) else (rest, best)
      else
        var updated := Modify(s, i, e.size);
        (updated, First(updated))
    case Vacant(i) =>
      if e.size == 0.0 then (s, best)
      else if i < Capacity then
        var updated := InsertAt(s, i, FromEvent(e));
        (updated, First(updated))
      else (s, First(s))
  }

  /** The upsert of a new level as src/fixed_orderbook.rs:81-83 writes it: it inserts at whatever
      index the search returns, and an index one past the last slot writes outside the buffer,
      modelled as `None`. */
  function InsertAsWritten(side: Side, s: Buffer, e: Event): (r: Option<Buffer>)
    requires SearchFor(side, s, e.price).Vacant?
    ensures r.None? <==> SearchFor(side, s, e.price).index == Capacity
    ensures r.Some? ==> r.value == InsertAt(s, SearchFor(side, s, e.price).index, FromEvent(e))
  {
    var i := SearchFor(side, s, e.price).index;
    if i < Capacity then Some(InsertAt(s, i, FromEvent(e))) else None
  }

  /** The depth update as src/fixed_orderbook.rs:67-108 writes it, the best read by `first` as
      written: after every upsert, and after a removal of the best's price. The best is a slot, an
      empty slot standing for the NaN-priced level `first` returns for an empty side; a NaN best
      never equals a removed price, so a removal never re-reads it. A new level with no slot left
      (src/fixed_orderbook.rs:81-83) writes outside the buffer, modelled as `None`. */
  function DepthUpdateAsWritten(side: Side, s: Buffer, best: Option<Slot>, e: Event)
    : (r: Option<(Buffer, Option<Slot>)>)
    ensures r.None? <==> e.size != 0.0 && SearchFor(side, s, e.price) == Vacant(Capacity)
    // The buffer is edited as by the guarded update.
    ensures e.size == 0.0 && SearchFor(side, s, e.price).Vacant? ==> r == Some((s, best))
    ensures e.size == 0.0 && SearchFor(side, s, e.price).Found? ==>
      var i := SearchFor(side, s, e.price).index;
      && r.Some? && r.value.0 == RemoveAt(s, i)
      && r.value.1 == if best.Some? && best.value.Full? && best.value.level.price == e.price
                      then FirstAsWritten(r.value.0) else best
    ensures e.size != 0.0 && SearchFor(side, s, e.price).Found? ==>
      r.Some? && r.value.0 == Modify(s, SearchFor(side, s, e.price).index, e.size)
    ensures e.size != 0.0 && SearchFor(side, s, e.price).Vacant? && SearchFor(side, s, e.price).index < Capacity ==>
      r.Some? && r.value.0 == InsertAt(s, SearchFor(side, s, e.price).index, FromEvent(e))
    // Every upsert re-reads the best through `first` as written.
    ensures e.size != 0.0 && r.Some? ==> r.value.1 == FirstAsWritten(r.value.0)
  {
    match SearchFor(side, s, e.price)
    case Found(i) =>
      if e.size == 0.0 then
        var rest := RemoveAt(s, i);
        var removed := s[i].level.price;
        if best.Some? && best.value.Full? && removed == best.value.level.price then Some((rest, FirstAsWritten(rest)))
        else Some((rest, best))
      else
        var updated := Modify(s, i, e.size);
        Some((updated, FirstAsWritten(updated)))
    case Vacant(i) =>
      if e.size == 0.0 then Some((s, best))
      else if i < Capacity then
        var updated := InsertAt(s, i, FromEvent(e));
        Some((updated, FirstAsWritten(updated)))
      else None
  }

  /** The update re-reads the best: every upsert, and a removal of the best's price. */
  predicate ReReadsBest(side: Side, s: Buffer, best: Option<Level>, e: Event) {
    e.size != 0.0 || (SearchFor(side, s, e.price).Found? && best.Some? && best.value.price == e.price)
  }

  /** Away from the out-of-bounds insert, the update as written edits the buffer as the guarded one
      does, and ends with the same best except where it re-reads a buffer whose first slot is empty
      or holds a level priced 0.0. */
  lemma DepthUpdateAsWrittenAgrees(side: Side, s: Buffer, best: Option<Level>, e: Event)
    requires e.size == 0.0 || SearchFor(side, s, e.price) != Vacant(Capacity)
    ensures
      var a := DepthUpdateAsWritten(side, s, AsSlot(best), e);
      var g := DepthUpdate(side, s, best, e);
      && a.Some? && a.value.0 == g.0
      && (!ReReadsBest(side, s, best, e) ==> a.value.1 == AsSlot(g.1))
      && (ReReadsBest(side, s, best, e) ==>
            (a.value.1 == AsSlot(g.1) <==> g.0[0].Full? && g.0[0].level.price != 0.0))
  {
    var g := DepthUpdate(side, s, best, e);
    FirstAsWrittenAgrees(g.0);
  }

  /** A bid at 16.0 and then its removal, on a new book: as written the best bid becomes the
      NaN-priced empty slot, which equals nothing, not even itself, so `process_stream_bbo` reports
      a change after every later event. The guarded update leaves no best bid. */
  lemma RemovingOnlyBidLeavesNanBest()
    ensures
      var level := Level(16.0, 1.0);
      var held := FixedBuffer.New()[0 := Full(level)];
      && DepthUpdateAsWritten(Bid, FixedBuffer.New(), None, Event(0, 0, false, true, 16.0, 1.0))
           == Some((held, Some(Full(level))))
      && DepthUpdateAsWritten(Bid, held, Some(Full(level)), Event(0, 0, false, true, 16.0, 0.0))
           == Some((FixedBuffer.New(), Some(Empty)))
      && !SameAsWritten(Some(Empty), Some(Empty))
      && DepthUpdate(Bid, held, Some(level), Event(0, 0, false, true, 16.0, 0.0)) == (FixedBuffer.New(), None)
  {
    var level := Level(16.0, 1.0);
    FirstLevelOnEmptySide(Bid, level);
    OnlyLevelRemoved(Bid, level);
  }

  /** On an empty side a new level goes into the first slot. */
  lemma FirstLevelOnEmptySide(side: Side, level: Level)
    ensures SearchFor(side, FixedBuffer.New(), level.price) == Vacant(0)
    ensures InsertAt(FixedBuffer.New(), 0, level) == FixedBuffer.New()[0 := Full(level)]
  {
    var empty := FixedBuffer.New();
    assert WellFormed(side, empty);
    assert !Holds(empty, level.price);
    assert FirstEmpty(empty, 0) == 0;
  }

  /** Removing the only level of a side empties it. */
  lemma OnlyLevelRemoved(side: Side, level: Level)
    ensures SearchFor(side, FixedBuffer.New()[0 := Full(level)], level.price) == Found(0)
    ensures RemoveAt(FixedBuffer.New()[0 := Full(level)], 0) == FixedBuffer.New()
  {
    var held := FixedBuffer.New()[0 := Full(level)];
    assert forall j :: 0 < j < Capacity ==> held[j].Empty?;
    assert WellFormed(side, held);
    assert held[0] == Full(level);
    assert Holds(held, level.price);
    assert FirstEmpty(held, 1) == 1 by {
      FirstEmptyIs(held, 1, 1);
    }
  }

  /** `Orderbook::process_trade`: a trade consumes the level at its price and never moves the best. */
  function ProcessTrade(b: Book, e: Event): (r: Book)
    ensures r.bestBid == b.bestBid && r.bestAsk == b.bestAsk
    ensures r.lastUpdated == b.lastUpdated && r.lastSequence == b.lastSequence
    ensures r.Depth(SideOf(e).Other()) == b.Depth(SideOf(e).Other())
    ensures r.Depth(SideOf(e)) == TradeUpdate(SideOf(e), b.Depth(SideOf(e)), e)
  {
    var side := SideOf(e);
    b.With(side, TradeUpdate(side, b.Depth(side), e), b.Best(side))
  }

  /** One side's buffer after a trade: an exhausted level is removed, a larger one shrinks. */
  function TradeUpdate(side: Side, s: Buffer, e: Event): (r: Buffer)
    ensures SearchFor(side, s, e.price).Vacant? ==> r == s
    ensures SearchFor(side, s, e.price).Found? ==>
      var i := SearchFor(side, s, e.price).index;
      r == if e.size >= s[i].level.size then RemoveAt(s, i) else Modify(s, i, s[i].level.size - e.size)
  {
    match SearchFor(side, s, e.price)
    case Found(i) =>
      var level := s[i].level;
      if e.size >= level.size then RemoveAt(s, i) else Modify(s, i, level.size - e.size)
    case Vacant(_) => s
  }

  function BestBid(b: Book): Option<Level> {
    b.bestBid
  }

  function BestAsk(b: Book): Option<Level> {
    b.bestAsk
  }

  /** `top_bids(n)`: on a well-formed side, the `n` best bids, best first; with `n == 0`, every bid
      unless the first slot is empty. */
  method TopBids(b: Book, n: nat) returns (r: seq<Level>)
    ensures n > 0 ==> r == Take(Occupied(b.bids), n)
    ensures n > 0 && WellFormed(Bid, b.bids) ==> r == Take(Filled(b.bids), n) && Ranked(Bid, r)
    // The length test follows the push, so `n == 0` stops at once only before an empty first slot.
    ensures n == 0 ==> r == if b.bids[0].Empty? then [] else Occupied(b.bids)
  {
    r := Top(b.bids, n);
    if n > 0 && WellFormed(Bid, b.bids) {
      OccupiedIsFilled(Bid, b.bids);
    }
  }

  /** `top_asks(n)`: on a well-formed side, the `n` best asks, best first; with `n == 0`, every ask
      unless the first slot is empty. */
  method TopAsks(b: Book, n: nat) returns (r: seq<Level>)
    ensures n > 0 ==> r == Take(Occupied(b.asks), n)
    ensures n > 0 && WellFormed(Ask, b.asks) ==> r == Take(Filled(b.asks), n) && Ranked(Ask, r)
    // The length test follows the push, so `n == 0` stops at once only before an empty first slot.
    ensures n == 0 ==> r == if b.asks[0].Empty? then [] else Occupied(b.asks)
  {
    r := Top(b.asks, n);
    if n > 0 && WellFormed(Ask, b.asks) {
      OccupiedIsFilled(Ask, b.asks);
    }
  }

  /** `midprice`: defined only when both sides have a best level. */
  function Midprice(b: Book): (r: Option<real>)
    ensures r.Some? <==> b.bestBid.Some? && b.bestAsk.Some?
    ensures r.Some? ==> r.value == Midpoint(b.bestBid.value, b.bestAsk.value)
  {
    if b.bestBid.Some? && b.bestAsk.Some? then Some(Midpoint(b.bestBid.value, b.bestAsk.value)) else None
  }

  /** `weighted_midprice`: defined only when both sides have a best level. */
  function WeightedMidprice(b: Book): (r: Option<Quotient>)
    ensures r.Some? <==> b.bestBid.Some? && b.bestAsk.Some?
    ensures r.Some? ==> r.value == WeightedMid(b.bestBid.value, b.bestAsk.value)
  {
    if b.bestBid.Some? && b.bestAsk.Some? then Some(WeightedMid(b.bestBid.value, b.bestAsk.value)) else None
  }

  // ---------------------------------------------------------------------------------------------
  // Properties
  // ---------------------------------------------------------------------------------------------

  /** Both buffers well formed. */
  predicate Inv(b: Book) {
    WellFormed(Bid, b.bids) && WellFormed(Ask, b.asks)
  }

  /** A depth update keeps the side's buffer well formed, and changes its ranked levels as the
      event says: a removal takes out the level at the price, an upsert of a held price changes
      only its size, and a new price goes in at its rank, the worst level falling off a full side. */
  lemma DepthUpdateKeepsWellFormed(side: Side, s: Buffer, best: Option<Level>, e: Event)
    requires WellFormed(side, s)
    ensures WellFormed(side, DepthUpdate(side, s, best, e).0)
    ensures
      var f := Filled(s);
      var g := Filled(DepthUpdate(side, s, best, e).0);
      match SearchFor(side, s, e.price)
      case Found(i) =>
        i < |f| && f[i].price == e.price
        && g == if e.size == 0.0 then f[..i] + f[i + 1..] else f[i := Level(e.price, e.size)]
      case Vacant(i) =>
        Unlisted(f, e.price)
        && g == if e.size == 0.0 then f else Take(f[..i] + [FromEvent(e)] + f[i..], Capacity)
  {
    match SearchFor(side, s, e.price)
    case Found(i) => FoundUpdateKeepsWellFormed(side, s, best, e, i);
    case Vacant(i) => VacantUpdateKeepsWellFormed(side, s, best, e, i);
  }

  /** A depth update at a held price removes the level or changes its size. */
  lemma FoundUpdateKeepsWellFormed(side: Side, s: Buffer, best: Option<Level>, e: Event, i: nat)
    requires WellFormed(side, s) && SearchFor(side, s, e.price) == Found(i)
    ensures WellFormed(side, DepthUpdate(side, s, best, e).0)
    ensures i < |Filled(s)| && Filled(s)[i].price == e.price
    ensures Filled(DepthUpdate(side, s, best, e).0) ==
      if e.size == 0.0 then Filled(s)[..i] + Filled(s)[i + 1..] else Filled(s)[i := Level(e.price, e.size)]
  {
    WellFormedShape(side, s);
    if e.size == 0.0 {
      RemoveKeepsWellFormed(side, s, i);
    } else {
      ModifyKeepsWellFormed(side, s, i, e.size);
    }
  }

  /** A depth update at a price not held inserts it at its rank, or changes nothing for a removal. */
  lemma VacantUpdateKeepsWellFormed(side: Side, s: Buffer, best: Option<Level>, e: Event, i: nat)
    requires WellFormed(side, s) && SearchFor(side, s, e.price) == Vacant(i)
    ensures WellFormed(side, DepthUpdate(side, s, best, e).0)
    ensures Unlisted(Filled(s), e.price)
    ensures Filled(DepthUpdate(side, s, best, e).0) ==
      if e.size == 0.0 then Filled(s) else Take(Filled(s)[..i] + [FromEvent(e)] + Filled(s)[i..], Capacity)
  {
    var f := Filled(s);
    WellFormedShape(side, s);
    forall k | 0 <= k < |f|
      ensures f[k].price != e.price
    {
      assert s[k] == Full(f[k]);
    }
    if e.size != 0.0 {
      if i < Capacity {
        InsertKeepsWellFormed(side, s, i, FromEvent(e));
      } else {
        assert Count(s) == Capacity;
        assert f[..i] + [FromEvent(e)] + f[i..] == f + [FromEvent(e)];
      }
    }
  }

  lemma TradeUpdateKeepsWellFormed(side: Side, s: Buffer, e: Event)
    requires WellFormed(side, s)
    ensures WellFormed(side, TradeUpdate(side, s, e))
  {
    match SearchFor(side, s, e.price)
    case Found(i) =>
      if e.size >= s[i].level.size {
        RemoveKeepsWellFormed(side, s, i);
      } else {
        ModifyKeepsWellFormed(side, s, i, s[i].level.size - e.size);
      }
    case Vacant(_) =>
  }

  /** Every event keeps both buffers well formed; the guarded depth update never writes outside them. */
  lemma ProcessKeepsInv(b: Book, e: Event)
    requires Inv(b)
    ensures Inv(Process(b, e))
  {
    var side := SideOf(e);
    if !Stale(b, e) {
      if e.isTrade {
        TradeUpdateKeepsWellFormed(side, b.Depth(side), e);
      } else {
        DepthUpdateKeepsWellFormed(side, b.Depth(side), b.Best(side), e);
      }
    }
  }

  /** When the best is the first slot, a depth update keeps it so: an upsert re-reads it, and a
      removal re-reads it exactly when it takes out the first slot. */
  lemma DepthUpdateKeepsBestFirst(side: Side, s: Buffer, best: Option<Level>, e: Event)
    requires WellFormed(side, s) && best == First(s)
    ensures DepthUpdate(side, s, best, e).1 == First(DepthUpdate(side, s, best, e).0)
  {
    match SearchFor(side, s, e.price)
    case Found(i) =>
      if e.size == 0.0 && i > 0 {
        assert Better(side, s[0].level.price, s[i].level.price);
        assert RemoveAt(s, i)[0] == s[0];
      }
    case Vacant(_) =>
  }

  /** Trades never touch the best, so exhausting the best bid leaves a best the side no longer holds. */
  lemma TradeCanLeaveBestStale()
    ensures
      var level := Level(16.0, 1.0);
      var b := New().(bestBid := Some(level), bids := FixedBuffer.New()[0 := Full(level)]);
      var r := Process(b, Event(0, 0, true, true, 16.0, 1.0));
      Filled(r.bids) == [] && r.bestBid == Some(level)
  {
    var level := Level(16.0, 1.0);
    var s := FixedBuffer.New()[0 := Full(level)];
    var e := Event(0, 0, true, true, 16.0, 1.0);
    assert s[0] == Full(level);
    assert Holds(s, 16.0);
    assert WellFormed(Bid, s);
    var i := SearchFor(Bid, s, 16.0).index;
    assert i == 0;
    assert FirstEmpty(s, 1) == 1 by {
      FirstEmptyIs(s, 1, 1);
    }
    var r := RemoveAt(s, 0);
    assert r[0].Empty?;
  }

  /** After a removal on a well-formed side, no slot holds the removed price: prices are unique. */
  lemma RemovalLeavesPriceUnheld(side: Side, s: Buffer, best: Option<Level>, e: Event)
    requires WellFormed(side, s) && e.size == 0.0
    ensures !Holds(DepthUpdate(side, s, best, e).0, e.price)
  {
    match SearchFor(side, s, e.price)
    case Found(i) =>
      var f := Filled(s);
      WellFormedShape(side, s);
      FilledIsRanked(side, s);
      assert s[i] == Full(f[i]);
      RankedRemoveDropsPrice(side, f, i);
      RemoveKeepsWellFormed(side, s, i);
      UnlistedPriceUnheld(side, RemoveAt(s, i), e.price);
    case Vacant(_) =>
  }

  /** In a ranked sequence no other level shares the price of the one dropped. */
  lemma RankedRemoveDropsPrice(side: Side, v: seq<Level>, i: nat)
    requires Ranked(side, v) && i < |v|
    ensures Unlisted(v[..i] + v[i + 1..], v[i].price)
  {
    var w := v[..i] + v[i + 1..];
    forall k | 0 <= k < |w|
      ensures w[k].price != v[i].price
    {
      if k < i {
        assert w[k] == v[k];
      } else {
        assert w[k] == v[k + 1];
      }
    }
  }

  /** No level of `v` has price `price`. */
  predicate Unlisted(v: seq<Level>, price: real) {
    forall k :: 0 <= k < |v| ==> v[k].price != price
  }

  /** A well-formed buffer holds only the prices its ranked levels list. */
  lemma UnlistedPriceUnheld(side: Side, s: Buffer, price: real)
    requires WellFormed(side, s)
    requires Unlisted(Filled(s), price)
    ensures !Holds(s, price)
  {
    WellFormedShape(side, s);
    forall j | 0 <= j < Capacity && s[j].Full?
      ensures s[j].level.price != price
    {
      assert s[j] == Full(Filled(s)[j]);
    }
  }

  /** Removing the same price twice leaves the book as removing it once. */
  lemma RemovalIdempotent(b: Book, e: Event)
    requires Inv(b) && !e.isTrade && e.size == 0.0
    ensures Process(Process(b, e), e) == Process(b, e)
  {
    var b1 := Process(b, e);
    if !Stale(b, e) {
      var side := SideOf(e);
      var s := b.Depth(side);
      DepthUpdateKeepsWellFormed(side, s, b.Best(side), e);
      RemovalLeavesPriceUnheld(side, s, b.Best(side), e);
      assert DepthUpdate(side, b1.Depth(side), b1.Best(side), e) == (b1.Depth(side), b1.Best(side));
      assert ProcessLvl2(b1, e) == b1;
    }
  }

  /** On a full side whose every level beats a new price, the upsert as written writes outside the
      buffer. */
  lemma FullSideInsertOutOfBounds(side: Side, s: Buffer, e: Event)
    requires WellFormed(side, s) && s[Capacity - 1].Full?
    requires Better(side, s[Capacity - 1].level.price, e.price)
    ensures SearchFor(side, s, e.price) == Vacant(Capacity)
    ensures InsertAsWritten(side, s, e) == None
  {
    FullBufferSearchReturnsCapacity(side, s, e.price);
  }
}
