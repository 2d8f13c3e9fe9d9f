/** Price levels (src/level.rs) and the pricing helpers shared by the three order books. */
module Levels {
  import opened Wrappers
  import opened Events

  /** A price and the quantity resting at it. Prices and sizes are exact reals: NaN is not a value
      of this type, so every comparison below is total. */
  datatype Level = Level(price: real, size: real)

  /** The largest finite IEEE-754 double, (2^53 - 1) * 2^971. */
  const F64Max: real := 179769313486231570814527423731704356798070567525844996598917476803157260780028538760589558632766878171540458953514382464234321326889464182768467546703537516986049910576551282076245490090389328944075868508455133942304583236903222948165808559332123348274797826204144723168738177180919299881250404026184124858368.0

  /** A price a double can hold. */
  predicate Representable(x: real) {
    -F64Max <= x <= F64Max
  }

  function New(price: real, size: real): (l: Level)
    ensures l.price == price && l.size == size
  {
    Level(price, size)
  }

  /** The level below every representable price. */
  function Minimum(): (l: Level)
    ensures l.size == 0.0 && Representable(l.price)
    ensures forall x: real :: Representable(x) ==> l.price <= x
  {
    Level(-F64Max, 0.0)
  }

  /** The level above every representable price. */
  function Maximum(): (l: Level)
    ensures l.size == 0.0 && Representable(l.price)
    ensures forall x: real :: Representable(x) ==> x <= l.price
  {
    Level(F64Max, 0.0)
  }

  /** `PartialEq for Level`: both fields compared exactly. */
  predicate Eq(a: Level, b: Level) {
    a.price == b.price && a.size == b.size
  }

  datatype Ordering = Less | Equal | Greater {
    function Reverse(): Ordering {
      match this
      case Less => Greater
      case Equal => Equal
      case Greater => Less
    }
  }

  function CompareReals(x: real, y: real): Ordering {
    if x < y then Less else if x == y then Equal else Greater
  }

  /** `Ord for Level`: by price, and by size only when the prices are equal. */
  function Cmp(a: Level, b: Level): (o: Ordering)
    ensures o == Equal <==> Eq(a, b)
    ensures o == Less <==> a.price < b.price || (a.price == b.price && a.size < b.size)
    ensures o == Greater <==> a.price > b.price || (a.price == b.price && a.size > b.size)
  {
    match CompareReals(a.price, b.price)
    case Equal => CompareReals(a.size, b.size)
    case other => other
  }

  /** Equality of levels is structural equality, so `Eq` and `Cmp` agree with `==`. */
  lemma EqIsIdentity(a: Level, b: Level)
    ensures Eq(a, b) <==> a == b
    ensures Cmp(a, b) == Equal <==> a == b
  {
  }

  /** `Cmp` is a total order: antisymmetric, transitive, and it never leaves a pair unordered. */
  lemma CmpIsTotalOrder(a: Level, b: Level, c: Level)
    ensures Cmp(a, b) == Cmp(b, a).Reverse()
    ensures Cmp(a, b) != Greater && Cmp(b, c) != Greater ==> Cmp(a, c) != Greater
    ensures Cmp(a, b) != Greater && Cmp(b, a) != Greater ==> a == b
  {
  }

  /** `From<Event> for Level`. */
  function FromEvent(e: Event): (l: Level)
    ensures l.price == e.price && l.size == e.size
  {
    Level(e.price, e.size)
  }

  /** The two sides of a book. */
  datatype Side = Bid | Ask {
    function Other(): Side {
      if this == Bid then Ask else Bid
    }
  }

  function SideOf(e: Event): Side {
    if e.isBuy then Bid else Ask
  }

  /** `p` is strictly better than `q` on `side`: higher for bids, lower for asks. */
  predicate Better(side: Side, p: real, q: real) {
    if side == Bid then p > q else p < q
  }

  /** The one-sided best-of test of the books: `p` is at least as good as `q` on `side`. */
  predicate AtLeastAsGood(side: Side, p: real, q: real) {
    if side == Bid then p >= q else p <= q
  }

  /** The pair (best bid, best ask) that the BBO-reporting entry points return. */
  type Bbo = (Option<Level>, Option<Level>)

  /** The result of a floating division: a finite value, or the infinity or NaN a zero divisor gives. */
  datatype Quotient = Finite(value: real) | NonFinite

  /** The midprice of two best levels. */
  function Midpoint(bid: Level, ask: Level): (m: real)
    ensures m - bid.price == ask.price - m
  {
    (bid.price + ask.price) / 2.0
  }

  /** The size-weighted cross average `(bid.size * ask.price + bid.price * ask.size) / (bid.size + ask.size)`. */
  function WeightedMid(bid: Level, ask: Level): (q: Quotient)
    ensures q.NonFinite? <==> bid.size + ask.size == 0.0
    ensures q.Finite? ==> q.value * (bid.size + ask.size) == bid.size * ask.price + bid.price * ask.size
  {
    var den := bid.size + ask.size;
    if den == 0.0 then NonFinite else Finite((bid.size * ask.price + bid.price * ask.size) / den)
  }

  lemma SignOfFactor(x: real, d: real)
    requires d > 0.0
    ensures x * d >= 0.0 ==> x >= 0.0
  {
    if x < 0.0 {
      NegativeTimesPositive(x, d);
    }
  }

  lemma NegativeTimesPositive(x: real, d: real)
    requires x < 0.0 && d > 0.0
    ensures x * d < 0.0
  {
  }

  lemma ScaleMonotone(x: real, y: real, c: real)
    requires x <= y && c > 0.0
    ensures x * c <= y * c
  {
    ProductNonNegative(y - x, c);
  }

  /** The whole ticks in `price` for the inverse tick size `inv`: the product, cast to `u64`. */
  function Ticks(price: real, inv: real): U64 {
    TruncU64(price * inv)
  }

  /** Counting ticks with a positive inverse tick size keeps the order of two prices. */
  lemma TicksMonotone(x: real, y: real, c: real)
    requires x <= y && c > 0.0
    ensures Ticks(x, c) <= Ticks(y, c)
  {
    ScaleMonotone(x, y, c);
    TruncU64Monotone(x * c, y * c);
  }

  lemma ProductNonNegative(x: real, y: real)
    requires x >= 0.0 && y >= 0.0
    ensures x * y >= 0.0
  {
  }

  /** With positive sizes the weighted midprice lies between the two prices. */
  lemma WeightedMidBetween(bid: Level, ask: Level)
    requires bid.size > 0.0 && ask.size > 0.0
    ensures WeightedMid(bid, ask).Finite?
    ensures bid.price <= ask.price ==> bid.price <= WeightedMid(bid, ask).value <= ask.price
    ensures ask.price <= bid.price ==> ask.price <= WeightedMid(bid, ask).value <= bid.price
  {
    var den := bid.size + ask.size;
    var v := WeightedMid(bid, ask).value;
    var gap := ask.price - bid.price;
    assert v * den == bid.size * ask.price + bid.price * ask.size;
    assert (v - bid.price) * den == bid.size * gap;
    assert (ask.price - v) * den == ask.size * gap;
    if gap >= 0.0 {
      ProductNonNegative(bid.size, gap);
      ProductNonNegative(ask.size, gap);
      SignOfFactor(v - bid.price, den);
      SignOfFactor(ask.price - v, den);
    } else {
      assert (bid.price - v) * den == bid.size * -gap;
      assert (v - ask.price) * den == ask.size * -gap;
      ProductNonNegative(bid.size, -gap);
      ProductNonNegative(ask.size, -gap);
      SignOfFactor(bid.price - v, den);
      SignOfFactor(v - ask.price, den);
    }
  }
}
