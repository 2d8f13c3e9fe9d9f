/** Market-data events (src/event.rs): the six-field record, the tick quantisation, and the
    key/value fold that builds an event from a record whose fields may come in any order. */
module Events {
  import opened Wrappers

  const U64Limit: int := 0x1_0000_0000_0000_0000
  const U64Max: int := U64Limit - 1

  /** Rust's `u64`. */
  type U64 = x: int | 0 <= x < U64Limit

  /** One depth update (`isTrade == false`) or trade (`isTrade == true`) on the bid (`isBuy`) or ask side. */
  datatype Event = Event(timestamp: U64, sequence: U64, isTrade: bool, isBuy: bool, price: real, size: real)

  /** Rust's saturating float-to-`u64` cast: truncation toward zero, clamped to the `u64` range. */
  function TruncU64(x: real): (r: U64)
    ensures x < 0.0 ==> r == 0
    ensures x >= U64Limit as real ==> r == U64Max
    ensures 0.0 <= x < U64Limit as real ==> r as real <= x < r as real + 1.0
  {
    if x < 0.0 then 0 else if x >= U64Limit as real then U64Max else x.Floor
  }

  lemma TruncU64Monotone(x: real, y: real)
    requires x <= y
    ensures TruncU64(x) <= TruncU64(y)
  {
  }

  /** `Event::price_ticks`: the number of whole ticks in the price. A zero divisor yields an infinity
      (or NaN for a zero price), which the cast turns into `u64::MAX` or 0. */
  function PriceTicks(e: Event, tickSize: real): (r: U64)
    ensures tickSize > 0.0 && 0.0 <= e.price / tickSize < U64Limit as real ==>
      r as real * tickSize <= e.price < (r + 1) as real * tickSize
  {
    if tickSize == 0.0 then
      (if e.price > 0.0 then U64Max else 0)
    else
      var r := TruncU64(e.price / tickSize);
      if tickSize > 0.0 && 0.0 <= e.price / tickSize < U64Limit as real then
        WholeTicks(e.price, tickSize, r);
        r
      else r
  }

  lemma WholeTicks(price: real, tickSize: real, r: int)
    requires tickSize > 0.0
    requires r as real <= price / tickSize < r as real + 1.0
    ensures r as real * tickSize <= price < (r + 1) as real * tickSize
  {
    var q := price / tickSize;
    assert q * tickSize == price;
    assert (q - r as real) * tickSize >= 0.0;
    assert ((r + 1) as real - q) * tickSize > 0.0;
    assert ((r + 1) as real - q) * tickSize == (r + 1) as real * tickSize - q * tickSize;
    assert (q - r as real) * tickSize == q * tickSize - r as real * tickSize;
  }

  // ---------------------------------------------------------------------------------------------
  // The record decoder (`EventVisitor::visit_map`)
  // ---------------------------------------------------------------------------------------------

  /** A value read from a record. The source reads each value with the type its field demands. */
  datatype Value = Int(i: int) | Num(x: real) | Text(s: string)

  datatype DecodeError = DuplicateField(field: string) | MissingField(field: string) | InvalidValue(field: string)

  /** The six `Option` accumulators of the fold. */
  datatype Fields = Fields(
    timestamp: Option<U64>, sequence: Option<U64>, isTrade: Option<bool>, isBuy: Option<bool>,
    price: Option<real>, size: Option<real>)

  const NoFields: Fields := Fields(None, None, None, None, None, None)

  /** The field names, in the order the missing-field checks run. */
  const Keys: seq<string> := ["timestamp", "seq", "is_trade", "is_buy", "price", "size"]

  /** A value read as `u64`. */
  function AsU64(v: Value): Option<U64> {
    if v.Int? && 0 <= v.i < U64Limit then Some(v.i) else None
  }

  /** A value read as the default integer type `i32` (the flags' match arms are integer literals). */
  function AsI32(v: Value): Option<int> {
    if v.Int? && -0x8000_0000 <= v.i < 0x8000_0000 then Some(v.i) else None
  }

  /** A value read as `f64`; integers convert. */
  function AsF64(v: Value): Option<real> {
    match v
    case Int(i) => Some(i as real)
    case Num(x) => Some(x)
    case Text(_) => None
  }

  /** The flag decoding: 0 is false, 1 is true, and anything else leaves the field unset. */
  function AsFlag(n: int): (b: Option<bool>)
    ensures b == Some(false) <==> n == 0
    ensures b == Some(true) <==> n == 1
  {
    if n == 0 then Some(false) else if n == 1 then Some(true) else None
  }

  /** One iteration of the `while let Some(key)` loop. */
  function Step(f: Fields, key: string, v: Value): Result<Fields, DecodeError> {
    if key == "timestamp" then
      if f.timestamp.Some? then Err(DuplicateField(key))
      else if AsU64(v).None? then Err(InvalidValue(key))
      else Ok(f.(timestamp := AsU64(v)))
    else if key == "seq" then
      if f.sequence.Some? then Err(DuplicateField(key))
      else if AsU64(v).None? then Err(InvalidValue(key))
      else Ok(f.(sequence := AsU64(v)))
    else if key == "is_trade" then
      if f.isTrade.Some? then Err(DuplicateField(key))
      else if AsI32(v).None? then Err(InvalidValue(key))
      else Ok(f.(isTrade := AsFlag(AsI32(v).value)))
    else if key == "is_buy" then
      if f.isBuy.Some? then Err(DuplicateField(key))
      else if AsI32(v).None? then Err(InvalidValue(key))
      else Ok(f.(isBuy := AsFlag(AsI32(v).value)))
    else if key == "price" then
      if f.price.Some? then Err(DuplicateField(key))
      else if AsF64(v).None? then Err(InvalidValue(key))
      else Ok(f.(price := AsF64(v)))
    else if key == "size" then
      if f.size.Some? then Err(DuplicateField(key))
      else if AsF64(v).None? then Err(InvalidValue(key))
      else Ok(f.(size := AsF64(v)))
    else
      Ok(f)
  }

  /** The loop over all key/value pairs; the first error ends it. */
  function Scan(f: Fields, pairs: seq<(string, Value)>): Result<Fields, DecodeError>
    decreases |pairs|
  {
    if pairs == [] then Ok(f)
    else
      match Step(f, pairs[0].0, pairs[0].1)
      case Err(e) => Err(e)
      case Ok(g) => Scan(g, pairs[1..])
  }

  /** The `ok_or_else` chain after the loop. */
  function Finish(f: Fields): (r: Result<Event, DecodeError>)
    ensures r.Ok? <==> forall j :: 0 <= j < |Keys| ==> Get(f, Keys[j]).Some?
    ensures r.Ok? ==> forall j :: 0 <= j < |Keys| ==> Get(f, Keys[j]) == Some(FieldOf(r.value, Keys[j]))
    ensures r.Err? ==>
      exists j :: 0 <= j < |Keys| && r.error == MissingField(Keys[j])
        && Get(f, Keys[j]).None? && forall i :: 0 <= i < j ==> Get(f, Keys[i]).Some?
  {
    if f.timestamp.None? then assert Get(f, Keys[0]).None?; Err(MissingField("timestamp"))
    else if f.sequence.None? then assert Get(f, Keys[1]).None?; Err(MissingField("seq"))
    else if f.isTrade.None? then assert Get(f, Keys[2]).None?; Err(MissingField("is_trade"))
    else if f.isBuy.None? then assert Get(f, Keys[3]).None?; Err(MissingField("is_buy"))
    else if f.price.None? then assert Get(f, Keys[4]).None?; Err(MissingField("price"))
    else if f.size.None? then assert Get(f, Keys[5]).None?; Err(MissingField("size"))
    else Ok(Event(f.timestamp.value, f.sequence.value, f.isTrade.value, f.isBuy.value, f.price.value, f.size.value))
  }

  /** `EventVisitor::visit_map` over an abstract sequence of key/value pairs. */
  function VisitMap(pairs: seq<(string, Value)>): Result<Event, DecodeError> {
    match Scan(NoFields, pairs)
    case Err(e) => Err(e)
    case Ok(f) => Finish(f)
  }

  // Uniform views of the six fields, used to state the fold's properties once for all keys.

  datatype FieldValue = U64Value(n: U64) | FlagValue(b: bool) | RealValue(x: real)

  /** The accumulator of field `key`. */
  function Get(f: Fields, key: string): Option<FieldValue> {
    if key == "timestamp" then (if f.timestamp.Some? then Some(U64Value(f.timestamp.value)) else None)
    else if key == "seq" then (if f.sequence.Some? then Some(U64Value(f.sequence.value)) else None)
    else if key == "is_trade" then (if f.isTrade.Some? then Some(FlagValue(f.isTrade.value)) else None)
    else if key == "is_buy" then (if f.isBuy.Some? then Some(FlagValue(f.isBuy.value)) else None)
    else if key == "price" then (if f.price.Some? then Some(RealValue(f.price.value)) else None)
    else if key == "size" then (if f.size.Some? then Some(RealValue(f.size.value)) else None)
    else None
  }

  /** The field `key` of an event. */
  function FieldOf(e: Event, key: string): FieldValue {
    if key == "timestamp" then U64Value(e.timestamp)
    else if key == "seq" then U64Value(e.sequence)
    else if key == "is_trade" then FlagValue(e.isTrade)
    else if key == "is_buy" then FlagValue(e.isBuy)
    else if key == "price" then RealValue(e.price)
    else RealValue(e.size)
  }

  /** What a value supplies to an unset field `key`: an error, nothing (a flag other than 0/1), or a value. */
  function Decoded(key: string, v: Value): Result<Option<FieldValue>, DecodeError> {
    if key == "timestamp" || key == "seq" then
      (if AsU64(v).None? then Err(InvalidValue(key)) else Ok(Some(U64Value(AsU64(v).value))))
    else if key == "is_trade" || key == "is_buy" then
      (if AsI32(v).None? then Err(InvalidValue(key))
       else if AsFlag(AsI32(v).value).None? then Ok(None)
       else Ok(Some(FlagValue(AsFlag(AsI32(v).value).value))))
    else
      (if AsF64(v).None? then Err(InvalidValue(key)) else Ok(Some(RealValue(AsF64(v).value))))
  }

  /** One step of the fold, stated uniformly: unknown keys are skipped, a set field is a duplicate,
      and otherwise exactly the field `key` takes what the value supplies. */
  lemma StepEffect(f: Fields, key: string, v: Value)
    ensures key !in Keys ==> Step(f, key, v) == Ok(f)
    ensures key in Keys && Get(f, key).Some? ==> Step(f, key, v) == Err(DuplicateField(key))
    ensures key in Keys && Get(f, key).None? && Decoded(key, v).Err? ==>
      Step(f, key, v) == Err(Decoded(key, v).error)
    ensures key in Keys && Get(f, key).None? && Decoded(key, v).Ok? ==>
      Step(f, key, v).Ok?
      && Get(Step(f, key, v).value, key) == Decoded(key, v).value
      && forall k :: k in Keys && k != key ==> Get(Step(f, key, v).value, k) == Get(f, k)
  {
  }

  /** The fold over a concatenation is the fold over the second part, started where the first ended. */
  lemma {:induction false} ScanAppend(f: Fields, a: seq<(string, Value)>, b: seq<(string, Value)>)
    ensures Scan(f, a + b) == match Scan(f, a) case Err(e) => Err(e) case Ok(g) => Scan(g, b)
    decreases |a|
  {
    if a != [] {
      assert (a + b)[0] == a[0];
      assert (a + b)[1..] == a[1..] + b;
      match Step(f, a[0].0, a[0].1)
      case Err(_) =>
      case Ok(g) => ScanAppend(g, a[1..], b);
    } else {
      assert a + b == b;
    }
  }

  /** Keys other than the six field names are skipped: removing such a pair changes nothing. */
  lemma UnknownKeySkipped(a: seq<(string, Value)>, key: string, v: Value, b: seq<(string, Value)>)
    requires key !in Keys
    ensures VisitMap(a + [(key, v)] + b) == VisitMap(a + b)
  {
    assert a + [(key, v)] + b == a + ([(key, v)] + b);
    ScanAppend(NoFields, a, [(key, v)] + b);
    ScanAppend(NoFields, a, b);
    match Scan(NoFields, a)
    case Err(_) =>
    case Ok(g) =>
      StepEffect(g, key, v);
      assert ([(key, v)] + b)[1..] == b;
  }

  /** A field name seen again while its field is set ends the fold with a duplicate-field error,
      whatever follows and before any missing-field check. */
  lemma DuplicateReportedAtRepeat(a: seq<(string, Value)>, f: Fields, key: string, v: Value, b: seq<(string, Value)>)
    requires Scan(NoFields, a) == Ok(f)
    requires key in Keys && Get(f, key).Some?
    ensures VisitMap(a + [(key, v)] + b) == Err(DuplicateField(key))
  {
    assert a + [(key, v)] + b == a + ([(key, v)] + b);
    ScanAppend(NoFields, a, [(key, v)] + b);
    StepEffect(f, key, v);
  }

  /** A flag value other than 0 or 1 leaves the flag unset, so a later pair for the same key is
      not a duplicate and, if none supplies 0 or 1, the field is reported missing. */
  lemma UnrecognisedFlagLeavesFieldUnset(a: seq<(string, Value)>, f: Fields, key: string, v: Value)
    requires key == "is_trade" || key == "is_buy"
    requires Scan(NoFields, a) == Ok(f) && Get(f, key).None?
    requires AsI32(v).Some? && AsI32(v).value != 0 && AsI32(v).value != 1
    ensures Scan(NoFields, a + [(key, v)]) == Ok(f)
  {
    ScanAppend(NoFields, a, [(key, v)]);
  }

  /** `value` was supplied for field `key` by some pair. */
  ghost predicate Supplied(pairs: seq<(string, Value)>, key: string, value: FieldValue) {
    exists i :: 0 <= i < |pairs| && pairs[i].0 == key && Decoded(key, pairs[i].1) == Ok(Some(value))
  }

  /** Every field the fold sets was set from the start or supplied by a pair. */
  lemma {:induction false} ScanSound(f: Fields, pairs: seq<(string, Value)>, g: Fields)
    requires Scan(f, pairs) == Ok(g)
    ensures forall j :: 0 <= j < |Keys| ==>
      Get(g, Keys[j]) == Get(f, Keys[j]) || (Get(g, Keys[j]).Some? && Supplied(pairs, Keys[j], Get(g, Keys[j]).value))
    decreases |pairs|
  {
    if pairs != [] {
      var (key, v) := pairs[0];
      StepEffect(f, key, v);
      var f1 := Step(f, key, v).value;
      ScanSound(f1, pairs[1..], g);
      forall j | 0 <= j < |Keys|
        ensures Get(g, Keys[j]) == Get(f, Keys[j]) || (Get(g, Keys[j]).Some? && Supplied(pairs, Keys[j], Get(g, Keys[j]).value))
      {
        var k := Keys[j];
        if Get(g, k) != Get(f1, k) {
          var i :| 0 <= i < |pairs[1..]| && pairs[1..][i].0 == k && Decoded(k, pairs[1..][i].1) == Ok(Some(Get(g, k).value));
          assert pairs[i + 1] == pairs[1..][i];
        } else if Get(f1, k) != Get(f, k) {
          assert k == key;
          assert pairs[0].0 == k;
        }
      }
    }
  }

  /** On success, every field of the event is the value some pair supplied for its key. */
  lemma VisitMapSound(pairs: seq<(string, Value)>, e: Event)
    requires VisitMap(pairs) == Ok(e)
    ensures forall j :: 0 <= j < |Keys| ==> Supplied(pairs, Keys[j], FieldOf(e, Keys[j]))
  {
    var g := Scan(NoFields, pairs).value;
    ScanSound(NoFields, pairs, g);
    forall j | 0 <= j < |Keys|
      ensures Supplied(pairs, Keys[j], FieldOf(e, Keys[j]))
    {
      assert Get(NoFields, Keys[j]).None?;
    }
  }

  /** No field name occurs twice, and every occurrence carries a value its field accepts. */
  ghost predicate Clean(pairs: seq<(string, Value)>) {
    && (forall i, i' :: 0 <= i < i' < |pairs| && pairs[i].0 in Keys ==> pairs[i].0 != pairs[i'].0)
    && (forall i :: 0 <= i < |pairs| && pairs[i].0 in Keys ==> Decoded(pairs[i].0, pairs[i].1).Ok?)
    && (forall i :: 0 <= i < |pairs| && pairs[i].0 in Keys ==> Decoded(pairs[i].0, pairs[i].1).value.Some?)
  }

  /** A clean record never fails during the fold, and sets exactly the fields whose names it contains. */
  lemma {:induction false} ScanComplete(f: Fields, pairs: seq<(string, Value)>)
    requires Clean(pairs)
    requires forall i :: 0 <= i < |pairs| && pairs[i].0 in Keys ==> Get(f, pairs[i].0).None?
    ensures Scan(f, pairs).Ok?
    ensures forall j :: 0 <= j < |Keys| ==>
      (Get(Scan(f, pairs).value, Keys[j]).Some? <==>
        Get(f, Keys[j]).Some? || exists i :: 0 <= i < |pairs| && pairs[i].0 == Keys[j])
    decreases |pairs|
  {
    if pairs != [] {
      var (key, v) := pairs[0];
      StepEffect(f, key, v);
      var f1 := Step(f, key, v).value;
      var rest := pairs[1..];
      assert Clean(rest) by {
        forall i, i' | 0 <= i < i' < |rest| && rest[i].0 in Keys
          ensures rest[i].0 != rest[i'].0
        {
          assert rest[i] == pairs[i + 1] && rest[i'] == pairs[i' + 1];
        }
      }
      forall i | 0 <= i < |rest| && rest[i].0 in Keys
        ensures Get(f1, rest[i].0).None?
      {
        assert rest[i] == pairs[i + 1];
        assert pairs[0].0 != pairs[i + 1].0 || pairs[0].0 !in Keys;
      }
      ScanComplete(f1, rest);
      forall j | 0 <= j < |Keys|
        ensures Get(Scan(f, pairs).value, Keys[j]).Some? <==>
          Get(f, Keys[j]).Some? || exists i :: 0 <= i < |pairs| && pairs[i].0 == Keys[j]
      {
        if exists i :: 0 <= i < |rest| && rest[i].0 == Keys[j] {
          var i :| 0 <= i < |rest| && rest[i].0 == Keys[j];
          assert pairs[i + 1] == rest[i];
        }
        if exists i :: 0 <= i < |pairs| && pairs[i].0 == Keys[j] {
          var i :| 0 <= i < |pairs| && pairs[i].0 == Keys[j];
          if i > 0 {
            assert rest[i - 1] == pairs[i];
          }
        }
      }
    }
  }

  /** A clean record that names all six fields decodes, and each field of the event is the value
      supplied for its key. */
  lemma VisitMapComplete(pairs: seq<(string, Value)>)
    requires Clean(pairs)
    requires forall j :: 0 <= j < |Keys| ==> exists i :: 0 <= i < |pairs| && pairs[i].0 == Keys[j]
    ensures VisitMap(pairs).Ok?
    ensures forall j :: 0 <= j < |Keys| ==> Supplied(pairs, Keys[j], FieldOf(VisitMap(pairs).value, Keys[j]))
  {
    ScanComplete(NoFields, pairs);
    VisitMapSound(pairs, VisitMap(pairs).value);
  }
}
