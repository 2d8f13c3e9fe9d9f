/** The fixed-capacity level buffer of src/fixed_orderbook.rs: 100 slots holding one side's levels
    best first, followed by empty slots (the source marks an empty slot with a NaN price). */
module FixedBuffer {
  import opened Wrappers
  import opened Seqs
  import opened Levels

  const Capacity: nat := 100

  /** A slot of the buffer: empty, or holding a level. */
  datatype Slot = Empty | Full(level: Level)

  type Buffer = s: seq<Slot> | |s| == Capacity witness seq(Capacity, _ => Empty)

  /** `Buffer::new`: every slot empty. */
  function New(): (s: Buffer)
    ensures forall j :: 0 <= j < Capacity ==> s[j].Empty?
  {
    seq(Capacity, _ => Empty)
  }

  // ---------------------------------------------------------------------------------------------
  // Shape
  // ---------------------------------------------------------------------------------------------

  /** A full slot is preceded only by full slots holding strictly better prices: the levels form
      a prefix, best first, and every slot after it is empty. */
  predicate WellFormed(side: Side, s: seq<Slot>) {
    forall i, j :: 0 <= i < j < |s| && s[j].Full? ==> s[i].Full? && Better(side, s[i].level.price, s[j].level.price)
  }

  /** The first empty slot at or after `from`, or `|s|` when there is none. */
  function FirstEmpty(s: seq<Slot>, from: nat): (e: nat)
    requires from <= |s|
    ensures from <= e <= |s|
    ensures forall j :: from <= j < e ==> s[j].Full?
    ensures e < |s| ==> s[e].Empty?
    decreases |s| - from
  {
    if from == |s| || s[from].Empty? then from else FirstEmpty(s, from + 1)
  }

  /** The number of levels held: the length of the full prefix. */
  function Count(s: seq<Slot>): (n: nat)
    ensures n <= |s|
    ensures forall j :: 0 <= j < n ==> s[j].Full?
    ensures n < |s| ==> s[n].Empty?
  {
    FirstEmpty(s, 0)
  }

  /** The levels of the full prefix, best first. */
  function Filled(s: seq<Slot>): (v: seq<Level>)
    ensures |v| == Count(s)
    ensures forall j :: 0 <= j < |v| ==> s[j] == Full(v[j])
  {
    seq(Count(s), j requires 0 <= j < Count(s) => s[j].level)
  }

  /** The levels of every full slot, in slot order, wherever they sit. */
  function Occupied(s: seq<Slot>): (v: seq<Level>)
    ensures |v| <= |s|
  {
    if s == [] then []
    else
      var n := |s| - 1;
      Occupied(s[..n]) + (if s[n].Full? then [s[n].level] else [])
  }

  /** A well-formed buffer is full up to `Count` and empty after it. */
  lemma WellFormedShape(side: Side, s: seq<Slot>)
    requires WellFormed(side, s)
    ensures forall j :: Count(s) <= j < |s| ==> s[j].Empty?
  {
  }

  lemma {:induction false} OccupiedAppend(s: seq<Slot>, t: seq<Slot>)
    ensures Occupied(s + t) == Occupied(s) + Occupied(t)
    decreases |t|
  {
    if t == [] {
      assert s + t == s;
    } else {
      var n := |t| - 1;
      var last := if t[n].Full? then [t[n].level] else [];
      OccupiedAppend(s, t[..n]);
      assert (s + t)[..|s + t| - 1] == s + t[..n];
      assert (s + t)[|s + t| - 1] == t[n];
      assert Occupied(s + t) == Occupied(s + t[..n]) + last;
      assert Occupied(t) == Occupied(t[..n]) + last;
    }
  }

  /** Read from a buffer full up to `n` and empty after it, the full slots are the prefix. */
  lemma {:induction false} OccupiedOfPrefix(s: seq<Slot>, n: nat)
    requires n <= |s|
    requires forall j :: 0 <= j < n ==> s[j].Full?
    requires forall j :: n <= j < |s| ==> s[j].Empty?
    ensures Occupied(s) == seq(n, j requires 0 <= j < n => s[j].level)
    decreases |s|
  {
    if s != [] {
      var m := |s| - 1;
      if n <= m {
        OccupiedOfPrefix(s[..m], n);
      } else {
        OccupiedOfPrefix(s[..m], m);
      }
    }
  }

  /** In a well-formed buffer the full slots are exactly the prefix. */
  lemma OccupiedIsFilled(side: Side, s: seq<Slot>)
    requires WellFormed(side, s)
    ensures Occupied(s) == Filled(s)
  {
    WellFormedShape(side, s);
    OccupiedOfPrefix(s, Count(s));
  }

  /** The levels of a well-formed buffer run strictly from best to worst. */
  lemma FilledIsRanked(side: Side, s: seq<Slot>)
    requires WellFormed(side, s)
    ensures forall i, j :: 0 <= i < j < |Filled(s)| ==> Better(side, Filled(s)[i].price, Filled(s)[j].price)
  {
  }

  // ---------------------------------------------------------------------------------------------
  // Search
  // ---------------------------------------------------------------------------------------------

  /** The outcome of `find_index_bids` / `find_index_asks`: `Ok(index)` or `Err(index)`. */
  datatype Search = Found(index: nat) | Vacant(index: nat)

  /** Every slot before `i` holds a level strictly better than `target`. */
  predicate Before(side: Side, s: seq<Slot>, target: real, i: nat) {
    forall j :: 0 <= j < i && j < |s| ==> s[j].Full? && Better(side, s[j].level.price, target)
  }

  /** Every slot from `i` on is empty or holds a level strictly worse than `target`. */
  predicate After(side: Side, s: seq<Slot>, target: real, i: nat) {
    forall j :: i <= j < |s| ==> s[j].Empty? || Better(side, target, s[j].level.price)
  }

  /** Some full slot holds `price`. */
  predicate Holds(s: seq<Slot>, price: real) {
    exists j :: 0 <= j < |s| && s[j].Full? && s[j].level.price == price
  }

  /** One probe of the search: `Less` sends it left (the slot is empty or worse than the target),
      `Greater` sends it right, `Equal` is a hit. */
  function Probe(side: Side, target: real, slot: Slot): Ordering {
    if slot.Empty? || Better(side, target, slot.level.price) then Less
    else if Better(side, slot.level.price, target) then Greater
    else Equal
  }

  /** The outcome of one probe: a hit, or the narrower bracket the search goes on with. */
  datatype Narrowing = Hit(index: nat) | Bracket(left: nat, right: nat)

  /** One step of the search over slots `[left, right)`: probe a quarter of the way in and keep
      the part where the target can be. */
  function Narrow(side: Side, s: Buffer, target: real, left: nat, right: nat): (n: Narrowing)
    requires left < right <= Capacity
    ensures n.Hit? ==> left <= n.index < right && s[n.index].Full? && s[n.index].level.price == target
    ensures n.Bracket? ==> left <= n.left <= n.right <= right && n.right - n.left < right - left
  {
    var mid := left + (right - left) / 4;
    match Probe(side, target, s[mid])
    case Less => Bracket(left, mid)
    case Greater => Bracket(mid + 1, right)
    case Equal => Hit(mid)
  }

  /** The search over slots `[left, right)`, narrowing until a hit or an empty bracket. */
  function Locate(side: Side, s: Buffer, target: real, left: nat, right: nat): (r: Search)
    requires left <= right <= Capacity
    ensures r.Found? ==> left <= r.index < right && s[r.index].Full? && s[r.index].level.price == target
    ensures r.Vacant? ==> left <= r.index <= right
    decreases right - left
  {
    if left >= right then Vacant(left)
    else
      match Narrow(side, s, target, left, right)
      case Hit(i) => Found(i)
      case Bracket(l, r) => Locate(side, s, target, l, r)
  }

  /** On a well-formed buffer, a miss of the search over a bracket lands where the target belongs. */
  lemma LocateMissIsInsertionPoint(side: Side, s: Buffer, target: real, left: nat, right: nat)
    requires left <= right <= Capacity
    requires WellFormed(side, s) && Before(side, s, target, left) && After(side, s, target, right)
    ensures Locate(side, s, target, left, right).Vacant? ==>
      Before(side, s, target, Locate(side, s, target, left, right).index)
      && After(side, s, target, Locate(side, s, target, left, right).index)
  {
    forall j | 0 <= j < Capacity && Probe(side, target, s[j]) == Less
      ensures After(side, s, target, j)
    {
      ProbeLessBound(side, s, target, j);
    }
    forall j | 0 <= j < Capacity && Probe(side, target, s[j]) == Greater
      ensures Before(side, s, target, j + 1)
    {
      ProbeGreaterBound(side, s, target, j);
    }
    if Locate(side, s, target, left, right).Vacant? {
      LocateMissBefore(side, s, target, left, right, Locate(side, s, target, left, right).index);
      LocateMissAfter(side, s, target, left, right, Locate(side, s, target, left, right).index);
    }
  }

  /** Every slot before a miss holds a better level, when every slot that sends the search right
      is preceded only by better ones. */
  lemma {:induction false} LocateMissBefore(side: Side, s: Buffer, target: real, left: nat, right: nat, k: nat)
    requires left <= right <= Capacity
    requires forall j :: 0 <= j < Capacity && Probe(side, target, s[j]) == Greater ==> Before(side, s, target, j + 1)
    requires Before(side, s, target, left)
    requires Locate(side, s, target, left, right) == Vacant(k)
    ensures Before(side, s, target, k)
    decreases right - left
  {
    if left < right {
      var mid := left + (right - left) / 4;
      match Probe(side, target, s[mid])
      case Less =>
        assert Narrow(side, s, target, left, right) == Bracket(left, mid);
        LocateMissBefore(side, s, target, left, mid, k);
      case Greater =>
        assert Narrow(side, s, target, left, right) == Bracket(mid + 1, right);
        LocateMissBefore(side, s, target, mid + 1, right, k);
      case Equal =>
    }
  }

  /** Every slot from a miss on is empty or holds a worse level, when every slot that sends the
      search left is followed only by worse ones. */
  lemma {:induction false} LocateMissAfter(side: Side, s: Buffer, target: real, left: nat, right: nat, k: nat)
    requires left <= right <= Capacity
    requires forall j :: 0 <= j < Capacity && Probe(side, target, s[j]) == Less ==> After(side, s, target, j)
    requires After(side, s, target, right)
    requires Locate(side, s, target, left, right) == Vacant(k)
    ensures After(side, s, target, k)
    decreases right - left
  {
    if left < right {
      var mid := left + (right - left) / 4;
      match Probe(side, target, s[mid])
      case Less =>
        assert Narrow(side, s, target, left, right) == Bracket(left, mid);
        LocateMissAfter(side, s, target, left, mid, k);
      case Greater =>
        assert Narrow(side, s, target, left, right) == Bracket(mid + 1, right);
        LocateMissAfter(side, s, target, mid + 1, right, k);
      case Equal =>
    }
  }

  lemma ProbeLessBound(side: Side, s: Buffer, target: real, mid: nat)
    requires WellFormed(side, s) && mid < Capacity && Probe(side, target, s[mid]) == Less
    ensures After(side, s, target, mid)
  {
  }

  lemma ProbeGreaterBound(side: Side, s: Buffer, target: real, mid: nat)
    requires WellFormed(side, s) && mid < Capacity && Probe(side, target, s[mid]) == Greater
    ensures Before(side, s, target, mid + 1)
  {
    forall j | 0 <= j <= mid
      ensures s[j].Full? && Better(side, s[j].level.price, target)
    {
      if j < mid {
        assert s[j].Full? && Better(side, s[j].level.price, s[mid].level.price);
      }
    }
  }

  /** `find_index_bids` (side `Bid`) and `find_index_asks` (side `Ask`). On a well-formed buffer a
      hit is exactly a slot holding the price, and a miss is the slot where the price belongs: every
      slot before it better, every slot from it on empty or worse. */
  function SearchFor(side: Side, s: Buffer, target: real): (r: Search)
    ensures r.Found? ==> r.index < Capacity && s[r.index].Full? && s[r.index].level.price == target
    ensures r.Vacant? ==> r.index <= Capacity
    ensures WellFormed(side, s) && r.Vacant? ==>
      Before(side, s, target, r.index) && After(side, s, target, r.index)
    ensures WellFormed(side, s) ==> (r.Found? <==> Holds(s, target))
  {
    if WellFormed(side, s) then
      LocateMissIsInsertionPoint(side, s, target, 0, Capacity);
      Locate(side, s, target, 0, Capacity)
    else Locate(side, s, target, 0, Capacity)
  }

  /** The search as the source writes it: a loop narrowing `[left, right)` one probe at a time. The
      source's `size` is always `right - left`, so each probe is taken from the bracket itself. */
  method FindIndex(side: Side, s: Buffer, target: real) returns (r: Search)
    ensures r == SearchFor(side, s, target)
  {
    var left := 0;
    var right := Capacity;
    while left < right
      invariant left <= right <= Capacity
      invariant Locate(side, s, target, left, right) == Locate(side, s, target, 0, Capacity)
      decreases right - left
    {
      match Narrow(side, s, target, left, right) {
        case Hit(i) => return Found(i);
        case Bracket(l, r) => left, right := l, r;
      }
    }
    return Vacant(left);
  }

  /** On a full buffer whose every level beats the target, the search answers `Err(100)`: one past
      the last slot. */
  lemma FullBufferSearchReturnsCapacity(side: Side, s: Buffer, target: real)
    requires WellFormed(side, s) && s[Capacity - 1].Full?
    requires Better(side, s[Capacity - 1].level.price, target)
    ensures SearchFor(side, s, target) == Vacant(Capacity)
  {
    var r := SearchFor(side, s, target);
  }

  // ---------------------------------------------------------------------------------------------
  // Edits
  // ---------------------------------------------------------------------------------------------

  /** `Buffer::insert(index, level)`: the level goes to `index` and the run of full slots from
      `index` shifts one place towards the back, up to the first empty slot, which it fills. On a
      full buffer the last level falls off the end. */
  function InsertAt(s: Buffer, index: nat, level: Level): (r: Buffer)
    requires index < Capacity
    ensures forall j :: 0 <= j < index ==> r[j] == s[j]
    ensures r[index] == Full(level)
    ensures forall j :: index < j < Capacity && j <= FirstEmpty(s, index) ==> r[j] == s[j - 1]
    ensures forall j :: FirstEmpty(s, index) < j < Capacity ==> r[j] == s[j]
  {
    var e := FirstEmpty(s, index);
    seq(Capacity, j requires 0 <= j < Capacity =>
      if j < index then s[j] else if j == index then Full(level) else if j <= e then s[j - 1] else s[j])
  }

  /** The buffer part-way through `Buffer::insert`: slots up to `next` written, the rest untouched. */
  ghost function InsertStage(s: Buffer, index: nat, level: Level, next: nat): (r: seq<Slot>)
    ensures |r| == Capacity
  {
    seq(Capacity, j requires 0 <= j < Capacity =>
      if j < index then s[j] else if j == index then Full(level) else if j < next then s[j - 1] else s[j])
  }

  /** `Buffer::insert` as the source writes it: a `replace` chain that stops once it displaces an
      empty slot. */
  method Insert(s: Buffer, index: nat, level: Level) returns (r: Buffer)
    requires index < Capacity
    ensures r == InsertAt(s, index, level)
  {
    var buf: seq<Slot> := s[index := Full(level)];
    var replaced := s[index];
    var next := index + 1;
    assert buf == InsertStage(s, index, level, next);
    while next < Capacity
      invariant index + 1 <= next <= Capacity
      invariant replaced == s[next - 1]
      invariant forall j :: index <= j < next - 1 ==> s[j].Full?
      invariant buf == InsertStage(s, index, level, next)
    {
      if replaced.Empty? {
        break;
      }
      var displaced := buf[next];
      buf := buf[next := replaced];
      assert buf == InsertStage(s, index, level, next + 1);
      replaced := displaced;
      next := next + 1;
    }
    var e := FirstEmpty(s, index);
    assert next == Capacity || e == next - 1;
    r := buf;
    assert r == InsertAt(s, index, level);
  }

  /** `Buffer::remove(index)`: the slot is emptied and the hole moves back past the full slots after
      it, so the run that followed shifts one place towards the front. */
  function RemoveAt(s: Buffer, index: nat): (r: Buffer)
    requires index < Capacity
    ensures forall j :: 0 <= j < index ==> r[j] == s[j]
    ensures forall j :: index <= j < FirstEmpty(s, index + 1) - 1 ==> r[j] == s[j + 1]
    ensures r[FirstEmpty(s, index + 1) - 1] == Empty
    ensures forall j :: FirstEmpty(s, index + 1) <= j < Capacity ==> r[j] == s[j]
  {
    var e := FirstEmpty(s, index + 1);
    seq(Capacity, j requires 0 <= j < Capacity =>
      if j < index then s[j] else if j < e - 1 then s[j + 1] else if j == e - 1 then Empty else s[j])
  }

  /** The buffer part-way through `Buffer::remove`: the hole has reached slot `next - 1`. */
  ghost function RemoveStage(s: Buffer, index: nat, next: nat): (r: seq<Slot>)
    requires next <= Capacity
    ensures |r| == Capacity
  {
    seq(Capacity, j requires 0 <= j < Capacity =>
      if j < index then s[j] else if j < next - 1 then s[j + 1] else if j == next - 1 then Empty else s[j])
  }

  /** `Buffer::remove` as the source writes it: empty the slot, then `move_back` swaps the hole
      forward until the next slot is empty. Returns the buffer and the slot taken out. */
  method Remove(s: Buffer, index: nat) returns (r: Buffer, removed: Slot)
    requires index < Capacity
    ensures r == RemoveAt(s, index)
    ensures removed == s[index]
  {
    removed := s[index];
    var buf: seq<Slot> := s[index := Empty];
    var next := index + 1;
    assert buf == RemoveStage(s, index, next);
    while next < Capacity
      invariant index + 1 <= next <= Capacity
      invariant forall j :: index + 1 <= j < next ==> s[j].Full?
      invariant buf == RemoveStage(s, index, next)
    {
      if buf[next].Empty? {
        break;
      }
      buf := buf[next - 1 := buf[next]][next := Empty];
      assert buf == RemoveStage(s, index, next + 1);
      next := next + 1;
    }
    var e := FirstEmpty(s, index + 1);
    assert e == next;
    r := buf;
    assert r == RemoveAt(s, index);
  }

  /** `Buffer::modify(index, size)`: the level at `index` takes the new size and keeps its price. */
  function Modify(s: Buffer, index: nat, size: real): (r: Buffer)
    requires index < Capacity
    ensures s[index].Full? ==> r[index] == Full(Level(s[index].level.price, size))
    ensures forall j :: 0 <= j < Capacity && (j != index || s[j].Empty?) ==> r[j] == s[j]
  {
    if s[index].Full? then s[index := Full(s[index].level.(size := size))] else s
  }

  /** The best level of a side: the level in the first slot, or none when that slot is empty. */
  function First(s: Buffer): (r: Option<Level>)
    ensures r.Some? <==> s[0].Full?
    ensures r.Some? ==> r.value == s[0].level
  {
    if s[0].Full? then Some(s[0].level) else None
  }

  /** `Buffer::first` as written: it tests the price against 0.0 rather than against NaN, so an
      empty first slot comes back as a level and a level priced 0.0 comes back as none. */
  function FirstAsWritten(s: Buffer): (r: Option<Slot>)
    ensures r.None? <==> s[0].Full? && s[0].level.price == 0.0
    ensures r.Some? ==> r.value == s[0]
  {
    if s[0].Full? && s[0].level.price == 0.0 then None else Some(s[0])
  }

  /** On a well-formed buffer the first slot holds the best level, and is empty only when all are. */
  lemma FirstIsBest(side: Side, s: Buffer)
    requires WellFormed(side, s)
    ensures First(s).None? ==> forall j :: 0 <= j < Capacity ==> s[j].Empty?
    ensures First(s).Some? ==>
      forall j :: 0 < j < Capacity && s[j].Full? ==> Better(side, First(s).value.price, s[j].level.price)
  {
  }

  /** The two ways `first` as written disagrees with the best level: an empty side reports the empty
      slot as a level, and a level priced 0.0 is reported as no level. */
  lemma FirstAsWrittenMisreports(level: Level)
    requires level.price == 0.0
    ensures FirstAsWritten(New()) == Some(Empty) && First(New()) == None
    ensures var s := New()[0 := Full(level)];
      FirstAsWritten(s) == None && First(s) == Some(level)
  {
  }

  /** A best level in the form `first` as written returns it: a slot, where an empty slot stands for
      the NaN-priced level. */
  function AsSlot(best: Option<Level>): (r: Option<Slot>)
    ensures r.None? <==> best.None?
    ensures r.Some? ==> r.value.Full? && r.value.level == best.value
  {
    if best.Some? then Some(Full(best.value)) else None
  }

  /** Rust's `==` on two bests read by `first` as written (src/level.rs:47-51 compares price and
      size): a NaN-priced level, an empty slot here, equals nothing, not even itself. */
  predicate SameAsWritten(a: Option<Slot>, b: Option<Slot>) {
    match a
    case None => b.None?
    case Some(x) => b.Some? && x.Full? && b.value.Full? && x.level == b.value.level
  }

  /** `first` as written reads the best correctly exactly when the first slot holds a level whose
      price is not 0.0. */
  lemma FirstAsWrittenAgrees(s: Buffer)
    ensures FirstAsWritten(s) == AsSlot(First(s)) <==> s[0].Full? && s[0].level.price != 0.0
  {
  }

  /** `top_bids(n)` / `top_asks(n)`: scan every slot, keep the full ones, and stop as soon as `n`
      are kept. The length check comes after the push, so with `n == 0` the scan stops at once only
      when the first slot is empty; otherwise it never stops early and keeps every level. */
  method Top(s: Buffer, n: nat) returns (r: seq<Level>)
    ensures n > 0 ==> r == Take(Occupied(s), n)
    ensures n == 0 ==> r == if s[0].Empty? then [] else Occupied(s)
  {
    r := [];
    var k := 0;
    while k < Capacity
      invariant 0 <= k <= Capacity
      invariant r == Occupied(s[..k])
      invariant n > 0 ==> |r| < n
      invariant n == 0 && k > 0 ==> s[0].Full? && |r| > 0
    {
      assert s[..k + 1][..k] == s[..k];
      if s[k].Full? {
        r := r + [s[k].level];
      }
      if |r| == n {
        OccupiedAppend(s[..k + 1], s[k + 1..]);
        assert s[..k + 1] + s[k + 1..] == s;
        assert Occupied(s)[..n] == r;
        return;
      }
      k := k + 1;
    }
    assert s[..Capacity] == s;
  }

  // ---------------------------------------------------------------------------------------------
  // What the edits do to a well-formed buffer
  // ---------------------------------------------------------------------------------------------

  /** Levels strictly from best to worst. */
  predicate Ranked(side: Side, v: seq<Level>) {
    forall i, j :: 0 <= i < j < |v| ==> Better(side, v[i].price, v[j].price)
  }

  /** A buffer holding a ranked sequence as its prefix, and nothing after it, is well formed and
      holds exactly that sequence. */
  lemma RankedPrefixIsWellFormed(side: Side, s: seq<Slot>, v: seq<Level>)
    requires |v| <= |s| && Ranked(side, v)
    requires forall k :: 0 <= k < |v| ==> s[k] == Full(v[k])
    requires forall k :: |v| <= k < |s| ==> s[k].Empty?
    ensures WellFormed(side, s) && Filled(s) == v
  {
    FirstEmptyIs(s, 0, |v|);
  }

  /** The first empty slot from `from` is the end of the run of full slots that starts there. */
  lemma {:induction false} FirstEmptyIs(s: seq<Slot>, from: nat, e: nat)
    requires from <= e <= |s|
    requires forall k :: from <= k < e ==> s[k].Full?
    requires e < |s| ==> s[e].Empty?
    ensures FirstEmpty(s, from) == e
    decreases e - from
  {
    if from < e {
      FirstEmptyIs(s, from + 1, e);
    }
  }

  lemma {:induction false} FirstEmptyReachesCount(s: seq<Slot>, from: nat)
    requires from <= Count(s)
    ensures FirstEmpty(s, from) == Count(s)
    decreases |s| - from
  {
    if from < Count(s) {
      FirstEmptyReachesCount(s, from + 1);
    }
  }

  /** Putting a level between the better and the worse ones keeps a sequence ranked. */
  lemma RankedInsert(side: Side, v: seq<Level>, i: nat, level: Level)
    requires Ranked(side, v) && i <= |v|
    requires forall k :: 0 <= k < i ==> Better(side, v[k].price, level.price)
    requires forall k :: i <= k < |v| ==> Better(side, level.price, v[k].price)
    ensures Ranked(side, v[..i] + [level] + v[i..])
  {
    var w := v[..i] + [level] + v[i..];
    assert forall k :: 0 <= k < |w| ==> w[k] == if k < i then v[k] else if k == i then level else v[k - 1];
  }

  /** Dropping one level keeps a sequence ranked. */
  lemma RankedRemove(side: Side, v: seq<Level>, i: nat)
    requires Ranked(side, v) && i < |v|
    ensures Ranked(side, v[..i] + v[i + 1..])
  {
    var w := v[..i] + v[i + 1..];
    forall a, b | 0 <= a < b < |w|
      ensures Better(side, w[a].price, w[b].price)
    {
      var a' := if a < i then a else a + 1;
      var b' := if b < i then b else b + 1;
      assert w[a] == v[a'] && w[b] == v[b'];
    }
  }

  /** A prefix of a ranked sequence is ranked. */
  lemma RankedTake(side: Side, v: seq<Level>, n: nat)
    requires Ranked(side, v)
    ensures Ranked(side, Take(v, n))
  {
  }

  /** Inserting at the slot the search picks for a new price keeps the buffer well formed, and puts
      the level into the ranked sequence at that position; a full buffer loses its worst level. */
  lemma InsertKeepsWellFormed(side: Side, s: Buffer, i: nat, level: Level)
    requires WellFormed(side, s) && i < Capacity
    requires Before(side, s, level.price, i) && After(side, s, level.price, i)
    ensures WellFormed(side, InsertAt(s, i, level))
    ensures Filled(InsertAt(s, i, level)) == Take(Filled(s)[..i] + [level] + Filled(s)[i..], Capacity)
  {
    var f := Filled(s);
    var n := Count(s);
    WellFormedShape(side, s);
    assert i <= n;
    FirstEmptyReachesCount(s, i);
    FilledIsRanked(side, s);
    forall k | 0 <= k < i
      ensures Better(side, f[k].price, level.price)
    {
      assert s[k] == Full(f[k]);
    }
    forall k | i <= k < n
      ensures Better(side, level.price, f[k].price)
    {
      assert s[k] == Full(f[k]);
    }
    var w := f[..i] + [level] + f[i..];
    RankedInsert(side, f, i, level);
    RankedTake(side, w, Capacity);
    var v := Take(w, Capacity);
    var r := InsertAt(s, i, level);
    forall k | 0 <= k < |v|
      ensures r[k] == Full(v[k])
    {
      if k < i {
        assert v[k] == f[k];
      } else if k > i {
        assert v[k] == f[k - 1] && r[k] == s[k - 1];
      }
    }
    RankedPrefixIsWellFormed(side, r, v);
  }

  /** Removing a held level keeps the buffer well formed and takes that level out of the ranked
      sequence. */
  lemma RemoveKeepsWellFormed(side: Side, s: Buffer, i: nat)
    requires WellFormed(side, s) && i < Capacity && s[i].Full?
    ensures WellFormed(side, RemoveAt(s, i))
    ensures Filled(RemoveAt(s, i)) == Filled(s)[..i] + Filled(s)[i + 1..]
  {
    var f := Filled(s);
    var n := Count(s);
    WellFormedShape(side, s);
    assert i < n;
    FirstEmptyReachesCount(s, i + 1);
    FilledIsRanked(side, s);
    RankedRemove(side, f, i);
    var v := f[..i] + f[i + 1..];
    var r := RemoveAt(s, i);
    forall k | 0 <= k < |v|
      ensures r[k] == Full(v[k])
    {
      if k < i {
        assert v[k] == f[k];
      } else {
        assert v[k] == f[k + 1] && r[k] == s[k + 1];
      }
    }
    RankedPrefixIsWellFormed(side, r, v);
  }

  /** Changing the size of a held level keeps the buffer well formed and changes only that size. */
  lemma ModifyKeepsWellFormed(side: Side, s: Buffer, i: nat, size: real)
    requires WellFormed(side, s) && i < Capacity && s[i].Full?
    ensures WellFormed(side, Modify(s, i, size))
    ensures Filled(Modify(s, i, size)) == Filled(s)[i := Level(s[i].level.price, size)]
  {
    var f := Filled(s);
    WellFormedShape(side, s);
    var v := f[i := Level(s[i].level.price, size)];
    forall a, b | 0 <= a < b < |v|
      ensures Better(side, v[a].price, v[b].price)
    {
      assert s[a] == Full(f[a]) && s[b] == Full(f[b]);
    }
    RankedPrefixIsWellFormed(side, Modify(s, i, size), v);
  }
}
