/** The fixed-array book against the reference book: while a side has room, a depth update leaves
    both books holding the same levels. The fixed book's ask prefix is the reference book's
    ascending ask vector, and its bid prefix is the reference bid vector read from the back. */
module Agreement {
  import opened Wrappers
  import opened Seqs
  import opened Events
  import opened Levels
  import FB = FixedBuffer
  import Fixed = FixedBook
  import Naive = NaiveBook

  /** A well-formed ask buffer holds levels in strictly ascending price order. */
  lemma AskBufferAscends(s: FB.Buffer)
    requires FB.WellFormed(Ask, s)
    ensures Naive.Ascending(FB.Filled(s))
  {
    FB.FilledIsRanked(Ask, s);
  }

  /** A depth update on the ask side of the fixed book and of the reference book, started from the
      same levels, ends with the same levels, provided the buffer is not full and the reference
      side already has a best (so it re-sorts after an upsert). */
  lemma AsksAgree(s: FB.Buffer, fixedBest: Option<Level>, naiveBest: Option<Level>, e: Event)
    requires FB.WellFormed(Ask, s) && FB.Count(s) < FB.Capacity
    requires naiveBest.Some?
    ensures FB.Filled(Fixed.DepthUpdate(Ask, s, fixedBest, e).0)
      == Naive.DepthUpdate(Ask, FB.Filled(s), naiveBest, e).0
  {
    match FB.SearchFor(Ask, s, e.price)
    case Found(i) =>
      Fixed.FoundUpdateKeepsWellFormed(Ask, s, fixedBest, e, i);
      AsksAgreeOnFound(s, i, naiveBest, e);
    case Vacant(i) =>
      Fixed.VacantUpdateKeepsWellFormed(Ask, s, fixedBest, e, i);
      AsksAgreeOnVacant(s, i, naiveBest, e);
  }

  lemma AsksAgreeOnFound(s: FB.Buffer, i: nat, naiveBest: Option<Level>, e: Event)
    requires FB.WellFormed(Ask, s) && i < FB.Count(s) && FB.Filled(s)[i].price == e.price
    requires naiveBest.Some?
    ensures Naive.DepthUpdate(Ask, FB.Filled(s), naiveBest, e).0
      == if e.size == 0.0 then FB.Filled(s)[..i] + FB.Filled(s)[i + 1..]
         else FB.Filled(s)[i := Level(e.price, e.size)]
  {
    var v := FB.Filled(s);
    AskBufferAscends(s);
    Naive.AscendingPositionIsUnique(v, e.price, i);
    if e.size == 0.0 {
      var r := Naive.RemoveAt(v, i);
      assert r == v[..i] + v[i + 1..];
    } else {
      var u := v[i := FromEvent(e)];
      assert Naive.Upserted(v, e) == u;
      Naive.ReplaceKeepsAscending(v, i, FromEvent(e));
      Naive.SortOfSortedIsIdentity(u);
    }
  }

  lemma AsksAgreeOnVacant(s: FB.Buffer, i: nat, naiveBest: Option<Level>, e: Event)
    requires FB.WellFormed(Ask, s) && FB.Count(s) < FB.Capacity && i <= FB.Capacity
    requires FB.Before(Ask, s, e.price, i) && FB.After(Ask, s, e.price, i)
    requires naiveBest.Some?
    ensures Naive.DepthUpdate(Ask, FB.Filled(s), naiveBest, e).0
      == if e.size == 0.0 then FB.Filled(s)
         else Take(FB.Filled(s)[..i] + [FromEvent(e)] + FB.Filled(s)[i..], FB.Capacity)
  {
    VacantIsBetween(Ask, s, i, e.price);
    AskBufferAscends(s);
    AskAbsentAgrees(FB.Filled(s), i, naiveBest, e);
  }

  /** The reference ask vector, given a price it does not hold, ends as the ranked levels with the
      new level at its rank. */
  lemma AskAbsentAgrees(v: seq<Level>, i: nat, naiveBest: Option<Level>, e: Event)
    requires Naive.Ascending(v) && i <= |v| < FB.Capacity
    requires forall k :: 0 <= k < i ==> Better(Ask, v[k].price, e.price)
    requires forall k :: i <= k < |v| ==> Better(Ask, e.price, v[k].price)
    requires naiveBest.Some?
    ensures Naive.DepthUpdate(Ask, v, naiveBest, e).0
      == if e.size == 0.0 then v else Take(v[..i] + [FromEvent(e)] + v[i..], FB.Capacity)
  {
    assert !Naive.HasPrice(v, e.price);
    if e.size != 0.0 {
      var x := FromEvent(e);
      Naive.UpsertNewPriceSorts(Ask, v, naiveBest, e);
      Naive.SortAfterPushIsInsertAtRank(x, v, i);
      TakeAll(v[..i] + [x] + v[i..], FB.Capacity);
    }
  }

  /** A well-formed bid buffer, read from the back, holds levels in strictly ascending price order. */
  lemma BidBufferAscendsReversed(s: FB.Buffer)
    requires FB.WellFormed(Bid, s)
    ensures Naive.Ascending(Reverse(FB.Filled(s)))
  {
    FB.FilledIsRanked(Bid, s);
  }

  /** Removing index `i` of `v` is removing the mirrored index of its reverse. */
  lemma ReverseRemove(v: seq<Level>, i: nat)
    requires i < |v|
    ensures Reverse(Naive.RemoveAt(Reverse(v), |v| - 1 - i)) == v[..i] + v[i + 1..]
  {
    var r := Naive.RemoveAt(Reverse(v), |v| - 1 - i);
    var t := v[..i] + v[i + 1..];
    forall k | 0 <= k < |t|
      ensures Reverse(r)[k] == t[k]
    {
      assert Reverse(r)[k] == r[|r| - 1 - k];
    }
  }

  /** Replacing index `i` of `v` is replacing the mirrored index of its reverse. */
  lemma ReverseUpdate(v: seq<Level>, i: nat, x: Level)
    requires i < |v|
    ensures Reverse(Reverse(v)[|v| - 1 - i := x]) == v[i := x]
  {
    var r := Reverse(v)[|v| - 1 - i := x];
    forall k | 0 <= k < |v|
      ensures Reverse(r)[k] == v[i := x][k]
    {
      assert Reverse(r)[k] == r[|r| - 1 - k];
    }
  }

  /** Inserting before index `i` of `v` is inserting at the mirrored place of its reverse. */
  lemma ReverseInsert(v: seq<Level>, i: nat, x: Level)
    requires i <= |v|
    ensures Reverse(Reverse(v)[..|v| - i] + [x] + Reverse(v)[|v| - i..]) == v[..i] + [x] + v[i..]
  {
    var n := |v|;
    var w := Reverse(v);
    var r := w[..n - i] + [x] + w[n - i..];
    var t := v[..i] + [x] + v[i..];
    assert |r| == n + 1 && |t| == n + 1;
    assert forall m :: 0 <= m < n - i ==> r[m] == v[n - 1 - m];
    assert r[n - i] == x;
    assert forall m :: n - i < m <= n ==> r[m] == v[n - m];
    forall k | 0 <= k <= n
      ensures Reverse(r)[k] == t[k]
    {
      assert Reverse(r)[k] == r[n - k];
      if k < i {
        assert t[k] == v[k];
      } else if k > i {
        assert t[k] == v[k - 1];
      }
    }
  }

  /** A price above the first `i` levels of `v` and below the rest is, in the reverse of `v`,
      above the first `|v| - i` levels and below the rest. */
  lemma ReverseBounds(v: seq<Level>, i: nat, p: real)
    requires i <= |v|
    requires forall k :: 0 <= k < i ==> p < v[k].price
    requires forall k :: i <= k < |v| ==> v[k].price < p
    ensures forall k :: 0 <= k < |v| - i ==> Reverse(v)[k].price < p
    ensures forall k :: |v| - i <= k < |v| ==> p < Reverse(v)[k].price
  {
  }

  /** Where the upsert of a new bid lands in the reference vector: the vector is the reversed
      descending prefix, and the new level goes after the `|v| - i` cheaper ones. */
  lemma InsertBidAtRank(v: seq<Level>, i: nat, x: Level)
    requires i <= |v| && Naive.Ascending(Reverse(v))
    requires forall k :: 0 <= k < i ==> x.price < v[k].price
    requires forall k :: i <= k < |v| ==> v[k].price < x.price
    ensures Naive.SortByPrice(Reverse(v) + [x]) == Reverse(v)[..|v| - i] + [x] + Reverse(v)[|v| - i..]
  {
    ReverseBounds(v, i, x.price);
    Naive.SortAfterPushIsInsertAtRank(x, Reverse(v), |v| - i);
  }

  /** The bid side counterpart of `AsksAgree`. */
  lemma BidsAgree(s: FB.Buffer, fixedBest: Option<Level>, naiveBest: Option<Level>, e: Event)
    requires FB.WellFormed(Bid, s) && FB.Count(s) < FB.Capacity
    requires naiveBest.Some?
    ensures FB.Filled(Fixed.DepthUpdate(Bid, s, fixedBest, e).0)
      == Reverse(Naive.DepthUpdate(Bid, Reverse(FB.Filled(s)), naiveBest, e).0)
  {
    match FB.SearchFor(Bid, s, e.price)
    case Found(i) =>
      Fixed.FoundUpdateKeepsWellFormed(Bid, s, fixedBest, e, i);
      BidBufferAscendsReversed(s);
      BidsAgreeOnFound(FB.Filled(s), i, naiveBest, e);
    case Vacant(i) =>
      Fixed.VacantUpdateKeepsWellFormed(Bid, s, fixedBest, e, i);
      BidsAgreeOnVacant(s, i, naiveBest, e);
  }

  lemma BidsAgreeOnFound(v: seq<Level>, i: nat, naiveBest: Option<Level>, e: Event)
    requires Naive.Ascending(Reverse(v)) && i < |v| && v[i].price == e.price
    requires naiveBest.Some?
    ensures Reverse(Naive.DepthUpdate(Bid, Reverse(v), naiveBest, e).0)
      == if e.size == 0.0 then v[..i] + v[i + 1..] else v[i := Level(e.price, e.size)]
  {
    var w := Reverse(v);
    var j := |v| - 1 - i;
    assert w[j] == v[i];
    Naive.AscendingPositionIsUnique(w, e.price, j);
    if e.size == 0.0 {
      ReverseRemove(v, i);
    } else {
      BidUpdateAgrees(v, i, naiveBest, e);
    }
  }

  lemma BidUpdateAgrees(v: seq<Level>, i: nat, naiveBest: Option<Level>, e: Event)
    requires Naive.Ascending(Reverse(v)) && i < |v| && v[i].price == e.price
    requires naiveBest.Some? && e.size != 0.0
    requires Naive.PositionOf(Reverse(v), e.price) == Some(|v| - 1 - i)
    ensures Reverse(Naive.DepthUpdate(Bid, Reverse(v), naiveBest, e).0) == v[i := Level(e.price, e.size)]
  {
    var w := Reverse(v);
    var j := |v| - 1 - i;
    var u := w[j := FromEvent(e)];
    assert Naive.Upserted(w, e) == u;
    Naive.ReplaceKeepsAscending(w, j, FromEvent(e));
    Naive.SortOfSortedIsIdentity(u);
    ReverseUpdate(v, i, FromEvent(e));
  }

  lemma BidsAgreeOnVacant(s: FB.Buffer, i: nat, naiveBest: Option<Level>, e: Event)
    requires FB.WellFormed(Bid, s) && FB.Count(s) < FB.Capacity && i <= FB.Capacity
    requires FB.Before(Bid, s, e.price, i) && FB.After(Bid, s, e.price, i)
    requires naiveBest.Some?
    ensures Reverse(Naive.DepthUpdate(Bid, Reverse(FB.Filled(s)), naiveBest, e).0)
      == if e.size == 0.0 then FB.Filled(s)
         else Take(FB.Filled(s)[..i] + [FromEvent(e)] + FB.Filled(s)[i..], FB.Capacity)
  {
    VacantIsBetween(Bid, s, i, e.price);
    BidBufferAscendsReversed(s);
    BidAbsentAgrees(FB.Filled(s), i, naiveBest, e);
  }

  /** A miss of the search on a well-formed buffer sits inside the ranked levels, after the better
      ones and before the worse ones. */
  lemma VacantIsBetween(side: Side, s: FB.Buffer, i: nat, p: real)
    requires FB.WellFormed(side, s) && i <= FB.Capacity
    requires FB.Before(side, s, p, i) && FB.After(side, s, p, i)
    ensures i <= |FB.Filled(s)|
    ensures forall k :: 0 <= k < i ==> Better(side, FB.Filled(s)[k].price, p)
    ensures forall k :: i <= k < |FB.Filled(s)| ==> Better(side, p, FB.Filled(s)[k].price)
  {
    var v := FB.Filled(s);
    FB.WellFormedShape(side, s);
    assert forall k :: 0 <= k < |v| ==> s[k] == FB.Full(v[k]);
  }

  /** The reference bid vector, given a price it does not hold, ends as the reversed ranked levels
      with the new level at its rank. */
  lemma BidAbsentAgrees(v: seq<Level>, i: nat, naiveBest: Option<Level>, e: Event)
    requires Naive.Ascending(Reverse(v)) && i <= |v| < FB.Capacity
    requires forall k :: 0 <= k < i ==> Better(Bid, v[k].price, e.price)
    requires forall k :: i <= k < |v| ==> Better(Bid, e.price, v[k].price)
    requires naiveBest.Some?
    ensures Reverse(Naive.DepthUpdate(Bid, Reverse(v), naiveBest, e).0)
      == if e.size == 0.0 then v else Take(v[..i] + [FromEvent(e)] + v[i..], FB.Capacity)
  {
    ReverseLacksPrice(v, i, e.price);
    if e.size == 0.0 {
      ReverseReverse(v);
    } else {
      BidInsertAgrees(v, i, naiveBest, e);
    }
  }

  /** A bid price strictly between the ranked levels is not held by the reversed vector. */
  lemma ReverseLacksPrice(v: seq<Level>, i: nat, p: real)
    requires i <= |v|
    requires forall k :: 0 <= k < i ==> Better(Bid, v[k].price, p)
    requires forall k :: i <= k < |v| ==> Better(Bid, p, v[k].price)
    ensures !Naive.HasPrice(Reverse(v), p)
  {
    var n := |v|;
    var w := Reverse(v);
    forall k | 0 <= k < n
      ensures w[k].price != p
    {
      assert w[k] == v[n - 1 - k];
    }
  }

  lemma BidInsertAgrees(v: seq<Level>, i: nat, naiveBest: Option<Level>, e: Event)
    requires Naive.Ascending(Reverse(v)) && i <= |v| < FB.Capacity
    requires forall k :: 0 <= k < i ==> Better(Bid, v[k].price, e.price)
    requires forall k :: i <= k < |v| ==> Better(Bid, e.price, v[k].price)
    requires naiveBest.Some? && e.size != 0.0 && !Naive.HasPrice(Reverse(v), e.price)
    ensures Reverse(Naive.DepthUpdate(Bid, Reverse(v), naiveBest, e).0)
      == Take(v[..i] + [FromEvent(e)] + v[i..], FB.Capacity)
  {
    var x := FromEvent(e);
    Naive.UpsertNewPriceSorts(Bid, Reverse(v), naiveBest, e);
    InsertBidAtRank(v, i, x);
    ReverseInsert(v, i, x);
    TakeAll(v[..i] + [x] + v[i..], FB.Capacity);
  }

  lemma ReverseReverse(v: seq<Level>)
    ensures Reverse(Reverse(v)) == v
  {
    assert forall k :: 0 <= k < |v| ==> Reverse(Reverse(v))[k] == v[k];
  }
}
