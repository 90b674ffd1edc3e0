/** Trade records as the data API returns them, the strictly-newer filter that
    `fetch_trades_for_market` applies to a fetched page, and the maximum
    timestamp that becomes a market's new checkpoint. */
module Trades {
  import opened Wrappers

  /** A trade record. Only `timestamp` is interpreted; every other field
      (price, size, outcome, ...) travels untouched inside `fields`. */
  datatype Trade = Trade(timestamp: Option<int>, fields: string)

  /** `tr.get("timestamp", 0)`: a record without a timestamp reads as 0. */
  function StampOrZero(t: Trade): (z: int) {
    t.timestamp.GetOr(0)
  }

  /** The filter's test: strictly greater than the checkpoint, never equal. */
  predicate IsNewer(t: Trade, lastTs: int) {
    StampOrZero(t) > lastTs
  }

  /** The list comprehension of `fetch_trades_for_market`: the trades of the
      page newer than `lastTs`, in the order the API returned them. */
  function NewerThan(page: seq<Trade>, lastTs: int): (r: seq<Trade>)
    ensures |r| <= |page|
    ensures forall t :: t in r ==> t in page && IsNewer(t, lastTs)
    ensures forall i :: 0 <= i < |page| && IsNewer(page[i], lastTs) ==> page[i] in r
    ensures lastTs >= 0 ==> forall t :: t in r ==> t.timestamp.Some?
    decreases |page|
  {
    if |page| == 0 then []
    else if IsNewer(page[0], lastTs) then [page[0]] + NewerThan(page[1..], lastTs)
    else NewerThan(page[1..], lastTs)
  }

  /** Filtering a concatenation filters each part and keeps them in order:
      the filter never reorders the page. */
  lemma {:induction false} NewerThanAppend(a: seq<Trade>, b: seq<Trade>, lastTs: int)
    ensures NewerThan(a + b, lastTs) == NewerThan(a, lastTs) + NewerThan(b, lastTs)
    decreases |a|
  {
    if |a| == 0 {
      assert a + b == b;
    } else {
      assert (a + b)[0] == a[0];
      assert (a + b)[1..] == a[1..] + b;
      NewerThanAppend(a[1..], b, lastTs);
    }
  }

  /** Every trade of the page that passes the test is kept exactly as many
      times as the page holds it, and every other trade is dropped. */
  lemma {:induction false} NewerThanCounts(page: seq<Trade>, lastTs: int, t: Trade)
    ensures multiset(NewerThan(page, lastTs))[t] ==
            if IsNewer(t, lastTs) then multiset(page)[t] else 0
    decreases |page|
  {
    if |page| > 0 {
      NewerThanCounts(page[1..], lastTs, t);
      assert page == [page[0]] + page[1..];
      assert multiset(page) == multiset([page[0]]) + multiset(page[1..]);
    }
  }

  /** A page whose trades are all newer passes through unchanged; one with
      none newer filters to nothing. */
  lemma {:induction false} NewerThanAllOrNothing(page: seq<Trade>, lastTs: int)
    ensures (forall i :: 0 <= i < |page| ==> IsNewer(page[i], lastTs)) ==> NewerThan(page, lastTs) == page
    ensures (forall i :: 0 <= i < |page| ==> !IsNewer(page[i], lastTs)) ==> NewerThan(page, lastTs) == []
    decreases |page|
  {
    if |page| > 0 {
      NewerThanAllOrNothing(page[1..], lastTs);
      assert forall i :: 0 <= i < |page| - 1 ==> page[1..][i] == page[i + 1];
    }
  }

  /** Filtering again against a checkpoint that is at least as high gives
      the same as filtering once against the higher one; in particular the
      filter is idempotent. */
  lemma {:induction false} NewerThanTwice(page: seq<Trade>, low: int, high: int)
    requires low <= high
    ensures NewerThan(NewerThan(page, low), high) == NewerThan(page, high)
    decreases |page|
  {
    if |page| > 0 {
      NewerThanTwice(page[1..], low, high);
    }
  }

  /** `max(tr["timestamp"] for tr in trades)`. `None` stands for the
      exception the generator raises: `ValueError` on an empty sequence,
      `KeyError` on a trade without a timestamp. */
  function MaxStamp(trades: seq<Trade>): (r: Option<int>)
    ensures r.Some? <==> |trades| > 0 && forall i :: 0 <= i < |trades| ==> trades[i].timestamp.Some?
    ensures r.Some? ==> forall i :: 0 <= i < |trades| ==> trades[i].timestamp.value <= r.value
    ensures r.Some? ==> exists i :: 0 <= i < |trades| && trades[i].timestamp == r
    decreases |trades|
  {
    if |trades| == 0 || trades[0].timestamp.None? then None
    else if |trades| == 1 then trades[0].timestamp
    else
      match MaxStamp(trades[1..])
      case None => None
      case Some(m) =>
        assert forall i :: 1 <= i < |trades| ==> trades[i] == trades[1..][i - 1];
        if trades[0].timestamp.value >= m then trades[0].timestamp else Some(m)
  }

  /** The maximum of a filtered, non-empty batch lies strictly above the
      checkpoint it was filtered against. */
  lemma MaxStampAboveCheckpoint(page: seq<Trade>, lastTs: int)
    requires MaxStamp(NewerThan(page, lastTs)).Some?
    ensures MaxStamp(NewerThan(page, lastTs)).value > lastTs
  {
    var batch := NewerThan(page, lastTs);
    var i :| 0 <= i < |batch| && batch[i].timestamp == MaxStamp(batch);
    assert batch[i] in batch;
  }

  /** Everything the filter passed lies at or below the maximum, so filtering
      the same page against that maximum keeps nothing. */
  lemma NewerThanMaxIsEmpty(page: seq<Trade>, lastTs: int)
    requires MaxStamp(NewerThan(page, lastTs)).Some?
    ensures NewerThan(page, MaxStamp(NewerThan(page, lastTs)).value) == []
  {
    var batch := NewerThan(page, lastTs);
    var top := MaxStamp(batch).value;
    MaxStampAboveCheckpoint(page, lastTs);
    forall i | 0 <= i < |page|
      ensures !IsNewer(page[i], top)
    {
      if IsNewer(page[i], lastTs) {
        assert page[i] in batch;
        var j :| 0 <= j < |batch| && batch[j] == page[i];
        assert batch[j].timestamp.value <= top;
      }
    }
    NewerThanAllOrNothing(page, top);
  }
}
