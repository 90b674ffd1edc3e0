/** The market poller and one pass over the market list, as functions of the
    collector's state and of what the outside world answers: the body of the
    `for` loop in `main_loop` (fetch, filter, advance the checkpoint, append)
    and the loop itself, which the surrounding `try` abandons at the first
    exception. */
module Poller {
  import opened Wrappers
  import opened Trades
  import opened Checkpoints

  /** Why a market's poll raised. Each is caught by one of the two
      handlers of `main_loop`, which differ only in the message they
      print. Either way the rest of the cycle is skipped. */
  datatype Failure =
    | RequestError      // requests.get, raise_for_status or resp.json() raised
    | MalformedPage     // iterating the body, or tr.get on one of its elements, raises
    | MissingTimestamp  // tr["timestamp"] raises KeyError inside max(...)
    | WriteFailed       // opening the market's log or writing a line raised

  /** What the outside world does during one market's poll. A body that
      iterates as nothing (`[]`, `{}`, `""`) raises nothing and is
      `Page([], _)`; `NotAList` is a body whose iteration or whose
      elements' `.get` raises (a number, a non-empty string or object, a
      list holding a non-object). */
  datatype Response =
    | RequestFailed
    | NotAList
      /** The page the API returned. `writeFault == Some(k)` means writing
          the (k+1)-th line of the append raises; `None`, that every write
          succeeds. */
    | Page(trades: seq<Trade>, writeFault: Option<nat>)

  /** The collector's mutable state: `markets_state` (market -> `last_ts`)
      and the contents of every market's `trades_<id>.jsonl`. */
  datatype Store = Store(markets: map<string, int>, logs: map<string, seq<Trade>>)

  /** A market's log; a market whose file was never created has an empty one. */
  function Log(s: Store, id: string): (l: seq<Trade>)
    ensures id !in s.logs ==> l == []
  {
    if id in s.logs then s.logs[id] else []
  }

  /** How many of `n` lines reach the log under the given write fault. */
  function Written(n: nat, fault: Option<nat>): (w: nat)
    ensures w <= n
    ensures w < n <==> fault.Some? && fault.value < n
  {
    match fault
    case None => n
    case Some(k) => if k < n then k else n
  }

  /** The trades `fetch_trades_for_market` returns for `id`: those of the
      page strictly newer than the market's checkpoint. */
  function Batch(s: Store, id: string, page: seq<Trade>): (b: seq<Trade>)
    ensures forall t :: t in b ==> t in page && StampOrZero(t) > LastTs(s.markets, id)
    ensures forall i :: 0 <= i < |page| && StampOrZero(page[i]) > LastTs(s.markets, id) ==> page[i] in b
  {
    NewerThan(page, LastTs(s.markets, id))
  }

  datatype StepResult = StepResult(store: Store, failure: Option<Failure>)

  /** One iteration of the `for` loop of `main_loop` for market `id`. The
      checkpoint is advanced to the batch's maximum timestamp before the
      batch is appended, so a failing write leaves the checkpoint advanced
      past trades that never reached the log. Only `id`'s entries can
      change; checkpoints never decrease; the log only grows at its end. */
  function Step(s: Store, id: string, resp: Response): (r: StepResult)
    ensures forall m :: m != id ==> LastTs(r.store.markets, m) == LastTs(s.markets, m)
    ensures forall m :: m != id ==> Log(r.store, m) == Log(s, m)
    ensures LastTs(s.markets, id) <= LastTs(r.store.markets, id)
    ensures Log(s, id) <= Log(r.store, id)
    ensures r.failure.None? ==> resp.Page?
    ensures !resp.Page? ==> r.store == s && r.failure.Some?
  {
    match resp
    case RequestFailed => StepResult(s, Some(RequestError))
    case NotAList => StepResult(s, Some(MalformedPage))
    case Page(page, fault) =>
      var batch := Batch(s, id, page);
      if |batch| == 0 then StepResult(s, None)
      else
        match MaxStamp(batch)
        case None => StepResult(s, Some(MissingTimestamp))
        case Some(top) =>
          MaxStampAboveCheckpoint(page, LastTs(s.markets, id));
          var n := Written(|batch|, fault);
          var s' := Store(s.markets[id := top], s.logs[id := Log(s, id) + batch[..n]]);
          assert forall m :: m != id ==> LastTs(s'.markets, m) == LastTs(s.markets, m);
          assert forall m :: m != id ==> Log(s', m) == Log(s, m);
          StepResult(s', if n < |batch| then Some(WriteFailed) else None)
  }

  /** Empty-batch no-op: when nothing on the page is newer than the
      checkpoint, neither the checkpoint table nor any log changes. */
  lemma StepEmptyBatch(s: Store, id: string, page: seq<Trade>, fault: Option<nat>)
    requires Batch(s, id, page) == []
    ensures Step(s, id, Page(page, fault)) == StepResult(s, None)
  {
  }

  /** A non-empty batch whose trades all carry a timestamp advances the
      checkpoint strictly, to a timestamp that one of the batch's trades
      has and no trade of the batch exceeds; the batch is appended in its
      order, completely unless a write fails. */
  lemma StepAdvances(s: Store, id: string, page: seq<Trade>, fault: Option<nat>)
    requires Batch(s, id, page) != []
    requires forall t :: t in Batch(s, id, page) ==> t.timestamp.Some?
    ensures var batch := Batch(s, id, page);
            var r := Step(s, id, Page(page, fault));
            && id in r.store.markets
            && LastTs(r.store.markets, id) > LastTs(s.markets, id)
            && (exists i :: 0 <= i < |batch| && batch[i].timestamp == Some(LastTs(r.store.markets, id)))
            && (forall i :: 0 <= i < |batch| ==> batch[i].timestamp.value <= LastTs(r.store.markets, id))
            && Log(r.store, id) == Log(s, id) + batch[..Written(|batch|, fault)]
            && (r.failure.None? <==> Written(|batch|, fault) == |batch|)
  {
    var batch := Batch(s, id, page);
    assert forall i :: 0 <= i < |batch| ==> batch[i] in batch;
    MaxStampAboveCheckpoint(page, LastTs(s.markets, id));
  }

  /** A trade without a timestamp can only pass the filter when the stored
      checkpoint is negative; then `max` raises and nothing changes. */
  lemma StepMissingTimestamp(s: Store, id: string, resp: Response)
    requires Step(s, id, resp).failure == Some(MissingTimestamp)
    ensures Step(s, id, resp).store == s
    ensures LastTs(s.markets, id) < 0
  {
  }

  /** The converse: a non-empty batch holding a trade without a timestamp
      makes `max` raise `KeyError` before the checkpoint is touched. */
  lemma StepRaisesOnMissingTimestamp(s: Store, id: string, page: seq<Trade>, fault: Option<nat>)
    requires Batch(s, id, page) != []
    requires exists t :: t in Batch(s, id, page) && t.timestamp.None?
    ensures Step(s, id, Page(page, fault)) == StepResult(s, Some(MissingTimestamp))
  {
  }

  /** Re-fetch idempotence: once a page has been processed (unless `max`
      raised on it), the same page appends nothing and changes nothing
      against any store whose checkpoint for the market is at least the one
      that processing left, whether that is the collector's own next cycle
      or a restart from a checkpoint saved after it. */
  lemma ReplayAppendsNothing(s: Store, id: string, page: seq<Trade>, fault: Option<nat>,
                             later: Store, laterFault: Option<nat>)
    requires Step(s, id, Page(page, fault)).failure != Some(MissingTimestamp)
    requires LastTs(later.markets, id) >= LastTs(Step(s, id, Page(page, fault)).store.markets, id)
    ensures Step(later, id, Page(page, laterFault)) == StepResult(later, None)
  {
    var c := LastTs(s.markets, id);
    var c2 := LastTs(later.markets, id);
    var batch := NewerThan(page, c);
    if |batch| == 0 {
      NewerThanTwice(page, c, c2);
    } else {
      var top := MaxStamp(batch).value;
      NewerThanMaxIsEmpty(page, c);
      MaxStampAboveCheckpoint(page, c);
      NewerThanTwice(page, top, c2);
    }
  }

  /** Because the checkpoint moves before the append, a write that fails
      part-way loses the rest of the batch for good: polling the same page
      again appends nothing, so the log keeps only the trades written
      before the fault. */
  lemma WriteFaultLosesRest(s: Store, id: string, page: seq<Trade>, k: nat, laterFault: Option<nat>)
    requires Step(s, id, Page(page, Some(k))).failure == Some(WriteFailed)
    ensures var first := Step(s, id, Page(page, Some(k)));
            var again := Step(first.store, id, Page(page, laterFault));
            && k < |Batch(s, id, page)|
            && Log(again.store, id) == Log(s, id) + Batch(s, id, page)[..k]
  {
    ReplayAppendsNothing(s, id, page, Some(k), Step(s, id, Page(page, Some(k))).store, laterFault);
  }

  /** At-least-once delivery: if the process dies after appending a batch
      but before the checkpoint table is saved, the restarted process polls
      from the old checkpoint and appends the same batch a second time. */
  lemma LostAdvanceAppendsAgain(s: Store, id: string, page: seq<Trade>)
    requires Batch(s, id, page) != []
    requires forall t :: t in Batch(s, id, page) ==> t.timestamp.Some?
    ensures var first := Step(s, id, Page(page, None));
            var restarted := Store(s.markets, first.store.logs);
            var again := Step(restarted, id, Page(page, None));
            Log(again.store, id) == Log(s, id) + Batch(s, id, page) + Batch(s, id, page)
  {
    var batch := Batch(s, id, page);
    StepAdvances(s, id, page, None);
    var first := Step(s, id, Page(page, None));
    var restarted := Store(s.markets, first.store.logs);
    assert Batch(restarted, id, page) == batch;
    StepAdvances(restarted, id, page, None);
  }

  /** Every trade of `log` carries a timestamp no later than `c`. */
  ghost predicate LogBehind(log: seq<Trade>, c: int) {
    forall i :: 0 <= i < |log| ==> log[i].timestamp.Some? && log[i].timestamp.value <= c
  }

  /** The worked example: market `0xabc` from checkpoint 0 receives trades
      at 100 and 90; both are logged in that order and the checkpoint
      becomes 100. Polled again with trades at 100 and 95, nothing is newer,
      so the log and the checkpoint stay as they are. */
  lemma WorkedExample()
    ensures var first := [Trade(Some(100), "0.5"), Trade(Some(90), "0.4")];
            var after := Store(map["0xabc" := 100], map["0xabc" := first]);
            && Step(Store(map[], map[]), "0xabc", Page(first, None)) == StepResult(after, None)
            && Step(after, "0xabc", Page([Trade(Some(100), "0.5"), Trade(Some(95), "0.6")], None))
               == StepResult(after, None)
  {
    var first := [Trade(Some(100), "0.5"), Trade(Some(90), "0.4")];
    assert NewerThan(first[1..], 0) == [first[1]];
    assert Batch(Store(map[], map[]), "0xabc", first) == first;
    assert MaxStamp(first[1..]) == Some(90);
    assert [] + first[..|first|] == first;
    assert Step(Store(map[], map[]), "0xabc", Page(first, None)).store.markets == map["0xabc" := 100];
    assert Step(Store(map[], map[]), "0xabc", Page(first, None)).store.logs == map["0xabc" := first];
    var second := [Trade(Some(100), "0.5"), Trade(Some(95), "0.6")];
    assert NewerThan(second[1..], 100) == [];
  }

  /** The log invariant: every trade in a market's log carries a timestamp
      no later than the market's checkpoint. */
  ghost predicate LogsBehind(s: Store) {
    forall id :: id in s.logs ==> LogBehind(s.logs[id], LastTs(s.markets, id))
  }

  /** One poll keeps the log invariant: what it appends lies at or below
      the checkpoint it has just set. */
  lemma StepKeepsLogsBehind(s: Store, id: string, resp: Response)
    requires LogsBehind(s)
    ensures LogsBehind(Step(s, id, resp).store)
  {
  }

  /** How far one pass over the market list got. */
  datatype Progress =
    | Finished(store: Store)
      /** The poll of the market at position `at` raised `why`; the markets
          after it were not polled. */
    | Stopped(store: Store, at: nat, why: Failure)

  /** The `for` loop of `main_loop` over the first `|ids|` markets, with
      `resps[i]` what the world answers for `ids[i]`. The first exception
      ends the pass, keeping whatever the failing step had already changed. */
  function Run(s: Store, ids: seq<string>, resps: seq<Response>): (p: Progress)
    requires |ids| == |resps|
    ensures p.Stopped? ==> p.at < |ids|
    decreases |ids|
  {
    if |ids| == 0 then Finished(s)
    else
      var n := |ids| - 1;
      match Run(s, ids[..n], resps[..n])
      case Stopped(st, at, why) => Stopped(st, at, why)
      case Finished(st) =>
        var r := Step(st, ids[n], resps[n]);
        if r.failure.None? then Finished(r.store) else Stopped(r.store, n, r.failure.value)
  }

  /** One poll never lowers a checkpoint and only extends logs, whichever
      market is looked at. */
  lemma StepMonotone(s: Store, id: string, resp: Response, m: string)
    ensures LastTs(s.markets, m) <= LastTs(Step(s, id, resp).store.markets, m)
    ensures Log(s, m) <= Log(Step(s, id, resp).store, m)
  {
  }

  /** Log extension is transitive. */
  lemma PrefixTransitive(a: seq<Trade>, b: seq<Trade>, c: seq<Trade>)
    requires a <= b && b <= c
    ensures a <= c
  {
    assert a == b[..|a|] == c[..|b|][..|a|] == c[..|a|];
  }

  /** A pass lowers no checkpoint at all. */
  lemma RunRaisesAllCheckpoints(s: Store, ids: seq<string>, resps: seq<Response>)
    requires |ids| == |resps|
    ensures forall m :: LastTs(s.markets, m) <= LastTs(Run(s, ids, resps).store.markets, m)
  {
    forall m ensures LastTs(s.markets, m) <= LastTs(Run(s, ids, resps).store.markets, m) {
      RunRaisesCheckpoints(s, ids, resps, m);
    }
  }

  /** A pass never lowers a checkpoint. */
  lemma {:induction false} RunRaisesCheckpoints(s: Store, ids: seq<string>, resps: seq<Response>, m: string)
    requires |ids| == |resps|
    ensures LastTs(s.markets, m) <= LastTs(Run(s, ids, resps).store.markets, m)
    decreases |ids|
  {
    if |ids| > 0 {
      var n := |ids| - 1;
      RunRaisesCheckpoints(s, ids[..n], resps[..n], m);
      RunLastExtendsLog(s, ids, resps, m);
    }
  }

  /** The last poll of a pass lowers no checkpoint and only appends to logs. */
  lemma RunLastExtendsLog(s: Store, ids: seq<string>, resps: seq<Response>, m: string)
    requires |ids| == |resps| > 0
    ensures LastTs(Run(s, ids[..|ids| - 1], resps[..|ids| - 1]).store.markets, m)
            <= LastTs(Run(s, ids, resps).store.markets, m)
    ensures Log(Run(s, ids[..|ids| - 1], resps[..|ids| - 1]).store, m) <= Log(Run(s, ids, resps).store, m)
  {
    var n := |ids| - 1;
    var p := Run(s, ids[..n], resps[..n]);
    if p.Finished? {
      StepMonotone(p.store, ids[n], resps[n], m);
    }
  }

  /** A pass only appends to logs. */
  lemma {:induction false} RunExtendsLogs(s: Store, ids: seq<string>, resps: seq<Response>, m: string)
    requires |ids| == |resps|
    ensures Log(s, m) <= Log(Run(s, ids, resps).store, m)
    decreases |ids|
  {
    if |ids| > 0 {
      var n := |ids| - 1;
      RunExtendsLogs(s, ids[..n], resps[..n], m);
      RunLastExtendsLog(s, ids, resps, m);
      PrefixTransitive(Log(s, m), Log(Run(s, ids[..n], resps[..n]).store, m), Log(Run(s, ids, resps).store, m));
    }
  }

  /** A market not on the list keeps its checkpoint and its log. */
  lemma {:induction false} RunLeavesOthers(s: Store, ids: seq<string>, resps: seq<Response>, m: string)
    requires |ids| == |resps|
    requires m !in ids
    ensures LastTs(Run(s, ids, resps).store.markets, m) == LastTs(s.markets, m)
    ensures Log(Run(s, ids, resps).store, m) == Log(s, m)
    decreases |ids|
  {
    if |ids| > 0 {
      var n := |ids| - 1;
      assert m !in ids[..n];
      RunLeavesOthers(s, ids[..n], resps[..n], m);
      var st := Run(s, ids[..n], resps[..n]).store;
      var r := Step(st, ids[n], resps[n]);
      assert m != ids[n];
      RunLast(s, ids, resps);
    }
  }

  /** The last market of a pass is polled only when the earlier ones all
      succeeded. */
  lemma RunLast(s: Store, ids: seq<string>, resps: seq<Response>)
    requires |ids| == |resps| > 0
    ensures var n := |ids| - 1;
            var p := Run(s, ids[..n], resps[..n]);
            && (p.Stopped? ==> Run(s, ids, resps) == p)
            && (p.Finished? ==> Run(s, ids, resps).store == Step(p.store, ids[n], resps[n]).store)
  {
  }

  /** A pass that has finished the first `i` markets polls market `i` next. */
  lemma RunExtend(s: Store, ids: seq<string>, resps: seq<Response>, i: nat, st: Store)
    requires |ids| == |resps|
    requires i < |ids|
    requires Run(s, ids[..i], resps[..i]) == Finished(st)
    ensures var r := Step(st, ids[i], resps[i]);
            Run(s, ids[..i + 1], resps[..i + 1]) ==
              if r.failure.None? then Finished(r.store) else Stopped(r.store, i, r.failure.value)
  {
    assert ids[..i + 1][..i] == ids[..i] && resps[..i + 1][..i] == resps[..i];
  }

  /** A pass keeps the log invariant. */
  lemma {:induction false} RunKeepsLogsBehind(s: Store, ids: seq<string>, resps: seq<Response>)
    requires |ids| == |resps|
    requires LogsBehind(s)
    ensures LogsBehind(Run(s, ids, resps).store)
    decreases |ids|
  {
    if |ids| > 0 {
      var n := |ids| - 1;
      RunKeepsLogsBehind(s, ids[..n], resps[..n]);
      RunLast(s, ids, resps);
      var p := Run(s, ids[..n], resps[..n]);
      if p.Finished? {
        StepKeepsLogsBehind(p.store, ids[n], resps[n]);
      }
    }
  }

  /** Where a pass stops: every market before position `at` was polled
      successfully, and the state is what the failing step left
      (checkpoint included, if it had already been advanced). */
  lemma {:induction false} RunStopsAt(s: Store, ids: seq<string>, resps: seq<Response>)
    requires |ids| == |resps|
    requires Run(s, ids, resps).Stopped?
    ensures var p := Run(s, ids, resps);
            var before := Run(s, ids[..p.at], resps[..p.at]);
            && before.Finished?
            && Step(before.store, ids[p.at], resps[p.at]) == StepResult(p.store, Some(p.why))
    decreases |ids|
  {
    var n := |ids| - 1;
    var p := Run(s, ids, resps);
    RunLast(s, ids, resps);
    if Run(s, ids[..n], resps[..n]).Stopped? {
      assert ids[..n][..p.at] == ids[..p.at] && resps[..n][..p.at] == resps[..p.at];
      RunStopsAt(s, ids[..n], resps[..n]);
    }
  }

  /** Two answer lists that agree up to `k` agree up to any `j < k` and at `j`. */
  lemma PrefixesAgree(a: seq<Response>, b: seq<Response>, k: nat, j: nat)
    requires j < k <= |a| && k <= |b|
    requires a[..k] == b[..k]
    ensures a[..j] == b[..j] && a[j] == b[j]
  {
    assert a[..j] == a[..k][..j] && b[..j] == b[..k][..j];
    assert a[j] == a[..k][j] && b[j] == b[..k][j];
  }

  /** Error behaviour of a pass: once the market at position `at` raises,
      nothing answered for a later market matters. */
  lemma RunStops(s: Store, ids: seq<string>, resps: seq<Response>, other: seq<Response>)
    requires |ids| == |resps| == |other|
    requires Run(s, ids, resps).Stopped?
    requires other[..Run(s, ids, resps).at + 1] == resps[..Run(s, ids, resps).at + 1]
    ensures Run(s, ids, other) == Run(s, ids, resps)
  {
    var p := Run(s, ids, resps);
    var at := p.at;
    RunStopsAt(s, ids, resps);
    var before := Run(s, ids[..at], resps[..at]);
    RunExtend(s, ids, resps, at, before.store);
    RunStopsPrefix(s, ids, resps, at + 1);
    PrefixesAgree(other, resps, at + 1, at);
    RunExtend(s, ids, other, at, before.store);
    RunStopsPrefix(s, ids, other, at + 1);
  }

  /** A pass that finishes polled every market in order without an
      exception; the one that ends at the last market of a prefix agrees
      with the pass over that prefix. */
  lemma RunPrefixFinished(s: Store, ids: seq<string>, resps: seq<Response>, k: nat)
    requires |ids| == |resps|
    requires k <= |ids|
    requires Run(s, ids, resps).Finished?
    ensures Run(s, ids[..k], resps[..k]).Finished?
  {
    if Run(s, ids[..k], resps[..k]).Stopped? {
      RunStopsPrefix(s, ids, resps, k);
    }
  }

  /** Once a prefix stops, the whole pass stops in the same place. */
  lemma {:induction false} RunStopsPrefix(s: Store, ids: seq<string>, resps: seq<Response>, k: nat)
    requires |ids| == |resps|
    requires k <= |ids|
    requires Run(s, ids[..k], resps[..k]).Stopped?
    ensures Run(s, ids, resps) == Run(s, ids[..k], resps[..k])
    decreases |ids| - k
  {
    if k < |ids| {
      assert ids[..k + 1][..k] == ids[..k] && resps[..k + 1][..k] == resps[..k];
      RunStopsPrefix(s, ids, resps, k + 1);
    } else {
      assert ids[..k] == ids && resps[..k] == resps;
    }
  }

  /** What the collector keeps between cycles: its state and the checkpoint
      table last written to the state file by `save_overall_state`
      (`None` while nothing has been written in this process). */
  datatype Collected = Collected(store: Store, saved: Option<map<string, int>>)

  /** One cycle of the `while True` loop: a pass, then the save, which an
      exception during the pass skips. */
  function Cycle(c: Collected, ids: seq<string>, resps: seq<Response>): (d: Collected)
    requires |ids| == |resps|
    ensures d.store == Run(c.store, ids, resps).store
    ensures Run(c.store, ids, resps).Finished? ==> d.saved == Some(d.store.markets)
    ensures Run(c.store, ids, resps).Stopped? ==> d.saved == c.saved
    ensures forall m :: LastTs(c.store.markets, m) <= LastTs(d.store.markets, m)
  {
    var p := Run(c.store, ids, resps);
    RunRaisesAllCheckpoints(c.store, ids, resps);
    Collected(p.store, if p.Finished? then Some(p.store.markets) else c.saved)
  }

  /** The saved table never runs ahead of the checkpoints in memory: a
      restart from it resumes at or behind where the process was. */
  ghost predicate SavedBehind(c: Collected) {
    c.saved.Some? ==> forall m :: LastTs(c.saved.value, m) <= LastTs(c.store.markets, m)
  }

  /** A cycle either saves the current table or leaves the saved one,
      which the pass can only have overtaken. */
  lemma CycleKeepsSavedBehind(c: Collected, ids: seq<string>, resps: seq<Response>)
    requires |ids| == |resps|
    requires SavedBehind(c)
    ensures SavedBehind(Cycle(c, ids, resps))
  {
  }

  /** `|rounds|` cycles of the `while True` loop, `rounds[i]` being what
      the world answers during the i-th. No cycle lowers a checkpoint. */
  function Cycles(c: Collected, ids: seq<string>, rounds: seq<seq<Response>>): (d: Collected)
    requires forall i :: 0 <= i < |rounds| ==> |rounds[i]| == |ids|
    ensures |rounds| == 0 ==> d == c
    ensures forall m :: LastTs(c.store.markets, m) <= LastTs(d.store.markets, m)
    decreases |rounds|
  {
    if |rounds| == 0 then c
    else Cycle(Cycles(c, ids, rounds[..|rounds| - 1]), ids, rounds[|rounds| - 1])
  }

  /** Monotonicity over the process lifetime: after any number of cycles no
      checkpoint is lower and no log shorter than before. */
  lemma {:induction false} CyclesMonotone(c: Collected, ids: seq<string>, rounds: seq<seq<Response>>, m: string)
    requires forall i :: 0 <= i < |rounds| ==> |rounds[i]| == |ids|
    ensures LastTs(c.store.markets, m) <= LastTs(Cycles(c, ids, rounds).store.markets, m)
    ensures Log(c.store, m) <= Log(Cycles(c, ids, rounds).store, m)
    decreases |rounds|
  {
    if |rounds| > 0 {
      var n := |rounds| - 1;
      CyclesMonotone(c, ids, rounds[..n], m);
      RunRaisesCheckpoints(Cycles(c, ids, rounds[..n]).store, ids, rounds[n], m);
      var mid := Cycles(c, ids, rounds[..n]).store;
      RunExtendsLogs(mid, ids, rounds[n], m);
      PrefixTransitive(Log(c.store, m), Log(mid, m), Log(Cycles(c, ids, rounds).store, m));
    }
  }

  /** Every logged trade stays at or below its market's checkpoint, and the
      saved table stays behind the one in memory, however many cycles run. */
  lemma {:induction false} CyclesKeepInvariants(c: Collected, ids: seq<string>, rounds: seq<seq<Response>>)
    requires forall i :: 0 <= i < |rounds| ==> |rounds[i]| == |ids|
    requires LogsBehind(c.store) && SavedBehind(c)
    ensures LogsBehind(Cycles(c, ids, rounds).store)
    ensures SavedBehind(Cycles(c, ids, rounds))
    decreases |rounds|
  {
    if |rounds| > 0 {
      var n := |rounds| - 1;
      CyclesKeepInvariants(c, ids, rounds[..n]);
      var mid := Cycles(c, ids, rounds[..n]);
      RunKeepsLogsBehind(mid.store, ids, rounds[n]);
      CycleKeepsSavedBehind(mid, ids, rounds[n]);
    }
  }
}
