/** The collector process: the `markets_state` table and the market logs
    that `main_loop` changes in place, the per-market poll, `append_trades`,
    one cycle of the `while True` loop and a run of several cycles. Each
    method is proved to change the state exactly as the functions of
    `Poller` say; the properties of those functions carry over. */
module MainLoop {
  import opened Wrappers
  import opened Trades
  import opened Config
  import opened Checkpoints
  import opened Poller

  class Collector {
    /** `MARKETS`, fixed at start-up. */
    const ids: seq<string>
    /** `markets_state`: market -> `last_ts`. */
    var markets: map<string, int>
    /** The contents of each market's `trades_<id>.jsonl`. */
    var logs: map<string, seq<Trade>>
    /** The table `save_overall_state` last wrote; `None` while it has not
        run in this process. */
    var saved: Option<map<string, int>>

    function State(): (st: Store)
      reads this
    {
      Store(markets, logs)
    }

    function Snapshot(): (c: Collected)
      reads this
    {
      Collected(State(), saved)
    }

    /** Every logged trade is at or below its market's checkpoint, and the
        saved table is behind the one in memory. */
    ghost predicate Valid()
      reads this
    {
      LogsBehind(State()) && SavedBehind(Snapshot())
    }

    /** Start-up: `load_state()` followed by `setdefault("markets", {})`.
        `existing` is what the market log files already hold. */
    constructor (ids: seq<string>, stateFile: Option<string>, parse: string -> Option<StateDoc>,
                 existing: map<string, seq<Trade>>)
      ensures this.ids == ids
      ensures markets == StartMarkets(stateFile, parse)
      ensures logs == existing && saved == None
      ensures existing == map[] ==> Valid()
    {
      this.ids := ids;
      markets := MarketsTable(LoadState(stateFile, parse));
      logs := existing;
      saved := None;
    }

    /** `append_trades`: nothing at all for an empty list; otherwise one line
        per trade, in order, until a write raises (`false`). */
    method AppendTrades(id: string, trades: seq<Trade>, fault: Option<nat>) returns (ok: bool)
      modifies this`logs
      ensures ok <==> Written(|trades|, fault) == |trades|
      ensures |trades| == 0 ==> logs == old(logs)
      ensures |trades| > 0 ==>
                logs == old(logs)[id := Log(old(State()), id) + trades[..Written(|trades|, fault)]]
    {
      if |trades| == 0 {
        return true;
      }
      var before := Log(State(), id);
      logs := logs[id := before];
      var i := 0;
      assert before + trades[..0] == before;
      while i < |trades|
        invariant 0 <= i <= |trades|
        invariant fault.Some? ==> i <= fault.value
        invariant logs == old(logs)[id := before + trades[..i]]
      {
        if fault == Some(i) {
          return false;
        }
        assert before + trades[..i + 1] == (before + trades[..i]) + [trades[i]] by {
          assert trades[..i + 1] == trades[..i] + [trades[i]];
        }
        logs := logs[id := logs[id] + [trades[i]]];
        i := i + 1;
      }
      assert trades[..i] == trades;
      return true;
    }

    /** One iteration of the `for` loop for market `id`; the result is the
        exception it raised, if any. */
    method PollMarket(id: string, resp: Response) returns (failure: Option<Failure>)
      modifies this`markets, this`logs
      ensures State() == Step(old(State()), id, resp).store
      ensures failure == Step(old(State()), id, resp).failure
    {
      var lastTs := LastTs(markets, id);
      match resp
      case RequestFailed =>
        return Some(RequestError);
      case NotAList =>
        return Some(MalformedPage);
      case Page(page, fault) =>
        var trades := NewerThan(page, lastTs);
        if |trades| > 0 {
          var top := MaxStamp(trades);
          if top.None? {
            return Some(MissingTimestamp);
          }
          markets := markets[id := top.value];
          var ok := AppendTrades(id, trades, fault);
          if !ok {
            return Some(WriteFailed);
          }
        }
        return None;
    }

    /** One cycle of the `while True` loop: every market in order, then
        `save_overall_state`; an exception skips the remaining markets and
        the save. The result names the market that raised and why. */
    method RunCycle(resps: seq<Response>) returns (stop: Option<(nat, Failure)>)
      requires |resps| == |ids|
      modifies this`markets, this`logs, this`saved
      ensures Snapshot() == Cycle(old(Snapshot()), ids, resps)
      ensures var p := Run(old(State()), ids, resps);
              stop == if p.Finished? then None else Some((p.at, p.why))
      ensures stop.Some? ==> saved == old(saved)
      ensures stop.None? ==> saved == Some(markets)
      ensures old(Valid()) ==> Valid()
    {
      var i := 0;
      while i < |ids|
        invariant 0 <= i <= |ids|
        invariant Run(old(State()), ids[..i], resps[..i]) == Finished(State())
        invariant saved == old(saved)
      {
        RunExtend(old(State()), ids, resps, i, State());
        var failure := PollMarket(ids[i], resps[i]);
        if failure.Some? {
          RunStopsPrefix(old(State()), ids, resps, i + 1);
          stop := Some((i, failure.value));
          CycleKeepsValid(old(Snapshot()), ids, resps);
          return;
        }
        i := i + 1;
      }
      assert ids[..i] == ids && resps[..i] == resps;
      saved := Some(markets);
      stop := None;
      CycleKeepsValid(old(Snapshot()), ids, resps);
    }

    /** The first `|rounds|` cycles of the `while True` loop. */
    method Serve(rounds: seq<seq<Response>>)
      requires forall i :: 0 <= i < |rounds| ==> |rounds[i]| == |ids|
      modifies this`markets, this`logs, this`saved
      ensures Snapshot() == Cycles(old(Snapshot()), ids, rounds)
      ensures forall m :: LastTs(old(markets), m) <= LastTs(markets, m)
      ensures forall m :: Log(old(State()), m) <= Log(State(), m)
      ensures old(Valid()) ==> Valid()
    {
      var k := 0;
      while k < |rounds|
        invariant 0 <= k <= |rounds|
        invariant Snapshot() == Cycles(old(Snapshot()), ids, rounds[..k])
      {
        var _ := RunCycle(rounds[k]);
        assert rounds[..k + 1][..k] == rounds[..k];
        k := k + 1;
      }
      assert rounds[..k] == rounds;
      forall m
        ensures LastTs(old(markets), m) <= LastTs(markets, m)
        ensures Log(old(State()), m) <= Log(State(), m)
      {
        CyclesMonotone(old(Snapshot()), ids, rounds, m);
      }
      if old(Valid()) {
        CyclesKeepInvariants(old(Snapshot()), ids, rounds);
      }
    }
  }

  /** A cycle keeps both parts of `Collector.Valid`. */
  lemma CycleKeepsValid(c: Collected, ids: seq<string>, resps: seq<Response>)
    requires |ids| == |resps|
    ensures LogsBehind(c.store) && SavedBehind(c) ==>
              LogsBehind(Cycle(c, ids, resps).store) && SavedBehind(Cycle(c, ids, resps))
  {
    if LogsBehind(c.store) && SavedBehind(c) {
      RunKeepsLogsBehind(c.store, ids, resps);
      CycleKeepsSavedBehind(c, ids, resps);
    }
  }

  /** Process start: `POLYMARKET_MARKETS` is read (an empty value ends the
      process, `null` here), then the state file is loaded. */
  method Launch(env: string, stateFile: Option<string>, parse: string -> Option<StateDoc>,
                existing: map<string, seq<Trade>>) returns (c: Collector?)
    ensures c == null <==> env == ""
    ensures c != null ==> fresh(c) && c.ids == MarketIds(env) && c.markets == StartMarkets(stateFile, parse)
                          && c.logs == existing && c.saved == None
  {
    var configured := ParseMarkets(env);
    if configured.None? {
      return null;
    }
    c := new Collector(configured.value, stateFile, parse, existing);
  }
}
