# Polymarket trade collector — a Dafny model

`polymarket-mm/mining/collector.py` is a long-running process. It polls
the Polymarket data API for the trades of a fixed list of markets and
appends the new ones to one JSON-lines log per market. It also keeps, per
market, a checkpoint `last_ts`. That is the maximum timestamp of the last
non-empty batch the poll filtered (lines 96-97), or the value loaded from
the state file. A write fault can leave part of that batch unlogged, and a
loaded value need not be the timestamp of any logged trade. After every
complete pass over the markets the process writes the checkpoints to a
state file.

This project models that process with the network and the file system
replaced by inputs. It covers:

- the market list read from `POLYMARKET_MARKETS`: split on commas, strip
  each piece, drop the empty ones, and exit on an empty variable;
- the state file read at start-up, with its fallback to an empty table for
  a missing or unparsable file, and `setdefault("markets", {})`;
- the strictly-newer filter of `fetch_trades_for_market`;
- `append_trades`;
- one poll of one market: read the checkpoint, filter, advance the
  checkpoint to the maximum timestamp, append;
- one cycle of the `while True` loop, which gives up the rest of the
  cycle, the save included, at the first exception;
- any finite number of cycles.

Modules:

- `Wrappers`: `Option`.
- `Trades`: the trade record, the filter `NewerThan` and `MaxStamp`
  (`max(...)`).
- `Config`: `str.strip`, `str.split(",")`, the comprehension over the
  pieces, and `ParseMarkets`.
- `Checkpoints`: `load_state`, `setdefault` and the per-market lookup that
  defaults to 0.
- `Poller`: the poll (`Step`), a pass over the market list (`Run`), a cycle
  (`Cycle`) and a run of cycles (`Cycles`). All are functions of the state
  and of what the outside world answers, with the lemmas about them.
- `MainLoop`: the class `Collector` with the fields that `main_loop`
  changes in place (`markets_state`, the log files, the last saved table).
  Its methods are `AppendTrades`, `PollMarket`, `RunCycle` and `Serve`.
  `AppendTrades` (one write per trade) and `RunCycle`/`Serve` (the `for`
  over the markets and the repeated cycles) have the source's loops;
  `PollMarket` is the loop-free body of the `for`. `PollMarket`,
  `RunCycle` and `Serve` are proved to change the state exactly as
  `Poller.Step`, `Poller.Cycle` and `Poller.Cycles` say. `RunCycle` and
  `Serve` are also proved to keep both invariants. `AppendTrades` on its
  own does not keep the log invariant: the checkpoint must move first,
  as `PollMarket` does.

What the outside world does is an input, `Poller.Response`. A request that
raises (`RequestFailed`) is one outcome. A body whose iteration, or the
`.get` of one of whose elements, raises (`NotAList`) is another: a
number, a non-empty string or object, or a list holding a non-object. A
body that iterates as nothing (`[]`, `{}`, `""`) raises nothing and is
`Page([], _)`. A page of trades comes with an optional
write fault: `Some(k)` means writing the (k+1)-th line of the append raises,
and `Some(0)` also covers failing to open the file. `json.loads` of the
state file is a parameter `parse`, partial through `Option`.

A trade is its optional integer timestamp together with its other fields,
which are opaque.

Three behaviours of the code are easy to expect otherwise. The model
follows the code in each:

- One might expect a batch to be appended before the checkpoint moves.
  The code advances the checkpoint (line 97) before the append (line 99).
  So a failing write leaves the checkpoint past trades that never reached
  the log (`Poller.WriteFaultLosesRest`). Within one process that started with no
  log files, every logged trade still stays at or below its market's
  checkpoint (`Poller.StepKeepsLogsBehind`, `Poller.CyclesKeepInvariants`).
- One might expect a failed request to abort only that market's poll. In
  the code the `try` encloses the whole `for` loop and the save (lines
  89-104). Any exception therefore ends the cycle:
  - the later markets are not polled (`Poller.RunStopsAt`, `Poller.RunStops`);
  - the save is skipped, while the in-memory updates carry over to the
    next cycle (`Poller.Cycle`).
- A restart from a table saved after a poll appends nothing more for that
  page (`Poller.ReplayAppendsNothing`). But the table is saved only at the
  end of a cycle. So a restart that lost an in-memory advance re-appends
  a batch that was already logged (`Poller.LostAdvanceAppendsAgain`). The
  process therefore delivers at least once, not exactly once.

## Model

| member | source | states |
|---|---|---|
| `Trades.NewerThan` | polymarket-mm/mining/collector.py:65-68 | keeps only trades of the page, each strictly newer than the checkpoint (a missing timestamp reads as 0); every newer trade of the page is kept; against a non-negative checkpoint no kept trade lacks a timestamp; never longer than the page |
| `Trades.NewerThanAppend` | polymarket-mm/mining/collector.py:65-68 | the filter keeps the page's order: filtering a concatenation concatenates the filtered parts |
| `Trades.NewerThanCounts` | polymarket-mm/mining/collector.py:65-68 | every newer trade is kept exactly as many times as the page holds it; every other trade is kept zero times |
| `Trades.NewerThanAllOrNothing` | polymarket-mm/mining/collector.py:65-68 | a page of only newer trades passes unchanged; a page with none gives the empty list |
| `Trades.NewerThanTwice` | polymarket-mm/mining/collector.py:65-68 | filtering against a lower and then a higher checkpoint equals filtering once against the higher (so the filter is idempotent) |
| `Trades.MaxStamp` | polymarket-mm/mining/collector.py:96 | `max` succeeds exactly on a non-empty list whose trades all carry a timestamp; the result bounds every timestamp and is one of them |
| `Trades.MaxStampAboveCheckpoint` | polymarket-mm/mining/collector.py:94-96 | the maximum of a filtered batch is strictly above the checkpoint it was filtered against |
| `Trades.NewerThanMaxIsEmpty` | polymarket-mm/mining/collector.py:94-97 | filtering the same page against the new checkpoint keeps nothing |
| `Config.Strip` | polymarket-mm/mining/collector.py:23 | the stripped string is no longer than the input and, when non-empty, neither starts nor ends with whitespace |
| `Config.StripIsFactor` | polymarket-mm/mining/collector.py:23 | the input is the stripped string with only whitespace before and after it |
| `Config.StripUnique` | polymarket-mm/mining/collector.py:23 | a trimmed string surrounded by whitespace strips back to itself |
| `Config.StripEmpty` | polymarket-mm/mining/collector.py:23 | a piece strips to empty exactly when it is all whitespace |
| `Config.Split` | polymarket-mm/mining/collector.py:23 | `split(",")` yields at least one piece and no piece contains a comma |
| `Config.JoinSplit` | polymarket-mm/mining/collector.py:23 | rejoining the pieces with commas gives back the input |
| `Config.SplitJoin` | polymarket-mm/mining/collector.py:23 | splitting the comma-join of comma-free pieces gives back the pieces |
| `Config.SplitAround` | polymarket-mm/mining/collector.py:23 | a comma separates the pieces on its left from those on its right |
| `Config.KeepNonEmpty` | polymarket-mm/mining/collector.py:23 | the comprehension yields no more identifiers than pieces, each non-empty with no surrounding whitespace |
| `Config.KeepNonEmptyMembers` | polymarket-mm/mining/collector.py:23 | a string is listed exactly when it is non-empty and the stripped form of some piece |
| `Config.MarketIds` | polymarket-mm/mining/collector.py:23 | `MARKETS` holds at most one identifier per piece, each non-empty, trimmed and comma-free |
| `Config.ParseMarkets` | polymarket-mm/mining/collector.py:20-23 | the process exits exactly when the variable is empty; otherwise it polls `MarketIds` of the variable, so the order and membership lemmas about `MarketIds` apply, and every identifier is non-empty, trimmed and comma-free |
| `Config.MarketIdsInOrder` | polymarket-mm/mining/collector.py:23 | the identifiers of `a,b` are those of `a` followed by those of `b` |
| `Config.MarketIdsSingle` | polymarket-mm/mining/collector.py:23 | one comma-free identifier padded with whitespace reads as its stripped self |
| `Config.OnlySeparatorsYieldNoMarkets` | polymarket-mm/mining/collector.py:20-23 | a non-empty variable of only commas and whitespace passes the exit test and yields the empty list |
| `Checkpoints.LoadState` | polymarket-mm/mining/collector.py:42-47 | a missing file and an unparsable file read as `{"markets": {}}`; a parsable file reads as its parse |
| `Checkpoints.MarketsTable` | polymarket-mm/mining/collector.py:86 | the document's table when it has one, else a fresh empty table |
| `Checkpoints.LastTs` | polymarket-mm/mining/collector.py:91-92 | a market's stored checkpoint, or 0 when it has none |
| `Checkpoints.StartMarkets` | polymarket-mm/mining/collector.py:85-86 | the table the first cycle starts from is empty after a missing or unparsable file, and otherwise the parsed document's table or an empty one |
| `Checkpoints.StartFromNothing` | polymarket-mm/mining/collector.py:42-47 | a missing file, an unparsable file or a document without a table starts every market from 0 |
| `Checkpoints.StartFromSaved` | polymarket-mm/mining/collector.py:42-45 | a file that parses back to a table restores every checkpoint of that table |
| `Poller.Step` | polymarket-mm/mining/collector.py:90-102 | one poll changes only its own market's checkpoint and log, never lowers the checkpoint, only appends to the log, and succeeds only on a page; a failed request or a malformed body raises and leaves checkpoints and logs as they were |
| `Poller.StepEmptyBatch` | polymarket-mm/mining/collector.py:94-102 | when nothing is newer, neither the checkpoint table nor any log changes, and the poll succeeds |
| `Poller.StepAdvances` | polymarket-mm/mining/collector.py:94-99 | a non-empty batch advances the checkpoint strictly, to a timestamp that one batch trade has and none exceeds; the log becomes the old log followed by the batch in order, up to a failing write; the poll succeeds exactly when every line was written |
| `Poller.StepRaisesOnMissingTimestamp` | polymarket-mm/mining/collector.py:94-96 | a non-empty batch holding a trade without a timestamp makes `max` raise `KeyError`, and the poll leaves checkpoints and logs as they were |
| `Poller.StepMissingTimestamp` | polymarket-mm/mining/collector.py:96 | when `max` raises `KeyError`, nothing has changed, and this can only happen under a negative stored checkpoint |
| `Poller.ReplayAppendsNothing` | polymarket-mm/mining/collector.py:91-99 | once a page has been processed, the same page against any checkpoint at or above the new one appends nothing and changes nothing |
| `Poller.WriteFaultLosesRest` | polymarket-mm/mining/collector.py:96-99 | after a write fault at line k, re-polling the same page leaves the log at the old log plus the first k trades of the batch |
| `Poller.LostAdvanceAppendsAgain` | polymarket-mm/mining/collector.py:97-104 | a restart from the checkpoint before a logged batch appends that batch a second time |
| `Poller.WorkedExample` | polymarket-mm/mining/collector.py:90-102 | market `0xabc` from nothing receives trades at 100 and 90, logs both in that order and checkpoints 100; a second page at 100 and 95 changes nothing |
| `Poller.StepKeepsLogsBehind` | polymarket-mm/mining/collector.py:96-99 | one poll keeps every logged trade at or below its market's checkpoint |
| `Poller.StepMonotone` | polymarket-mm/mining/collector.py:92-99 | for every market, one poll never lowers the checkpoint and only appends to the log |
| `Poller.RunRaisesCheckpoints` | polymarket-mm/mining/collector.py:90-102 | a pass never lowers any market's checkpoint |
| `Poller.RunExtendsLogs` | polymarket-mm/mining/collector.py:90-102 | a pass only appends to any market's log |
| `Poller.RunLeavesOthers` | polymarket-mm/mining/collector.py:90-102 | a market not on the list keeps its checkpoint and its log |
| `Poller.RunKeepsLogsBehind` | polymarket-mm/mining/collector.py:90-102 | a pass keeps every logged trade at or below its market's checkpoint |
| `Poller.RunStopsAt` | polymarket-mm/mining/collector.py:89-109 | when a pass stops at position `at`, every earlier market was polled successfully, and the state is exactly what the failing poll left, including its checkpoint advance |
| `Poller.RunStops` | polymarket-mm/mining/collector.py:89-109 | once a pass has stopped at `at`, the answers for later markets make no difference: none of them is polled |
| `Poller.RunPrefixFinished` | polymarket-mm/mining/collector.py:90-104 | a pass that finishes got through every prefix of the list without an exception |
| `Poller.RunStopsPrefix` | polymarket-mm/mining/collector.py:89-109 | once a prefix of the list stops, the whole pass stops there with the same state |
| `Poller.Run` | polymarket-mm/mining/collector.py:90-102 | a pass that stops does so at a position of the market list |
| `Poller.Batch` | polymarket-mm/mining/collector.py:94 | the fetched batch holds only trades of the page newer than the market's stored checkpoint, and all of them |
| `Poller.Cycle` | polymarket-mm/mining/collector.py:89-104 | the next cycle starts from the pass's state whether or not the pass raised; the table is saved exactly when the pass finished, and the saved table is unchanged when it raised; no checkpoint decreases |
| `Poller.Cycles` | polymarket-mm/mining/collector.py:88-111 | no cycles leave everything as it was; any number of cycles lowers no checkpoint |
| `Poller.CycleKeepsSavedBehind` | polymarket-mm/mining/collector.py:89-109 | the saved table never runs ahead of the in-memory checkpoints |
| `Poller.CyclesMonotone` | polymarket-mm/mining/collector.py:88-111 | over any number of cycles no checkpoint decreases and every log only grows at its end |
| `Poller.CyclesKeepInvariants` | polymarket-mm/mining/collector.py:88-111 | over any number of cycles the logs stay behind the checkpoints and the saved table behind the in-memory one |
| `MainLoop.Collector.constructor` | polymarket-mm/mining/collector.py:85-86 | the checkpoint table is the loaded document's `"markets"` table (or empty); nothing is saved yet; with no log files the invariants hold |
| `MainLoop.Collector.AppendTrades` | polymarket-mm/mining/collector.py:73-79 | an empty list changes nothing; otherwise only this market's log changes, becoming the old log followed by the trades in order up to the failing write; success exactly when all were written |
| `MainLoop.Collector.PollMarket` | polymarket-mm/mining/collector.py:90-102 | the new checkpoints and logs, and the exception raised, are those `Poller.Step` gives |
| `MainLoop.Collector.RunCycle` | polymarket-mm/mining/collector.py:89-109 | the new state and saved table are those `Poller.Cycle` gives; the result names where and why the pass stopped; a stopped cycle leaves the saved table as it was and a finished one saves the current table; the invariants are kept |
| `MainLoop.Collector.Serve` | polymarket-mm/mining/collector.py:88-111 | the state after the cycles is that of `Poller.Cycles`; no checkpoint decreases, logs only grow, and the invariants are kept |
| `MainLoop.CycleKeepsValid` | polymarket-mm/mining/collector.py:88-104 | a cycle keeps both invariants of the collector |
| `MainLoop.Launch` | polymarket-mm/mining/collector.py:20-23 | start-up fails exactly on an empty variable; otherwise the collector polls the parsed markets from the loaded checkpoints |

## Left out

- HTTP, meaning `requests.get`, `raise_for_status`, `resp.json()` and the timeout (lines 55-62), is an input. The request either raises, returns a body whose iteration raises, or returns a page.
- The `limit: 1000` page bound (line 57) is not modelled. Pages of any length are allowed.
- File I/O is abstract. This covers `mkdir`, `exists`, `read_text`, `write_text` and `open("a")`. A log is the sequence of trades written to it, and a failed write leaves no partial line.
- `save_overall_state` is modelled as always succeeding. A `write_text` that raises, which the general handler would catch, is not modelled.
- JSON is abstract. `json.loads` of the state file is the `parse` parameter. `json.dumps` of a trade never fails.
- A trade is an optional integer timestamp plus opaque other fields. Timestamps that are floats, strings or `null` are not modelled. For strings and `null`, Python's comparisons and `max` can raise `TypeError`. A float timestamp behaves differently: `int(...)` at line 92 truncates a stored `last_ts` of 100.5 to 100, so a trade at 100.5 that is still on the page passes the filter again and is re-appended every cycle.
- A state document is modelled only by its `"markets"` table, already converted by `int(...)`. A document that is not an object, an entry that is not an object, and a `last_ts` that `int` rejects are not modelled. Nor is a document whose `"markets"` value is not an object, such as `{"markets": []}` or `{"markets": null}`. `setdefault` returns that value. With at least one market, line 91 then raises `AttributeError` for the first market of every cycle, and such a collector never completes a poll or a save again. With an empty market list, line 91 is never reached and every cycle saves the document back unchanged.
- Other top-level keys of the state document are not modelled. The source writes them back unchanged.
- The environment variables other than the market list are not modelled: the data directory and the poll interval. Neither are `print` and `time.sleep` (lines 13-16, 25, 83-84, 100-111).
- The `while True` loop is modelled as any finite number of cycles (`Poller.Cycles`, `MainLoop.Collector.Serve`). Exceptions that neither handler catches, such as `KeyboardInterrupt`, end the process and are not modelled.
- `Poller.Run`: its own contract says only where a pass can stop. What the pass does is stated by the lemmas about it: `RunStopsAt`, `RunStops`, `RunStopsPrefix`, `RunPrefixFinished`, `RunRaisesCheckpoints`, `RunExtendsLogs`, `RunLeavesOthers` and `RunKeepsLogsBehind`.
- `MainLoop.Collector.constructor`: establishes the log invariant only when no log file exists yet. A restarted process can find logged trades above the saved checkpoint (`Poller.LostAdvanceAppendsAgain`).
