/** The checkpoint store: the state document read at start-up by
    `load_state`, the `setdefault("markets", {})` that picks out the
    per-market table, and the per-market lookup that defaults to 0. */
module Checkpoints {
  import opened Wrappers

  /** What the collector reads of a parsed state document: its `"markets"`
      table, when the document has one. Each entry is the market's
      `last_ts`. */
  datatype StateDoc = StateDoc(markets: Option<map<string, int>>)

  /** `{"markets": {}}`, the document `load_state` falls back to. */
  const EmptyState: StateDoc := StateDoc(Some(map[]))

  /** `load_state`: `file` is the state file's text (`None` when it does not
      exist), `parse` is `json.loads` (`None` when it raises). A missing or
      unreadable file never fails the caller; it reads as the empty
      document. */
  function LoadState(file: Option<string>, parse: string -> Option<StateDoc>): (doc: StateDoc)
    ensures file.None? ==> doc == EmptyState
    ensures file.Some? && parse(file.value).None? ==> doc == EmptyState
    ensures file.Some? && parse(file.value).Some? ==> doc == parse(file.value).value
  {
    match file
    case None => EmptyState
    case Some(text) => parse(text).GetOr(EmptyState)
  }

  /** `state.setdefault("markets", {})`: the document's table, or a fresh
      empty one when it has none. */
  function MarketsTable(doc: StateDoc): (t: map<string, int>)
    ensures doc.markets.Some? ==> t == doc.markets.value
    ensures doc.markets.None? ==> t == map[]
  {
    doc.markets.GetOr(map[])
  }

  /** The checkpoint table the first cycle starts from (lines 85-86): empty
      after a missing or unparsable file, else the parsed document's table
      or, when it has none, an empty one. */
  function StartMarkets(file: Option<string>, parse: string -> Option<StateDoc>): (t: map<string, int>)
    ensures file.None? ==> t == map[]
    ensures file.Some? && parse(file.value).None? ==> t == map[]
    ensures file.Some? && parse(file.value).Some? ==>
              t == parse(file.value).value.markets.GetOr(map[])
  {
    MarketsTable(LoadState(file, parse))
  }

  /** `int(markets_state.get(condition_id, {}).get("last_ts", 0))`: a market
      with no entry starts from 0, that is, "fetch everything". */
  function LastTs(markets: map<string, int>, id: string): (t: int)
    ensures id in markets ==> t == markets[id]
    ensures id !in markets ==> t == 0
  {
    if id in markets then markets[id] else 0
  }

  /** A missing file, an unparsable file and a document without a
      `"markets"` table all start every market from 0. */
  lemma StartFromNothing(file: Option<string>, parse: string -> Option<StateDoc>, id: string)
    requires file.None? || parse(file.value).None? || parse(file.value).value.markets.None?
    ensures StartMarkets(file, parse) == map[]
    ensures LastTs(StartMarkets(file, parse), id) == 0
  {
  }

  /** A state file written from a table and read back as that table
      restores every checkpoint. */
  lemma StartFromSaved(table: map<string, int>, text: string, parse: string -> Option<StateDoc>, id: string)
    requires parse(text) == Some(StateDoc(Some(table)))
    ensures StartMarkets(Some(text), parse) == table
    ensures LastTs(StartMarkets(Some(text), parse), id) == LastTs(table, id)
  {
  }
}
