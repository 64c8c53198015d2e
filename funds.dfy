/**
 * A `fund_holdings` dictionary: ticker to the list of holding names. Python
 * dictionaries iterate in insertion order, so the table is a sequence of
 * (ticker, holdings) entries in that order.
 */
module Funds {
  import opened Sequences

  type FundTable = seq<(string, seq<string>)>

  /** The tickers, in iteration order. */
  function Keys(table: FundTable): seq<string> {
    seq(|table|, i requires 0 <= i < |table| => table[i].0)
  }

  /** A real dictionary never repeats a key. */
  predicate DistinctKeys(table: FundTable) {
    Distinct(Keys(table))
  }
}
