/**
 * The deterministic text handling of `model_run.py` beyond the shared
 * `clean_html` and `preprocess_article`: its holdings table and `match_fund`.
 */
module ModelRun {
  import opened PyStr
  import opened Sequences
  import opened Funds

  /** The module-level `fund_holdings` table of this script. */
  const FundHoldings: FundTable := [
    ("QQQ", ["Apple", "Amazon", "NVIDIA", "Tesla"]),
    ("VTI", ["Berkshire", "Johnson & Johnson", "Microsoft"])
  ]

  /** Some holding of the list occurs in `text`, ignoring case. */
  predicate AnyMentioned(text: string, holdings: seq<string>) {
    exists k :: 0 <= k < |holdings| && InIgnoreCase(holdings[k], text)
  }

  /** The funds of `table`, in iteration order, with at least one holding mentioned in `text`. */
  function MatchedFunds(text: string, table: FundTable): seq<string>
    decreases |table|
  {
    if table == [] then []
    else (if AnyMentioned(text, table[0].1) then [table[0].0] else []) + MatchedFunds(text, table[1..])
  }

  /**
   * `match_fund(article_text, fund_holdings)`: for each fund in order, scan its
   * holdings and append the fund on the first one mentioned, then stop scanning it.
   */
  method MatchFund(articleText: string, fundHoldings: FundTable) returns (matches: seq<string>)
    ensures matches == MatchedFunds(articleText, fundHoldings)
    ensures forall f :: f in matches <==>
      (exists i :: 0 <= i < |fundHoldings| && fundHoldings[i].0 == f && AnyMentioned(articleText, fundHoldings[i].1))
    ensures IsSubseq(matches, Keys(fundHoldings))
    ensures |matches| <= |fundHoldings|
    ensures DistinctKeys(fundHoldings) ==> Distinct(matches)
  {
    matches := [];
    var i := 0;
    while i < |fundHoldings|
      invariant 0 <= i <= |fundHoldings|
      invariant matches + MatchedFunds(articleText, fundHoldings[i..]) == MatchedFunds(articleText, fundHoldings)
    {
      var fund := fundHoldings[i].0;
      var holdings := fundHoldings[i].1;
      ghost var before := matches;
      var j := 0;
      while j < |holdings|
        invariant 0 <= j <= |holdings|
        invariant matches == before
        invariant forall k :: 0 <= k < j ==> !InIgnoreCase(holdings[k], articleText)
      {
        if InIgnoreCase(holdings[j], articleText) {
          matches := matches + [fund];
          break;
        }
        j := j + 1;
      }
      assert fundHoldings[i..][1..] == fundHoldings[i + 1..];
      if j == |holdings| {
        assert !AnyMentioned(articleText, holdings);
        assert matches == before;
      } else {
        assert InIgnoreCase(holdings[j], articleText);
        assert matches == before + [fund];
      }
      i := i + 1;
    }
    assert fundHoldings[|fundHoldings|..] == [];
    assert matches == MatchedFunds(articleText, fundHoldings);
    MatchedFundsExactly(articleText, fundHoldings);
    MatchedFundsInOrder(articleText, fundHoldings);
    SubseqBounds(matches, Keys(fundHoldings));
    if DistinctKeys(fundHoldings) {
      SubseqDistinct(matches, Keys(fundHoldings));
    }
  }

  /** A fund is reported exactly when one of its entries has a holding mentioned in the text. */
  lemma {:induction false} MatchedFundsExactly(text: string, table: FundTable)
    ensures forall f :: f in MatchedFunds(text, table) <==>
      exists i :: 0 <= i < |table| && table[i].0 == f && AnyMentioned(text, table[i].1)
    decreases |table|
  {
    if table != [] {
      MatchedFundsExactly(text, table[1..]);
      forall f ensures f in MatchedFunds(text, table) <==>
        exists i :: 0 <= i < |table| && table[i].0 == f && AnyMentioned(text, table[i].1)
      {
        if exists i :: 0 <= i < |table| && table[i].0 == f && AnyMentioned(text, table[i].1) {
          var i :| 0 <= i < |table| && table[i].0 == f && AnyMentioned(text, table[i].1);
          if i > 0 {
            assert table[1..][i - 1] == table[i];
          }
        }
        if f in MatchedFunds(text, table[1..]) {
          var i :| 0 <= i < |table[1..]| && table[1..][i].0 == f && AnyMentioned(text, table[1..][i].1);
          assert table[i + 1] == table[1..][i];
        }
      }
    }
  }

  /** Reported funds follow the dictionary's iteration order, each entry contributing at most once. */
  lemma {:induction false} MatchedFundsInOrder(text: string, table: FundTable)
    ensures IsSubseq(MatchedFunds(text, table), Keys(table))
    decreases |table|
  {
    if table != [] {
      MatchedFundsInOrder(text, table[1..]);
      assert Keys(table)[1..] == Keys(table[1..]);
      if AnyMentioned(text, table[0].1) {
        assert MatchedFunds(text, table)[1..] == MatchedFunds(text, table[1..]);
      } else {
        assert MatchedFunds(text, table) == MatchedFunds(text, table[1..]);
        SubseqOfSuffix(MatchedFunds(text, table[1..]), Keys(table), 1);
      }
    }
  }

  /** At most one result per fund: with distinct keys, no fund is listed twice. */
  lemma MatchedFundsDistinct(text: string, table: FundTable)
    requires DistinctKeys(table)
    ensures Distinct(MatchedFunds(text, table))
    ensures |MatchedFunds(text, table)| <= |table|
  {
    MatchedFundsInOrder(text, table);
    SubseqDistinct(MatchedFunds(text, table), Keys(table));
    SubseqBounds(MatchedFunds(text, table), Keys(table));
  }

  /** A fund whose holdings list is empty is never reported, and an empty table reports nothing. */
  lemma EmptyHoldingsNeverMatch(text: string, table: FundTable, i: nat)
    requires DistinctKeys(table)
    requires i < |table| && table[i].1 == []
    ensures table[i].0 !in MatchedFunds(text, table)
    ensures MatchedFunds(text, []) == []
  {
    MatchedFundsExactly(text, table);
    forall j | 0 <= j < |table| && table[j].0 == table[i].0 ensures j == i {
      assert Keys(table)[j] == Keys(table)[i];
    }
  }

  /** Any text that names Tesla, in any case, is matched to QQQ by the script's own table. */
  lemma TeslaMatchesQqq(text: string)
    requires InIgnoreCase("Tesla", text)
    ensures "QQQ" in MatchedFunds(text, FundHoldings)
  {
    assert FundHoldings[0].1[3] == "Tesla";
    assert AnyMentioned(text, FundHoldings[0].1);
  }
}
