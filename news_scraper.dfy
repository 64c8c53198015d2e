/**
 * The deterministic text handling of `news_scraper.py`: the holdings table,
 * `match_news_to_fund`, and the length gate of `summarize`.
 */
module NewsScraper {
  import opened PyStr
  import opened Sequences
  import opened Funds
  import opened Preprocess

  /** The module-level `fund_holdings` table of this script. */
  const FundHoldings: FundTable := [
    ("QQQ", ["Apple", "Amazon", "NVIDIA", "Tesla"]),
    ("VTI", ["Berkshire", "Johnson & Johnson", "Microsoft"]),
    ("SPY", ["Meta", "Alphabet", "ExxonMobil", "Pfizer"])
  ]

  /** Entry `i` is the first entry of `table` whose key is `ticker`. */
  ghost predicate IsFirstKey(table: FundTable, ticker: string, i: int) {
    0 <= i < |table| && table[i].0 == ticker && forall j :: 0 <= j < i ==> table[j].0 != ticker
  }

  /** `table.get(ticker, [])`: the holdings of the first entry for `ticker`, or none. */
  function HoldingsOf(table: FundTable, ticker: string): (hs: seq<string>)
    ensures (forall i :: 0 <= i < |table| ==> table[i].0 != ticker) ==> hs == []
    ensures forall i :: IsFirstKey(table, ticker, i) ==> hs == table[i].1
    decreases |table|
  {
    if table == [] then []
    else if table[0].0 == ticker then table[0].1
    else
      var hs := HoldingsOf(table[1..], ticker);
      assert forall i :: IsFirstKey(table, ticker, i) ==> IsFirstKey(table[1..], ticker, i - 1);
      hs
  }

  /** `article.get(key, "")`. */
  function GetOrEmpty(article: Article, key: string): string {
    if key in article then article[key] else ""
  }

  /** The text searched for holdings: `article.get("title", "") + " " + article.get("summary", "")`. */
  function ArticleText(article: Article): string {
    GetOrEmpty(article, "title") + " " + GetOrEmpty(article, "summary")
  }

  /** The holdings of `hs` mentioned in `text`, ignoring case, in list order. */
  function MentionedHoldings(text: string, hs: seq<string>): seq<string>
    decreases |hs|
  {
    if hs == [] then []
    else (if InIgnoreCase(hs[0], text) then [hs[0]] else []) + MentionedHoldings(text, hs[1..])
  }

  /**
   * `match_news_to_fund(article, ticker)`: every holding of `ticker` in `fund_holdings`
   * whose lower-case form occurs in the lower-cased title-and-summary text.
   */
  method MatchNewsToFund(article: Article, ticker: string) returns (matches: seq<string>)
    ensures matches == MentionedHoldings(ArticleText(article), HoldingsOf(FundHoldings, ticker))
  {
    matches := MatchHoldings(ArticleText(article), HoldingsOf(FundHoldings, ticker));
  }

  /** The loop of `match_news_to_fund` over the ticker's holdings, appending each one mentioned. */
  method MatchHoldings(text: string, holdings: seq<string>) returns (matches: seq<string>)
    ensures matches == MentionedHoldings(text, holdings)
    ensures forall h :: h in matches <==> h in holdings && InIgnoreCase(h, text)
    ensures IsSubseq(matches, holdings)
  {
    matches := [];
    for i := 0 to |holdings|
      invariant matches + MentionedHoldings(text, holdings[i..]) == MentionedHoldings(text, holdings)
    {
      assert holdings[i..][1..] == holdings[i + 1..];
      if InIgnoreCase(holdings[i], text) {
        matches := matches + [holdings[i]];
      }
    }
    assert holdings[|holdings|..] == [];
    MentionedHoldingsExactly(text, holdings);
    MentionedHoldingsInOrder(text, holdings);
  }

  /** A ticker that is not a key of `fund_holdings` matches nothing, whatever the article says. */
  lemma UnknownTickerMatchesNothing(article: Article, ticker: string)
    requires ticker != "QQQ" && ticker != "VTI" && ticker != "SPY"
    ensures MentionedHoldings(ArticleText(article), HoldingsOf(FundHoldings, ticker)) == []
  {
  }

  /** A holding is reported exactly when it is in the list and mentioned, ignoring case. */
  lemma {:induction false} MentionedHoldingsExactly(text: string, hs: seq<string>)
    ensures forall h :: h in MentionedHoldings(text, hs) <==> h in hs && InIgnoreCase(h, text)
    decreases |hs|
  {
    if hs != [] {
      MentionedHoldingsExactly(text, hs[1..]);
      assert forall h :: h in hs <==> h == hs[0] || h in hs[1..];
    }
  }

  /** Reported holdings keep the order of the holdings list. */
  lemma {:induction false} MentionedHoldingsInOrder(text: string, hs: seq<string>)
    ensures IsSubseq(MentionedHoldings(text, hs), hs)
    decreases |hs|
  {
    if hs != [] {
      MentionedHoldingsInOrder(text, hs[1..]);
      if InIgnoreCase(hs[0], text) {
        assert MentionedHoldings(text, hs)[1..] == MentionedHoldings(text, hs[1..]);
      } else {
        assert MentionedHoldings(text, hs) == MentionedHoldings(text, hs[1..]);
        SubseqOfSuffix(MentionedHoldings(text, hs[1..]), hs, 1);
      }
    }
  }

  /** A holding named in the title, or in the summary, in any case, is a mention in the searched text. */
  lemma FieldMentionIsArticleMention(article: Article, key: string, h: string)
    requires key == "title" || key == "summary"
    requires key in article && InIgnoreCase(h, article[key])
    ensures InIgnoreCase(h, ArticleText(article))
  {
    var title := GetOrEmpty(article, "title");
    var summary := GetOrEmpty(article, "summary");
    LowerAppend(title + " ", summary);
    LowerAppend(title, " ");
    if key == "title" {
      OccursInLeft(Lower(h), Lower(title), Lower(" "));
      OccursInLeft(Lower(h), Lower(title) + Lower(" "), Lower(summary));
    } else {
      OccursInRight(Lower(h), Lower(title + " "), Lower(summary));
    }
  }

  // ---------------------------------------------------------------------------
  // summarize(text)

  /** What `summarize(text)` does: return the text, or call the summarizer with these bounds. */
  datatype SummaryRequest = ReturnUnchanged | CallSummarizer(maxLength: int, minLength: int)

  function Min(a: int, b: int): int {
    if a <= b then a else b
  }

  /**
   * The gate and length rule of `summarize`: fewer than 50 words pass through;
   * otherwise `max_length = min(50, n // 2)` and `min_length = 10`.
   */
  function SummaryPlan(text: string): (p: SummaryRequest)
    ensures p.ReturnUnchanged? <==> WordCount(text) < 50
    ensures p.CallSummarizer? ==> 25 <= p.maxLength <= 50 && p.minLength == 10
    ensures p.CallSummarizer? ==> p.minLength < p.maxLength < WordCount(text)
    ensures p.CallSummarizer? ==> (p.maxLength == 50 <==> WordCount(text) >= 100)
  {
    var n := WordCount(text);
    if n < 50 then ReturnUnchanged else CallSummarizer(Min(50, n / 2), 10)
  }

  /**
   * `summarize(text)`, with the transformer pipeline as the parameter `summarizer`
   * (text, max_length, min_length) -> summary text.
   */
  function Summarize(text: string, summarizer: (string, int, int) -> string): (r: string)
    ensures WordCount(text) < 50 ==> r == text
  {
    match SummaryPlan(text)
    case ReturnUnchanged => text
    case CallSummarizer(maxLength, minLength) => summarizer(text, maxLength, minLength)
  }

  /** Text of fewer than 50 words, however it was written out, comes back unchanged. */
  lemma ShortTextUnchanged(ws: seq<string>, summarizer: (string, int, int) -> string)
    requires forall i :: 0 <= i < |ws| ==> IsWord(ws[i])
    requires |ws| < 50
    ensures Summarize(JoinSpace(ws), summarizer) == JoinSpace(ws)
  {
    WordsJoinSpace(ws);
  }

  /** Text of 50 words or more goes to the summarizer with at most min(50, n // 2) tokens of output. */
  lemma LongTextSummarized(ws: seq<string>, summarizer: (string, int, int) -> string)
    requires forall i :: 0 <= i < |ws| ==> IsWord(ws[i])
    requires |ws| >= 50
    ensures Summarize(JoinSpace(ws), summarizer) == summarizer(JoinSpace(ws), Min(50, |ws| / 2), 10)
  {
    WordsJoinSpace(ws);
  }
}
