# News-to-fund text handling, modelled in Dafny

This project models the deterministic text handling of a news-analysis pipeline. The pipeline answers "why is fund X down?" from scraped news articles. There are two prototype scripts, `news_scraper.py` and `model_run.py`. Both wrap calls to language models (summarizer, sentiment, named entities, sentence embeddings, a vector index) in plain string code. The model covers that string code:

- **`clean_html`** (module `Html`, shared by both scripts). It is `re.sub(r"<[^>]+>", "", text)`, modelled as Python's left-to-right scan for non-overlapping matches. At a `<` whose first following `>` exists and is not the very next character, everything through that `>` is dropped. Otherwise the character is kept and the scan moves on by one.
- **`preprocess_article`** (module `Preprocess`, shared by both scripts). It forms `f"{title}. {summary}"`, strips tags, tokenizes, keeps the tokens that are neither stop-words nor punctuation, and joins them with single spaces. The article is a JSON object (`map<string, string>`). A missing `title` or `summary` raises `KeyError`, modelled as a `Result`. The tokenizer is a function parameter that yields tokens with their `is_stop` and `is_punct` flags.
- **`match_news_to_fund`** (module `NewsScraper`). It looks up `fund_holdings.get(ticker, [])` and returns, in list order, each holding whose lower-case form occurs in the lower-cased `title + " " + summary` text. Missing fields count as `""`.
- **The gate and length rule of `summarize`** (module `NewsScraper`). Text of fewer than 50 `str.split()` words is returned unchanged. Otherwise the summarizer is called with `max_length = min(50, n // 2)` and `min_length = 10`. The summarizer itself is a function parameter.
- **`match_fund`** (module `ModelRun`). It walks the funds in dictionary order, scans each fund's holdings, and appends the fund at the first holding mentioned (then `break`).

Supporting modules:

- `PyStr` holds the Python string built-ins the scripts use, restricted to ASCII: `str.lower`, `in`, `str.split()`, `str.split(" ")` and `" ".join`.
- `Funds` holds the dictionary as an ordered sequence of `(ticker, holdings)` entries. Python dictionaries iterate in insertion order.
- `Sequences` holds subsequence and distinctness facts.

Both matchers are loops that build a list by appending. They are Dafny methods with loop invariants, proved equal to recursive specification functions. Lemmas then characterise those functions: membership in both directions, order, and no duplicates.

Three facts about the code shape the model:

- `preprocess_article` indexes `article['title']` and `article['summary']` directly, so a missing field raises `KeyError`. Only `match_news_to_fund` reads the fields with `.get(..., "")`.
- `preprocess_article` does not lower-case anything. Only the two matchers compare lower-cased text.
- `match_news_to_fund` returns a list of holdings and tests every holding, with no short-circuit. `match_fund` returns a list of funds and stops scanning a fund's holdings at the first one mentioned.

## Model

| member | source | states |
|---|---|---|
| `Html.TagLength` | news_scraper.py:57 | A positive result is exactly a match of `<[^>]+>` at the front: a `<`, one or more non-`>` characters, then `>`. No other length matches there. Zero means nothing matches at the front. |
| `Html.CleanHtml` | news_scraper.py:56-57 | The cleaned text is never longer than the input. |
| `Html.CleanHtmlWithoutLt` | news_scraper.py:56-57 | Text containing no `<` is returned unchanged. |
| `Html.CleanHtmlWithoutGt` | news_scraper.py:57 | Text containing no `>` is returned unchanged. A `<` that is never closed stays as literal text. |
| `Html.CleanHtmlSubseq` | news_scraper.py:57 | The output is a subsequence of the input: characters are only deleted, and the rest keep their order. |
| `Html.CleanHtmlTagFree` | news_scraper.py:57 | No position of the output starts a match of the pattern. |
| `Html.CleanHtmlNoTag` | news_scraper.py:57 | The output contains no substring made of `<`, one or more non-`>` characters, then `>`. |
| `Html.CleanHtmlOfTagFree` | model_run.py:17-18 | Text in which the pattern matches nowhere is returned unchanged. |
| `Html.CleanHtmlIdempotent` | model_run.py:17-18 | Cleaning twice gives the same text as cleaning once. |
| `Html.CleanHtmlKeepsEmptyPair` | news_scraper.py:57 | `"<>"` is not a match: at the front of any text it survives, and the rest is cleaned. |
| `Html.CleanHtmlKeepsUnclosedLt` | news_scraper.py:57 | A `<` with no `>` anywhere after it is kept, together with the text after it, whatever precedes it. |
| `Html.CleanHtmlAppendWithoutGt` | news_scraper.py:57 | A suffix without `>` cannot be reached by any match, so it is copied unchanged after the cleaned prefix. |
| `Html.CleanHtmlAppendAfterLtFree` | news_scraper.py:57 | A prefix without `<` is copied unchanged, and only the rest is cleaned. |
| `PyStr.OccursIff` | news_scraper.py:51 | Python's `needle in hay` holds if and only if the needle occurs contiguously at some position of the hay. |
| `PyStr.WordsAreWords` | news_scraper.py:34 | Every item of `text.split()` is non-empty and contains no whitespace. |
| `PyStr.WordsJoinSpace` | news_scraper.py:34 | `split()` gives back exactly the words that were joined with single spaces. |
| `PyStr.WordsKeepText` | news_scraper.py:34 | `split()` drops only whitespace: the words, concatenated, are the non-whitespace characters of the text in order. |
| `PyStr.WordCountIsRunStarts` | news_scraper.py:34 | `len(text.split())` is the number of positions that begin a maximal run of non-whitespace: a non-whitespace character that is first or follows whitespace. |
| `PyStr.SplitSpaceJoinSpace` | news_scraper.py:65 | `" ".join` is undone by `split(" ")` for a non-empty list of pieces without spaces. |
| `PyStr.JoinSpaceSplitSpace` | model_run.py:25 | `" ".join(s.split(" "))` gives back `s` for every string. |
| `Preprocess.PreprocessArticle` | model_run.py:20-25 | The result is a value if and only if both `title` and `summary` are present. A missing `title` raises `KeyError('title')`, checked first. Otherwise a missing `summary` raises `KeyError('summary')`. |
| `Preprocess.SurvivingTextsExactly` | model_run.py:24 | A token text is kept if and only if some token with that text is neither a stop-word nor punctuation. |
| `Preprocess.SurvivingTextsAppend` | model_run.py:24 | Filtering a concatenation of documents gives the filtered parts, concatenated. No entry is merged, dropped or repeated. |
| `Preprocess.SurvivingTextsSnoc` | news_scraper.py:64 | Token `i` adds exactly one entry, its own text, after the entries of the earlier tokens when it survives. It adds nothing otherwise. So the list has one entry per surviving token, repeated texts included. |
| `Preprocess.SurvivingTextsInOrder` | news_scraper.py:64 | The kept texts are a subsequence of the document's token texts, in document order. |
| `Preprocess.PreprocessSplitsBack` | news_scraper.py:60-65 | Suppose the article has both keys, at least one token is kept, and no kept text contains a space. Then the result is a value, and its `split(" ")` gives back exactly the kept texts, in order and with their repetitions. |
| `Preprocess.WhitespaceTokenSplitsApart` | news_scraper.py:64-65 | A kept token whose text is a space, such as spaCy's whitespace tokens, is not recovered by `split(" ")`. For any space-free texts `x` and `z`, `[x, " ", z]` joins to `x + "   " + z`, which splits into `[x, "", "", z]`. |
| `Preprocess.PreprocessAllFiltered` | news_scraper.py:64-65 | An article whose tokens are all stop-words or punctuation becomes the empty string. |
| `Preprocess.StrippedTextPlainTitle` | news_scraper.py:61-62 | With no `<` in the title, the tokenizer receives the title, then `". "`, then the cleaned summary. |
| `Preprocess.StrippedTextPlain` | model_run.py:21-22 | With no `<` in either field, the tokenizer receives exactly `title + ". " + summary`. |
| `Preprocess.StripAfterConcatenation` | news_scraper.py:61-62 | Tags are stripped after the fields are joined. A title `"a<b"` and a summary `"c>d"` give `"ad"`: the separator is swallowed. Cleaning each field before joining would give `"a<b. c>d"`. |
| `NewsScraper.HoldingsOf` | news_scraper.py:50 | `fund_holdings.get(ticker, [])`: the holdings of the first entry with that key, or `[]` when no entry has it. |
| `NewsScraper.MatchNewsToFund` | news_scraper.py:47-53 | The result is the ticker's holdings that are mentioned, ignoring case, in `title + " " + summary`. Missing fields count as `""`. |
| `NewsScraper.MatchHoldings` | news_scraper.py:49-53 | The append loop returns, in holdings-list order, exactly the holdings whose lower-case form occurs in the lower-cased text. The result is a subsequence of the list. |
| `NewsScraper.UnknownTickerMatchesNothing` | news_scraper.py:50 | A ticker that is not QQQ, VTI or SPY yields `[]` for every article. |
| `NewsScraper.MentionedHoldingsExactly` | news_scraper.py:50-52 | A holding is reported if and only if it is in the list and is a case-insensitive substring of the text. |
| `NewsScraper.MentionedHoldingsInOrder` | news_scraper.py:49-53 | Reported holdings keep the order of the holdings list. |
| `NewsScraper.FieldMentionIsArticleMention` | news_scraper.py:48-51 | A holding mentioned, in any case, in the title or in the summary is mentioned in the searched text. |
| `NewsScraper.SummaryPlan` | news_scraper.py:34-37 | The text passes through if and only if it has fewer than 50 words. Otherwise the bounds are `min_length = 10` and `25 <= max_length <= 50`. `max_length` is below the word count, and it equals 50 if and only if there are at least 100 words. |
| `NewsScraper.Summarize` | news_scraper.py:33-35 | Text of fewer than 50 whitespace-separated words is returned unchanged. |
| `NewsScraper.ShortTextUnchanged` | news_scraper.py:34-35 | Fewer than 50 words joined by spaces come back unchanged, whatever the summarizer does. |
| `NewsScraper.LongTextSummarized` | news_scraper.py:36-37 | 50 or more words joined by spaces go to the summarizer with `max_length = min(50, n // 2)` and `min_length = 10`. |
| `ModelRun.MatchFund` | model_run.py:50-57 | The nested loop with `break` returns exactly the funds with a holding mentioned in the text, ignoring case. Funds appear in dictionary order, at most one result per entry. The result has no duplicates when the keys are distinct. |
| `ModelRun.MatchedFundsExactly` | model_run.py:52-55 | A fund is reported if and only if one of its entries has a holding that is a case-insensitive substring of the text. |
| `ModelRun.MatchedFundsInOrder` | model_run.py:51-57 | Reported funds are a subsequence of the dictionary's keys, in iteration order. |
| `ModelRun.MatchedFundsDistinct` | model_run.py:53-56 | With distinct keys, no fund is listed twice, and there are at most as many results as funds. |
| `ModelRun.EmptyHoldingsNeverMatch` | model_run.py:52-53 | A fund with an empty holdings list is never reported, and an empty dictionary yields `[]`. |
| `ModelRun.TeslaMatchesQqq` | model_run.py:45-55 | With the script's own table, any text that contains "Tesla" in any case is matched to QQQ. |

## Left out

- Case folding and whitespace are ASCII only. `str.lower()` is modelled for 'A'..'Z'. `str.split()` whitespace is space, `\t`..`\r` and `\x1c`..`\x1f`. Unicode case mappings and Unicode whitespace are not modelled.
- The language models are outside this model. spaCy tokenization is a parameter returning tokens with `is_stop`/`is_punct` flags, and the summarizer is a parameter. TextBlob polarity (`get_sentiment`), spaCy entities (`extract_entities`), SentenceTransformer encoding and FAISS index building and search (`build_faiss_index`, `search`) are left out. They are library calls, and their results are floating point.
- `search` hard-codes `k=3`. With fewer than three documents, FAISS pads the result with index -1, and `docs[-1]` then silently yields the last document. Not modelled, because it lives in the index library.
- `analyze_news` (both scripts) is not modelled: it reads files and prints. It pairs the i-th search hit with `summaries[i]`, `sentiments[i]`, `entities[i]` and `matched_funds[i]`. That is, by rank rather than by the retrieved document's position, so a hit is shown next to another article's enrichment (news_scraper.py:143-148, model_run.py:93-99).
- `model_run.summarize` is not modelled: it calls the summarizer directly, with no gate.
- `Preprocess.PreprocessSplitsBack`: spaCy emits whitespace tokens (text `" "`) that are neither stop-words nor punctuation, so they survive the filter. Such texts fall outside the lemma's precondition. `Preprocess.WhitespaceTokenSplitsApart` shows that the round trip then fails.
- `preprocess_news_file` is not modelled: it reads a JSON file and maps `preprocess_article` over it.
- `NewsScraper.Summarize`: the summarizer's output is unconstrained, so the model does not promise a non-empty summary for long text.
- `NewsScraper.MatchNewsToFund`: the loop over the holdings is the separate method `NewsScraper.MatchHoldings`, so that the loop's proof does not unfold the literal table. The behaviour is the same.
- Scraping (`scrape_news_for_query`), model loading at import time, the market-data fetchers, the SQLite helpers, the plots and the Streamlit app are not modelled: they are network, file, database or UI code. `app.py` calls `match_news_to_fund` without importing it, which would fail at run time. That is not part of this model.
- Article fields that are not strings are not modelled: articles are maps from strings to strings. In Python, `match_news_to_fund` raises `TypeError` on such a field, because it joins the fields with `+` (news_scraper.py:48). `preprocess_article` does not raise: its f-string formats any value, so a `null` title becomes the text `"None"` (news_scraper.py:61, model_run.py:21).
