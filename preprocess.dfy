/**
 * `preprocess_article(article)`, defined identically in both pipeline scripts:
 * join title and summary as `f"{title}. {summary}"`, strip tags, parse with the
 * language model, keep the tokens that are neither stop-words nor punctuation,
 * and join their texts with single spaces. The language model's tokenizer is a
 * parameter: it is outside this model.
 */
module Preprocess {
  import opened PyStr
  import opened Html
  import opened Sequences

  /** A scraped article: a JSON object with string values ("title", "link", "summary"). */
  type Article = map<string, string>

  /** One token of the parsed document, with the two flags the filter reads. */
  datatype Token = Token(text: string, isStop: bool, isPunct: bool)

  /** The `KeyError` that `article[key]` raises for a missing key. */
  datatype KeyError = KeyError(key: string)

  datatype Result<T> = Ok(value: T) | Err(error: KeyError)

  /** The text handed to the tokenizer: `clean_html(f"{title}. {summary}")`. */
  function StrippedText(title: string, summary: string): string {
    CleanHtml(title + ". " + summary)
  }

  /** A token survives the filter when it is neither a stop-word nor punctuation. */
  predicate Survives(t: Token) {
    !t.isStop && !t.isPunct
  }

  /** The texts of all tokens, in document order. */
  function Texts(doc: seq<Token>): seq<string> {
    seq(|doc|, i requires 0 <= i < |doc| => doc[i].text)
  }

  /** `[token.text for token in doc if not token.is_stop and not token.is_punct]`. */
  function SurvivingTexts(doc: seq<Token>): seq<string>
    decreases |doc|
  {
    if doc == [] then [] else (if Survives(doc[0]) then [doc[0].text] else []) + SurvivingTexts(doc[1..])
  }

  /**
   * `preprocess_article(article)` with the tokenizer `nlp`. Reading `article['title']`
   * before `article['summary']`, it raises `KeyError` for the first missing key.
   */
  function PreprocessArticle(article: Article, nlp: string -> seq<Token>): (r: Result<string>)
    ensures r.Ok? <==> "title" in article && "summary" in article
    ensures "title" !in article ==> r == Err(KeyError("title"))
    ensures "title" in article && "summary" !in article ==> r == Err(KeyError("summary"))
  {
    if "title" !in article then Err(KeyError("title"))
    else if "summary" !in article then Err(KeyError("summary"))
    else Ok(JoinSpace(SurvivingTexts(nlp(StrippedText(article["title"], article["summary"])))))
  }

  // ---------------------------------------------------------------------------
  // The filter

  /** A text is kept exactly when some token with that text is neither a stop-word nor punctuation. */
  lemma {:induction false} SurvivingTextsExactly(doc: seq<Token>)
    ensures forall w :: w in SurvivingTexts(doc) <==>
      exists i :: 0 <= i < |doc| && doc[i].text == w && Survives(doc[i])
    decreases |doc|
  {
    if doc != [] {
      SurvivingTextsExactly(doc[1..]);
      forall w ensures w in SurvivingTexts(doc) <==>
        exists i :: 0 <= i < |doc| && doc[i].text == w && Survives(doc[i])
      {
        if exists i :: 0 <= i < |doc| && doc[i].text == w && Survives(doc[i]) {
          var i :| 0 <= i < |doc| && doc[i].text == w && Survives(doc[i]);
          if i > 0 {
            assert doc[1..][i - 1] == doc[i];
          }
        }
        if w in SurvivingTexts(doc[1..]) {
          var i :| 0 <= i < |doc[1..]| && doc[1..][i].text == w && Survives(doc[1..][i]);
          assert doc[i + 1] == doc[1..][i];
        }
      }
    }
  }

  /** The kept texts appear in document order: a subsequence of all token texts. */
  lemma {:induction false} SurvivingTextsInOrder(doc: seq<Token>)
    ensures IsSubseq(SurvivingTexts(doc), Texts(doc))
    decreases |doc|
  {
    if doc != [] {
      SurvivingTextsInOrder(doc[1..]);
      assert Texts(doc)[1..] == Texts(doc[1..]);
      assert Texts(doc)[0] == doc[0].text;
      if Survives(doc[0]) {
        assert SurvivingTexts(doc)[1..] == SurvivingTexts(doc[1..]);
      } else {
        assert SurvivingTexts(doc) == SurvivingTexts(doc[1..]);
        SubseqOfSuffix(SurvivingTexts(doc[1..]), Texts(doc), 1);
      }
    }
  }

  /** Filtering a concatenation filters each part: entries are neither merged nor dropped. */
  lemma {:induction false} SurvivingTextsAppend(a: seq<Token>, b: seq<Token>)
    ensures SurvivingTexts(a + b) == SurvivingTexts(a) + SurvivingTexts(b)
    decreases |a|
  {
    if a == [] {
      assert a + b == b;
    } else {
      assert (a + b)[1..] == a[1..] + b;
      SurvivingTextsAppend(a[1..], b);
    }
  }

  /**
   * The comprehension's append step: token `i` adds exactly one entry, its text,
   * after those of the earlier tokens when it survives, and nothing otherwise.
   */
  lemma SurvivingTextsSnoc(doc: seq<Token>, i: nat)
    requires i < |doc|
    ensures SurvivingTexts(doc[..i + 1])
         == SurvivingTexts(doc[..i]) + (if Survives(doc[i]) then [doc[i].text] else [])
  {
    assert doc[..i + 1] == doc[..i] + [doc[i]];
    SurvivingTextsAppend(doc[..i], [doc[i]]);
    assert [doc[i]][1..] == [];
  }

  // ---------------------------------------------------------------------------
  // The whole preprocessing step

  /**
   * The output is the single-space join of the surviving token texts: when they
   * contain no spaces and at least one survives, `output.split(" ")` gives them back.
   */
  lemma PreprocessSplitsBack(article: Article, nlp: string -> seq<Token>)
    requires "title" in article && "summary" in article
    requires var kept := SurvivingTexts(nlp(StrippedText(article["title"], article["summary"])));
      |kept| >= 1 && forall i :: 0 <= i < |kept| ==> ' ' !in kept[i]
    ensures PreprocessArticle(article, nlp).Ok?
    ensures SplitSpace(PreprocessArticle(article, nlp).value)
         == SurvivingTexts(nlp(StrippedText(article["title"], article["summary"])))
  {
    SplitSpaceJoinSpace(SurvivingTexts(nlp(StrippedText(article["title"], article["summary"]))));
  }

  /**
   * A kept token whose text is a space, as spaCy produces for runs of whitespace,
   * is not recovered by `split(" ")`: between the space-free texts `x` and `z`,
   * the join `x + "   " + z` splits into two empty pieces.
   */
  lemma WhitespaceTokenSplitsApart(x: string, z: string)
    requires ' ' !in x && ' ' !in z
    ensures JoinSpace([x, " ", z]) == x + "   " + z
    ensures SplitSpace(JoinSpace([x, " ", z])) == [x, "", "", z]
  {
    JoinAroundSpace(x, z);
    SplitSpaceRun(z);
    var s := x + "   " + z;
    assert s[..|x|] == x && s[|x|] == ' ' && s[|x| + 1..] == "  " + z;
    SplitAfter(s, x, ["", "", z]);
  }

  lemma JoinAroundSpace(x: string, z: string)
    ensures JoinSpace([x, " ", z]) == x + "   " + z
  {
    assert [x, " ", z][1..] == [" ", z];
    assert [" ", z][1..] == [z];
    assert JoinSpace([z]) == z;
    assert JoinSpace([" ", z]) == " " + " " + z;
    assert x + " " + (" " + " " + z) == x + "   " + z;
  }

  /** Two spaces before a space-free `z` split into two empty pieces and `z`. */
  lemma SplitSpaceRun(z: string)
    requires ' ' !in z
    ensures SplitSpace("  " + z) == ["", "", z]
  {
    assert IndexOf(z, ' ') == |z|;
    var t := " " + z;
    assert t[..0] == "" && t[0] == ' ' && t[1..] == z;
    SplitAfter(t, "", [z]);
    var u := "  " + z;
    assert u[..0] == "" && u[0] == ' ' && u[1..] == t;
    SplitAfter(u, "", ["", z]);
  }

  /** One step of `split(" ")`: the piece before the first space, then the split of the rest. */
  lemma SplitAfter(s: string, piece: string, rest: seq<string>)
    requires ' ' !in piece
    requires |piece| < |s| && s[..|piece|] == piece && s[|piece|] == ' '
    requires SplitSpace(s[|piece| + 1..]) == rest
    ensures SplitSpace(s) == [piece] + rest
  {
  }

  /** An article whose tokens are all stop-words or punctuation becomes the empty string. */
  lemma PreprocessAllFiltered(article: Article, nlp: string -> seq<Token>)
    requires "title" in article && "summary" in article
    requires var doc := nlp(StrippedText(article["title"], article["summary"]));
      forall i :: 0 <= i < |doc| ==> !Survives(doc[i])
    ensures PreprocessArticle(article, nlp) == Ok("")
  {
    NothingSurvives(nlp(StrippedText(article["title"], article["summary"])));
  }

  lemma {:induction false} NothingSurvives(doc: seq<Token>)
    requires forall i :: 0 <= i < |doc| ==> !Survives(doc[i])
    ensures SurvivingTexts(doc) == []
    decreases |doc|
  {
    if doc != [] {
      assert !Survives(doc[0]);
      NothingSurvives(doc[1..]);
    }
  }

  /** With a tag-free title, the title and the ". " separator reach the tokenizer verbatim. */
  lemma StrippedTextPlainTitle(title: string, summary: string)
    requires '<' !in title
    ensures StrippedText(title, summary) == title + ". " + CleanHtml(summary)
  {
    assert title + ". " + summary == (title + ". ") + summary;
    CleanHtmlAppendAfterLtFree(title + ". ", summary);
  }

  /** With no '<' in either field, the tokenizer sees exactly `title + ". " + summary`. */
  lemma StrippedTextPlain(title: string, summary: string)
    requires '<' !in title && '<' !in summary
    ensures StrippedText(title, summary) == title + ". " + summary
  {
    StrippedTextPlainTitle(title, summary);
    CleanHtmlWithoutLt(summary);
  }

  /**
   * Tags are stripped after the concatenation, so a '<' left open in the title
   * can swallow the ". " separator together with the start of the summary.
   */
  lemma StripAfterConcatenation()
    ensures StrippedText("a<b", "c>d") == "ad"
    ensures CleanHtml("a<b") + ". " + CleanHtml("c>d") == "a<b. c>d"
  {
    var s := "a<b. c>d";
    assert "a<b" + ". " + "c>d" == s;
    assert s[1..] == "<b. c>d";
    assert IndexOf("b. c>d", '>') == 4;
    assert TagLength(s[1..]) == 6;
    assert s[1..][6..] == "d";
    assert CleanHtml("d") == "d";
    assert CleanHtml(s[1..]) == "d";
    assert CleanHtml(s) == "a" + "d";
    CleanHtmlWithoutGt("a<b");
    CleanHtmlWithoutLt("c>d");
  }
}
