/**
 * `clean_html(text)`, which both pipeline scripts define as
 * `re.sub(r"<[^>]+>", "", text)`: every match of the pattern, found by a
 * left-to-right scan of non-overlapping matches, is deleted.
 */
module Html {
  import opened PyStr
  import opened Sequences

  /** `t` is one whole match of `<[^>]+>`: a '<', at least one character other than '>', then '>'. */
  predicate IsTag(t: string) {
    |t| >= 3 && t[0] == '<' && t[|t| - 1] == '>' && forall k :: 1 <= k < |t| - 1 ==> t[k] != '>'
  }

  /** No substring of `t` matches `<[^>]+>`. */
  ghost predicate NoTag(t: string) {
    forall i, j :: 0 <= i <= j <= |t| ==> !IsTag(t[i..j])
  }

  /**
   * Length of the match of `<[^>]+>` that begins at the front of `s`, or 0 when
   * the pattern does not match there. The match, when there is one, is unique.
   */
  function TagLength(s: string): (n: nat)
    ensures n <= |s|
    ensures n > 0 ==> IsTag(s[..n])
    ensures forall m :: 0 <= m <= |s| && IsTag(s[..m]) ==> m == n
  {
    if |s| >= 2 && s[0] == '<' then
      var k := IndexOf(s[1..], '>');
      if 0 < k < |s| - 1 then
        assert forall j :: 1 <= j < k + 1 ==> s[j] == s[1..][j - 1];
        k + 2
      else
        TagLengthNone(s, k);
        0
    else
      0
  }

  /** When the first '>' after the front '<' is adjacent or missing, no match starts at the front. */
  lemma TagLengthNone(s: string, k: nat)
    requires |s| >= 2 && s[0] == '<'
    requires k == IndexOf(s[1..], '>') && !(0 < k < |s| - 1)
    ensures forall m :: 0 <= m <= |s| ==> !IsTag(s[..m])
  {
  }

  /** The match at the front, if any, is the one that runs to the first '>' after the '<'. */
  lemma TagLengthAt(s: string, m: nat)
    requires m <= |s| && IsTag(s[..m])
    ensures TagLength(s) == m
  {
  }

  /** Python's `re.sub(r"<[^>]+>", "", s)`. */
  function CleanHtml(s: string): (r: string)
    ensures |r| <= |s|
    decreases |s|
  {
    if s == [] then []
    else
      var n := TagLength(s);
      if n > 0 then CleanHtml(s[n..]) else [s[0]] + CleanHtml(s[1..])
  }

  /** Every position of `t` fails to start a match. */
  ghost predicate TagFree(t: string) {
    forall i :: 0 <= i < |t| ==> TagLength(t[i..]) == 0
  }

  lemma TagFreeIsNoTag(t: string)
    requires TagFree(t)
    ensures NoTag(t)
  {
    forall i, j | 0 <= i <= j <= |t| ensures !IsTag(t[i..j]) {
      if i < |t| {
        assert t[i..][..j - i] == t[i..j];
        assert TagLength(t[i..]) == 0;
      }
    }
  }

  // ---------------------------------------------------------------------------
  // Properties of CleanHtml

  /** Text without '<' comes back unchanged. */
  lemma {:induction false} CleanHtmlWithoutLt(s: string)
    requires '<' !in s
    ensures CleanHtml(s) == s
    decreases |s|
  {
    if s != [] {
      assert TagLength(s) == 0;
      assert '<' !in s[1..];
      CleanHtmlWithoutLt(s[1..]);
    }
  }

  /** Text without '>' comes back unchanged: a '<' that is never closed is kept as literal text. */
  lemma {:induction false} CleanHtmlWithoutGt(s: string)
    requires '>' !in s
    ensures CleanHtml(s) == s
    decreases |s|
  {
    if s != [] {
      if |s| >= 2 && s[0] == '<' {
        assert IndexOf(s[1..], '>') == |s| - 1;
      }
      assert TagLength(s) == 0;
      assert '>' !in s[1..];
      CleanHtmlWithoutGt(s[1..]);
    }
  }

  /** The result is the input with some characters deleted, the rest kept in order. */
  lemma {:induction false} CleanHtmlSubseq(s: string)
    ensures IsSubseq(CleanHtml(s), s)
    decreases |s|
  {
    if s != [] {
      var n := TagLength(s);
      if n > 0 {
        CleanHtmlSubseq(s[n..]);
        SubseqOfSuffix(CleanHtml(s[n..]), s, n);
      } else {
        CleanHtmlSubseq(s[1..]);
        assert ([s[0]] + CleanHtml(s[1..]))[1..] == CleanHtml(s[1..]);
      }
    }
  }

  /** If `s` begins with '>', so does its cleaned form. */
  lemma CleanHtmlKeepsLeadingGt(s: string)
    requires s != [] && s[0] == '>'
    ensures CleanHtml(s) != [] && CleanHtml(s)[0] == '>'
  {
  }

  /** The cleaned text contains no match of the pattern. */
  lemma {:induction false} CleanHtmlTagFree(s: string)
    ensures TagFree(CleanHtml(s))
    decreases |s|
  {
    if s != [] {
      var n := TagLength(s);
      if n > 0 {
        CleanHtmlTagFree(s[n..]);
      } else {
        var rest := CleanHtml(s[1..]);
        CleanHtmlTagFree(s[1..]);
        var r := [s[0]] + rest;
        forall i | 0 <= i < |r| ensures TagLength(r[i..]) == 0 {
          if i > 0 {
            assert r[i..] == rest[i - 1..];
          } else if s[0] == '<' && |r| >= 2 {
            // No match starts at this '<' in `s`: the next character is '>' or there is no '>' after it.
            var k := IndexOf(s[1..], '>');
            if k == 0 {
              CleanHtmlKeepsLeadingGt(s[1..]);
              assert IndexOf(r[1..], '>') == 0;
            } else {
              assert '>' !in s[1..];
              CleanHtmlWithoutGt(s[1..]);
              assert r[1..] == s[1..];
            }
          }
        }
      }
    }
  }

  /** Text in which nothing matches the pattern comes back unchanged. */
  lemma {:induction false} CleanHtmlOfTagFree(t: string)
    requires TagFree(t)
    ensures CleanHtml(t) == t
    decreases |t|
  {
    if t != [] {
      assert TagLength(t[0..]) == 0 && t[0..] == t;
      assert TagFree(t[1..]) by {
        forall i | 0 <= i < |t[1..]| ensures TagLength(t[1..][i..]) == 0 {
          assert t[1..][i..] == t[i + 1..];
        }
      }
      CleanHtmlOfTagFree(t[1..]);
    }
  }

  /** The result contains no '<' followed by one or more non-'>' characters and a '>'. */
  lemma CleanHtmlNoTag(s: string)
    ensures NoTag(CleanHtml(s))
  {
    CleanHtmlTagFree(s);
    TagFreeIsNoTag(CleanHtml(s));
  }

  /** Cleaning twice is cleaning once. */
  lemma CleanHtmlIdempotent(s: string)
    ensures CleanHtml(CleanHtml(s)) == CleanHtml(s)
  {
    CleanHtmlTagFree(s);
    CleanHtmlOfTagFree(CleanHtml(s));
  }

  /** An empty pair "<>" is not a match of `<[^>]+>` and survives. */
  lemma CleanHtmlKeepsEmptyPair(s: string)
    ensures CleanHtml("<>" + s) == "<>" + CleanHtml(s)
  {
  }

  /** With no '>' in `r`, no match can reach into `r`, which is copied unchanged. */
  lemma {:induction false} CleanHtmlAppendWithoutGt(p: string, r: string)
    requires '>' !in r
    ensures CleanHtml(p + r) == CleanHtml(p) + r
    decreases |p|
  {
    if p == [] {
      assert p + r == r;
      CleanHtmlWithoutGt(r);
    } else {
      var s := p + r;
      TagLengthAppendWithoutGt(p, r);
      var n := TagLength(p);
      if n > 0 {
        assert s[n..] == p[n..] + r;
        CleanHtmlAppendWithoutGt(p[n..], r);
      } else {
        assert s[1..] == p[1..] + r;
        CleanHtmlAppendWithoutGt(p[1..], r);
      }
    }
  }

  lemma TagLengthAppendWithoutGt(p: string, r: string)
    requires p != [] && '>' !in r
    ensures TagLength(p + r) == TagLength(p)
  {
    var s := p + r;
    var m := TagLength(p);
    if m > 0 {
      assert s[..m] == p[..m];
      TagLengthAt(s, m);
    } else {
      TagInPrefix(p, r);
    }
  }

  /** A match at the front of `p + r` ends inside `p` when `r` has no '>'. */
  lemma TagInPrefix(p: string, r: string)
    requires '>' !in r
    ensures TagLength(p + r) <= |p|
    ensures TagLength(p + r) > 0 ==> IsTag(p[..TagLength(p + r)])
  {
    var s := p + r;
    var n := TagLength(s);
    if n > 0 {
      assert s[..n][n - 1] == '>';
      assert s[..n] == p[..n];
    }
  }

  /** A '<' with no '>' after it is kept, whatever precedes it. */
  lemma CleanHtmlKeepsUnclosedLt(p: string, q: string)
    requires '>' !in q
    ensures CleanHtml(p + "<" + q) == CleanHtml(p) + "<" + q
  {
    assert p + "<" + q == p + ("<" + q);
    CleanHtmlAppendWithoutGt(p, "<" + q);
  }

  /** Text before the first '<' is copied unchanged; matching starts after it. */
  lemma {:induction false} CleanHtmlAppendAfterLtFree(p: string, r: string)
    requires '<' !in p
    ensures CleanHtml(p + r) == p + CleanHtml(r)
    decreases |p|
  {
    if p != [] {
      var s := p + r;
      assert TagLength(s) == 0;
      assert s[1..] == p[1..] + r;
      CleanHtmlAppendAfterLtFree(p[1..], r);
    } else {
      assert p + r == r;
    }
  }
}
