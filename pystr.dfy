/**
 * The Python `str` built-ins the pipeline relies on, restricted to ASCII:
 * `str.lower()`, the `in` operator on strings, `str.split()`, `str.split(" ")`
 * and `" ".join(...)`.
 */
module PyStr {

  /** The characters below U+0080 that `str.split()` without an argument treats as whitespace. */
  predicate IsSpace(c: char) {
    c == ' ' || ('\t' <= c <= '\r') || ('\U{1C}' <= c <= '\U{1F}')
  }

  /** ASCII case folding of one character, as `str.lower()` does for 'A'..'Z'. */
  function LowerChar(c: char): char {
    if 'A' <= c <= 'Z' then (c as int + 32) as char else c
  }

  /** `s.lower()` for ASCII text. */
  function Lower(s: string): string {
    seq(|s|, i requires 0 <= i < |s| => LowerChar(s[i]))
  }

  /** Python's `needle in hay` on strings: the needle appears contiguously somewhere in the hay. */
  function Occurs(needle: string, hay: string): bool
    decreases |hay|
  {
    needle <= hay || (hay != [] && Occurs(needle, hay[1..]))
  }

  /** `needle` appears in `hay` starting at position `i`. */
  ghost predicate OccursAt(needle: string, hay: string, i: nat) {
    i + |needle| <= |hay| && hay[i..i + |needle|] == needle
  }

  /** `needle.lower() in hay.lower()`: the case-insensitive mention test of both matchers. */
  predicate InIgnoreCase(needle: string, hay: string) {
    Occurs(Lower(needle), Lower(hay))
  }

  /** Position of the first `c` in `s`, or `|s|` when there is none. */
  function IndexOf(s: string, c: char): (k: nat)
    ensures k <= |s|
    ensures k < |s| ==> s[k] == c
    ensures forall j :: 0 <= j < k ==> s[j] != c
    decreases |s|
  {
    if s == [] || s[0] == c then 0 else 1 + IndexOf(s[1..], c)
  }

  /** `" ".join(ws)`. */
  function JoinSpace(ws: seq<string>): string
    decreases |ws|
  {
    if |ws| == 0 then "" else if |ws| == 1 then ws[0] else ws[0] + " " + JoinSpace(ws[1..])
  }

  /** `s.split(" ")`: the pieces between single spaces; never an empty list. */
  function SplitSpace(s: string): (parts: seq<string>)
    ensures |parts| >= 1
    ensures forall i :: 0 <= i < |parts| ==> ' ' !in parts[i]
    decreases |s|
  {
    var k := IndexOf(s, ' ');
    if k == |s| then [s] else [s[..k]] + SplitSpace(s[k + 1..])
  }

  /** Length of the leading run of non-whitespace characters of `s`. */
  function WordLength(s: string): (n: nat)
    ensures n <= |s|
    ensures forall k :: 0 <= k < n ==> !IsSpace(s[k])
    ensures n < |s| ==> IsSpace(s[n])
    decreases |s|
  {
    if s == [] || IsSpace(s[0]) then 0 else 1 + WordLength(s[1..])
  }

  /** `s.split()`: the maximal runs of non-whitespace characters, left to right. */
  function Words(s: string): seq<string>
    decreases |s|
  {
    if s == [] then []
    else if IsSpace(s[0]) then Words(s[1..])
    else
      var n := WordLength(s);
      [s[..n]] + Words(s[n..])
  }

  /** `len(s.split())`. */
  function WordCount(s: string): nat {
    |Words(s)|
  }

  /** A non-empty string without whitespace, the shape of every item `str.split()` returns. */
  predicate IsWord(w: string) {
    w != [] && forall k :: 0 <= k < |w| ==> !IsSpace(w[k])
  }

  /** The characters of `s` that are not whitespace, in order. */
  function Visible(s: string): string
    decreases |s|
  {
    if s == [] then [] else (if IsSpace(s[0]) then [] else [s[0]]) + Visible(s[1..])
  }

  /** Concatenation of a list of strings, `"".join(ws)`. */
  function Concat(ws: seq<string>): string
    decreases |ws|
  {
    if ws == [] then [] else ws[0] + Concat(ws[1..])
  }

  // ---------------------------------------------------------------------------
  // Lower

  /** Lower-casing works character by character, so it distributes over concatenation. */
  lemma LowerAppend(a: string, b: string)
    ensures Lower(a + b) == Lower(a) + Lower(b)
  {
  }

  // ---------------------------------------------------------------------------
  // The `in` operator

  /** `needle in hay` holds exactly when the needle appears at some position of the hay. */
  lemma {:induction false} OccursIff(needle: string, hay: string)
    ensures Occurs(needle, hay) <==> exists i: nat :: OccursAt(needle, hay, i)
    decreases |hay|
  {
    assert OccursAt(needle, hay, 0) <==> needle <= hay;
    if hay != [] && !(needle <= hay) {
      OccursIff(needle, hay[1..]);
      forall i: nat | i > 0
        ensures OccursAt(needle, hay, i) <==> OccursAt(needle, hay[1..], i - 1)
      {
        if i + |needle| <= |hay| {
          assert hay[1..][i - 1..i - 1 + |needle|] == hay[i..i + |needle|];
        }
      }
      if Occurs(needle, hay[1..]) {
        var i: nat :| OccursAt(needle, hay[1..], i);
        assert OccursAt(needle, hay, i + 1);
      }
    }
  }

  /** A needle found in `a` is found in `a + b`. */
  lemma {:induction false} OccursInLeft(needle: string, a: string, b: string)
    requires Occurs(needle, a)
    ensures Occurs(needle, a + b)
    decreases |a|
  {
    if !(needle <= a) {
      assert (a + b)[1..] == a[1..] + b;
      OccursInLeft(needle, a[1..], b);
    }
  }

  /** A needle found in `b` is found in `a + b`. */
  lemma {:induction false} OccursInRight(needle: string, a: string, b: string)
    requires Occurs(needle, b)
    ensures Occurs(needle, a + b)
    decreases |a|
  {
    if a != [] {
      assert (a + b)[1..] == a[1..] + b;
      OccursInRight(needle, a[1..], b);
    } else {
      assert a + b == b;
    }
  }

  // ---------------------------------------------------------------------------
  // " ".join and str.split(" ")

  /** Splitting on single spaces undoes `" ".join` of a non-empty list of space-free pieces. */
  lemma {:induction false} SplitSpaceJoinSpace(ws: seq<string>)
    requires |ws| >= 1
    requires forall i :: 0 <= i < |ws| ==> ' ' !in ws[i]
    ensures SplitSpace(JoinSpace(ws)) == ws
    decreases |ws|
  {
    var w := ws[0];
    if |ws| == 1 {
      assert IndexOf(w, ' ') == |w|;
    } else {
      var rest := JoinSpace(ws[1..]);
      var s := w + " " + rest;
      var k := IndexOf(s, ' ');
      assert s[|w|] == ' ';
      assert forall j :: 0 <= j < |w| ==> s[j] == w[j];
      assert k == |w|;
      assert s[..k] == w;
      assert s[k + 1..] == rest;
      SplitSpaceJoinSpace(ws[1..]);
      assert [w] + ws[1..] == ws;
    }
  }

  /** Joining the pieces of `s.split(" ")` with single spaces gives back `s`. */
  lemma {:induction false} JoinSpaceSplitSpace(s: string)
    ensures JoinSpace(SplitSpace(s)) == s
    decreases |s|
  {
    var k := IndexOf(s, ' ');
    if k < |s| {
      var tail := SplitSpace(s[k + 1..]);
      JoinSpaceSplitSpace(s[k + 1..]);
      assert SplitSpace(s) == [s[..k]] + tail;
      assert JoinSpace(SplitSpace(s)) == s[..k] + " " + JoinSpace(tail);
      assert s == s[..k] + " " + s[k + 1..];
    }
  }

  // ---------------------------------------------------------------------------
  // str.split()

  /** Every item of `s.split()` is a non-empty run without whitespace. */
  lemma {:induction false} WordsAreWords(s: string)
    ensures forall i :: 0 <= i < |Words(s)| ==> IsWord(Words(s)[i])
    decreases |s|
  {
    if s != [] {
      if IsSpace(s[0]) {
        WordsAreWords(s[1..]);
      } else {
        var n := WordLength(s);
        WordsAreWords(s[n..]);
        assert Words(s) == [s[..n]] + Words(s[n..]);
      }
    }
  }

  /** `str.split()` undoes `" ".join` of a list of words. */
  lemma {:induction false} WordsJoinSpace(ws: seq<string>)
    requires forall i :: 0 <= i < |ws| ==> IsWord(ws[i])
    ensures Words(JoinSpace(ws)) == ws
    decreases |ws|
  {
    if |ws| == 1 {
      var w := ws[0];
      assert WordLength(w) == |w|;
      assert w[..|w|] == w && w[|w|..] == [];
      assert Words(w) == [w] + Words([]);
    } else if |ws| > 1 {
      var w := ws[0];
      var rest := JoinSpace(ws[1..]);
      var s := w + " " + rest;
      assert forall j :: 0 <= j < |w| ==> s[j] == w[j];
      assert IsSpace(s[|w|]);
      var n := WordLength(s);
      assert n == |w|;
      assert s[..n] == w;
      assert s[n..] == " " + rest;
      assert (" " + rest)[1..] == rest;
      assert Words(s[n..]) == Words(rest);
      WordsJoinSpace(ws[1..]);
      assert [w] + ws[1..] == ws;
    }
  }

  /** A run of non-whitespace begins at `i`: `s[i]` is not whitespace, and it is the first character or follows whitespace. */
  predicate StartsRun(s: string, i: int)
    requires 0 <= i < |s|
  {
    !IsSpace(s[i]) && (i == 0 || IsSpace(s[i - 1]))
  }

  /** The positions at or after `lo` where a run of non-whitespace begins. */
  ghost function RunStartsFrom(s: string, lo: nat): set<int> {
    set i | lo <= i < |s| && StartsRun(s, i)
  }

  /** Counting the words of a suffix that does not cut a run counts the run starts in it. */
  lemma {:induction false} WordCountFrom(s: string, lo: nat)
    requires lo <= |s|
    requires 0 < lo < |s| && !IsSpace(s[lo]) ==> IsSpace(s[lo - 1])
    ensures |Words(s[lo..])| == |RunStartsFrom(s, lo)|
    decreases |s| - lo
  {
    if lo == |s| {
      assert RunStartsFrom(s, lo) == {};
    } else if IsSpace(s[lo]) {
      assert s[lo..][1..] == s[lo + 1..];
      RunStartsAfterSpace(s, lo);
      WordCountFrom(s, lo + 1);
    } else {
      var n := WordLength(s[lo..]);
      assert s[lo..][n..] == s[lo + n..];
      RunStartsAfterWord(s, lo, n);
      WordCountFrom(s, lo + n);
    }
  }

  /** Whitespace at `lo` starts no run. */
  lemma RunStartsAfterSpace(s: string, lo: nat)
    requires lo < |s| && IsSpace(s[lo])
    ensures RunStartsFrom(s, lo) == RunStartsFrom(s, lo + 1)
  {
  }

  /** A word of length `n` at `lo` contributes exactly one run start, at `lo`. */
  lemma RunStartsAfterWord(s: string, lo: nat, n: nat)
    requires lo < |s| && !IsSpace(s[lo])
    requires 0 < lo ==> IsSpace(s[lo - 1])
    requires n == WordLength(s[lo..])
    ensures lo + n <= |s|
    ensures RunStartsFrom(s, lo) == {lo} + RunStartsFrom(s, lo + n)
    ensures lo !in RunStartsFrom(s, lo + n)
  {
  }

  /** `len(s.split())` is the number of positions where a maximal run of non-whitespace begins. */
  lemma WordCountIsRunStarts(s: string)
    ensures WordCount(s) == |set i | 0 <= i < |s| && StartsRun(s, i)|
  {
    WordCountFrom(s, 0);
    assert s[0..] == s;
  }

  /** Whitespace removal distributes over concatenation. */
  lemma {:induction false} VisibleAppend(a: string, b: string)
    ensures Visible(a + b) == Visible(a) + Visible(b)
    decreases |a|
  {
    if a == [] {
      assert a + b == b;
    } else {
      assert (a + b)[1..] == a[1..] + b;
      VisibleAppend(a[1..], b);
    }
  }

  /** A string without whitespace is its own visible part. */
  lemma {:induction false} VisibleOfRun(s: string)
    requires forall k :: 0 <= k < |s| ==> !IsSpace(s[k])
    ensures Visible(s) == s
    decreases |s|
  {
    if s != [] {
      VisibleOfRun(s[1..]);
    }
  }

  /** `str.split()` loses only whitespace: the words, concatenated, are the non-whitespace characters. */
  lemma {:induction false} WordsKeepText(s: string)
    ensures Concat(Words(s)) == Visible(s)
    decreases |s|
  {
    if s != [] {
      if IsSpace(s[0]) {
        WordsKeepText(s[1..]);
      } else {
        var n := WordLength(s);
        WordsKeepText(s[n..]);
        assert Words(s) == [s[..n]] + Words(s[n..]);
        assert ([s[..n]] + Words(s[n..]))[1..] == Words(s[n..]);
        VisibleOfRun(s[..n]);
        VisibleAppend(s[..n], s[n..]);
        assert s[..n] + s[n..] == s;
      }
    }
  }
}
