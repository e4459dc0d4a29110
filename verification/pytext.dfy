/** The pieces of Python's `str` behaviour the scraper relies on: `isspace`,
    `strip`, `split()` with no argument, `sep.join`, `in` on strings,
    `replace`, ASCII `lower`, and keeping only digits and dots.  Strings are
    sequences of Unicode scalar values; digits are the ASCII digits. */
module PyText {

  /** `c.isspace()` in Python: also what `\s` matches in a `re` pattern over
      `str`, and what `strip()` and `split()` remove. */
  predicate IsSpace(c: char) {
    || ('\t' <= c <= '\r')
    || ('\U{1C}' <= c <= '\U{1F}')
    || c == ' '
    || c == '\U{85}'
    || c == '\U{A0}'
    || c == '\U{1680}'
    || ('\U{2000}' <= c <= '\U{200A}')
    || c == '\U{2028}'
    || c == '\U{2029}'
    || c == '\U{202F}'
    || c == '\U{205F}'
    || c == '\U{3000}'
  }

  predicate NotSpace(c: char) {
    !IsSpace(c)
  }

  predicate IsDigit(c: char) {
    '0' <= c <= '9'
  }

  predicate IsDigitOrDot(c: char) {
    IsDigit(c) || c == '.'
  }

  predicate AllSpace(s: string) {
    forall k :: 0 <= k < |s| ==> IsSpace(s[k])
  }

  predicate NoSpace(s: string) {
    forall k :: 0 <= k < |s| ==> !IsSpace(s[k])
  }

  /** What `split()` yields: a non-empty run without whitespace. */
  predicate Word(w: string) {
    |w| > 0 && NoSpace(w)
  }

  predicate AllWords(ws: seq<string>) {
    forall k :: 0 <= k < |ws| ==> Word(ws[k])
  }

  /** Neither end is whitespace: what `strip()` leaves. */
  predicate IsStripped(s: string) {
    |s| == 0 || (!IsSpace(s[0]) && !IsSpace(s[|s| - 1]))
  }

  /** The shape `' '.join(s.split())` leaves: the only whitespace is a single
      ' ' between two non-whitespace characters. */
  predicate Collapsed(s: string) {
    forall k :: 0 <= k < |s| && IsSpace(s[k]) ==>
      s[k] == ' ' && 0 < k < |s| - 1 && !IsSpace(s[k + 1])
  }

  /** End of the maximal run of characters satisfying `p` that starts at `i`. */
  function RunEnd(s: string, i: nat, p: char -> bool): (e: nat)
    requires i <= |s|
    ensures i <= e <= |s|
    ensures forall k :: i <= k < e ==> p(s[k])
    ensures e < |s| ==> !p(s[e])
    decreases |s| - i
  {
    if i == |s| || !p(s[i]) then i else RunEnd(s, i + 1, p)
  }

  /** The run from `i` ends at `e` when every character before `e`
      satisfies `p` and the one at `e`, if any, does not. */
  lemma {:induction false} RunEndIs(s: string, i: nat, e: nat, p: char -> bool)
    requires i <= e <= |s|
    requires forall k :: i <= k < e ==> p(s[k])
    requires e < |s| ==> !p(s[e])
    ensures RunEnd(s, i, p) == e
    decreases e - i
  {
    if i < e {
      RunEndIs(s, i + 1, e, p);
    }
  }

  /** A run from `i` passes through a prefix `[i, j)` of characters that
      satisfy `p`, so it ends where the run from `j` ends. */
  lemma RunEndSkip(s: string, i: nat, j: nat, p: char -> bool)
    requires i <= j <= |s|
    requires forall k :: i <= k < j ==> p(s[k])
    ensures RunEnd(s, i, p) == RunEnd(s, j, p)
  {
    RunEndIs(s, i, RunEnd(s, j, p), p);
  }

  /** End of the maximal run from `i` of whitespace (`ws`) or of
      non-whitespace (`!ws`) characters. */
  function SpanEnd(s: string, i: nat, ws: bool): (e: nat)
    requires i <= |s|
    ensures i <= e <= |s|
    ensures forall k :: i <= k < e ==> IsSpace(s[k]) == ws
    ensures e < |s| ==> IsSpace(s[e]) != ws
    decreases |s| - i
  {
    if i == |s| || IsSpace(s[i]) != ws then i else SpanEnd(s, i + 1, ws)
  }

  /** Start of the maximal run of whitespace (`ws`) or of non-whitespace
      (`!ws`) characters that ends at `j`. */
  function SpanStart(s: string, j: nat, ws: bool): (b: nat)
    requires j <= |s|
    ensures b <= j
    ensures forall k :: b <= k < j ==> IsSpace(s[k]) == ws
    ensures b > 0 ==> IsSpace(s[b - 1]) != ws
    decreases j
  {
    if j == 0 || IsSpace(s[j - 1]) != ws then j else SpanStart(s, j - 1, ws)
  }

  /** A run that ends inside `t`, or at a seam it cannot cross, ends at the
      same place in `t + y`. */
  lemma {:induction false} SpanEndAppend(t: string, y: string, i: nat, ws: bool)
    requires i <= |t|
    requires SpanEnd(t, i, ws) < |t| || y == "" || IsSpace(y[0]) != ws
    ensures SpanEnd(t + y, i, ws) == SpanEnd(t, i, ws)
    decreases |t| - i
  {
    if i < |t| {
      assert (t + y)[i] == t[i];
      if IsSpace(t[i]) == ws {
        SpanEndAppend(t, y, i + 1, ws);
      }
    } else if y != "" {
      assert (t + y)[i] == y[0];
    }
  }

  /** Past the seam, a run in `x + y` is the run in `y`, shifted. */
  lemma {:induction false} SpanEndShift(x: string, y: string, i: nat, ws: bool)
    requires i <= |y|
    ensures SpanEnd(x + y, |x| + i, ws) == |x| + SpanEnd(y, i, ws)
    decreases |y| - i
  {
    if i < |y| {
      assert (x + y)[|x| + i] == y[i];
      if IsSpace(y[i]) == ws {
        SpanEndShift(x, y, i + 1, ws);
      }
    }
  }

  /** A run covering the rest of `x` carries on into `y`. */
  lemma {:induction false} SpanEndThrough(x: string, y: string, i: nat, ws: bool)
    requires i <= |x|
    requires forall k :: i <= k < |x| ==> IsSpace(x[k]) == ws
    ensures SpanEnd(x + y, i, ws) == SpanEnd(x + y, |x|, ws)
    decreases |x| - i
  {
    if i < |x| {
      assert (x + y)[i] == x[i];
      SpanEndThrough(x, y, i + 1, ws);
    }
  }

  /** `r` is `s[i..j]`, and everything of `s` outside it is whitespace. */
  predicate TrimmedAt(s: string, r: string, i: nat, j: nat) {
    && i <= j <= |s|
    && r == s[i..j]
    && (forall k :: 0 <= k < i ==> IsSpace(s[k]))
    && (forall k :: j <= k < |s| ==> IsSpace(s[k]))
  }

  /** `s.strip()`: the text between the leading and the trailing whitespace. */
  function Strip(s: string): (r: string)
    ensures IsStripped(r)
    ensures TrimmedAt(s, r, SpanEnd(s, 0, true), SpanEnd(s, 0, true) + |r|)
  {
    var a := SpanEnd(s, 0, true);
    var b := SpanStart(s, |s|, true);
    if b <= a then ""
    else s[a..b]
  }

  /** `s.strip()` is the only stripped piece of `s` with nothing but
      whitespace around it. */
  lemma StripIs(s: string, r: string, i: nat)
    requires IsStripped(r) && TrimmedAt(s, r, i, i + |r|)
    ensures Strip(s) == r
  {
    var q := Strip(s);
    var a := SpanEnd(s, 0, true);
    assert |q| > 0 ==> q[0] == s[a];
    if r != "" {
      assert s[i] == r[0];
      assert s[i + |r| - 1] == r[|r| - 1];
      assert |q| >= |r|;
      assert s[i + |q| - 1] == q[|q| - 1];
    }
  }

  /** Whitespace in front of `y` does not change its strip. */
  lemma StripSpacePrefix(x: string, y: string)
    requires AllSpace(x)
    ensures Strip(x + y) == Strip(y)
  {
    var u := x + y;
    var r := Strip(y);
    var a := SpanEnd(y, 0, true);
    var d := |x|;
    forall k | 0 <= k < d + a
      ensures IsSpace(u[k])
    {
      if k >= d {
        assert u[k] == y[k - d];
      }
    }
    forall k | d + a + |r| <= k < |u|
      ensures IsSpace(u[k])
    {
      assert u[k] == y[k - d];
    }
    SliceShift(x, y, a, a + |r|);
    StripIs(u, r, d + a);
  }

  /** Leading whitespace in front of `s[j..f]` does not change its strip. */
  lemma StripSkipsSpace(s: string, i: nat, j: nat, f: nat)
    requires i <= j <= f <= |s|
    requires forall k :: i <= k < j ==> IsSpace(s[k])
    ensures Strip(s[i..f]) == Strip(s[j..f])
  {
    assert s[i..f] == s[i..j] + s[j..f];
    StripSpacePrefix(s[i..j], s[j..f]);
  }

  /** Stripping a string whose ends are not whitespace changes nothing. */
  lemma StripStripped(s: string)
    requires IsStripped(s)
    ensures Strip(s) == s
  {
    if |s| > 0 {
      assert SpanEnd(s, 0, true) == 0;
      assert SpanStart(s, |s|, true) == |s|;
      assert s[0..|s|] == s;
    }
  }

  /** A character absent from `s` is absent from `s.strip()`. */
  lemma StripKeepsOut(s: string, c: char)
    ensures c !in s ==> c !in Strip(s)
  {
    var r := Strip(s);
    var i := SpanEnd(s, 0, true);
    forall k | 0 <= k < |r|
      ensures r[k] == s[i + k]
    {
    }
  }

  /** One trailing space is stripped off a stripped string. */
  lemma StripTrailingSpace(a: string)
    requires a != "" && IsStripped(a)
    ensures Strip(a + " ") == a
  {
    var s := a + " ";
    assert s[0] == a[0];
    assert SpanEnd(s, 0, true) == 0;
    assert s[|a|] == ' ' && s[|a| - 1] == a[|a| - 1];
    assert SpanStart(s, |s|, true) == |a|;
    assert s[0..|a|] == a;
  }

  /** `s.split()`: the maximal whitespace-free runs, in order. */
  function Split(s: string): seq<string>
    decreases |s|
  {
    var a := SpanEnd(s, 0, true);
    if a == |s| then []
    else
      var e := SpanEnd(s, a, false);
      [s[a..e]] + Split(s[e..])
  }

  /** One step of `split()`: the word at `[a, e)`, then the words after it. */
  lemma SplitStep(s: string, a: nat, e: nat)
    requires a == SpanEnd(s, 0, true) < |s|
    requires e == SpanEnd(s, a, false)
    ensures Split(s) == [s[a..e]] + Split(s[e..])
  {
  }

  /** Every item `split()` gives is a non-empty run without whitespace. */
  lemma {:induction false} SplitWords(s: string)
    ensures AllWords(Split(s))
    decreases |s|
  {
    var a := SpanEnd(s, 0, true);
    if a < |s| {
      var e := SpanEnd(s, a, false);
      SplitWords(s[e..]);
      assert Word(s[a..e]);
    }
  }

  /** A whitespace-only string has no words. */
  lemma SplitAllSpace(s: string)
    requires AllSpace(s)
    ensures Split(s) == []
  {
    assert SpanEnd(s, 0, true) == |s|;
  }

  /** A string that does not start with whitespace has a first word. */
  lemma SplitNonEmpty(s: string)
    requires |s| > 0 && !IsSpace(s[0])
    ensures Split(s) != []
  {
    assert SpanEnd(s, 0, true) == 0;
  }

  /** A word splits into itself. */
  lemma SplitWord(w: string)
    requires Word(w)
    ensures Split(w) == [w]
  {
    assert SpanEnd(w, 0, true) == 0;
    assert SpanEnd(w, 0, false) == |w|;
    assert w[0..|w|] == w && w[|w|..] == "";
  }

  /** After leading whitespace `x`, the runs of `x + y` are those of `y`,
      shifted by `|x|`. */
  lemma SpacePrefixSpans(x: string, y: string, a: nat)
    requires AllSpace(x)
    requires a == SpanEnd(y, 0, true)
    ensures SpanEnd(x + y, 0, true) == |x| + a
    ensures a < |y| ==>
      var e := SpanEnd(y, a, false);
      && SpanEnd(x + y, |x| + a, false) == |x| + e
      && (x + y)[|x| + a..|x| + e] == y[a..e]
      && (x + y)[|x| + e..] == y[e..]
  {
    assert SpanEnd(x + y, 0, true) == |x| + a by {
      SpanEndThrough(x, y, 0, true);
      SpanEndShift(x, y, 0, true);
    }
    if a < |y| {
      var e := SpanEnd(y, a, false);
      SpanEndShift(x, y, a, false);
      SliceShift(x, y, a, e);
    }
  }

  lemma SliceShift(x: string, y: string, i: nat, j: nat)
    requires i <= j <= |y|
    ensures (x + y)[|x| + i..|x| + j] == y[i..j]
    ensures (x + y)[|x| + j..] == y[j..]
  {
  }

  /** Leading whitespace changes nothing `split()` reports. */
  lemma SplitSpacePrefix(x: string, y: string)
    requires AllSpace(x)
    ensures Split(x + y) == Split(y)
  {
    var a := SpanEnd(y, 0, true);
    SpacePrefixSpans(x, y, a);
    if a < |y| {
      var e := SpanEnd(y, a, false);
      SplitSame(x + y, y, |x| + a, |x| + e, a, e);
    }
  }

  /** Two strings whose first words and what follows them agree split the
      same way. */
  lemma SplitSame(s: string, t: string, a: nat, e: nat, b: nat, f: nat)
    requires a == SpanEnd(s, 0, true) < |s| && e == SpanEnd(s, a, false)
    requires b == SpanEnd(t, 0, true) < |t| && f == SpanEnd(t, b, false)
    requires s[a..e] == t[b..f] && s[e..] == t[f..]
    ensures Split(s) == Split(t)
  {
    SplitStep(s, a, e);
    SplitStep(t, b, f);
  }

  lemma Regroup<T>(s1: seq<T>, s2: seq<T>, s3: seq<T>, w: T, a: seq<T>, b: seq<T>)
    requires s1 == [w] + s3 && s2 == [w] + a && s3 == a + b
    ensures s1 == s2 + b
  {
    assert [w] + (a + b) == ([w] + a) + b;
  }

  /** The first word of `x` is the first word of `x + y` when the seam
      cannot extend it. */
  lemma FirstWordAppend(x: string, y: string, a: nat, e: nat)
    requires a == SpanEnd(x, 0, true) < |x|
    requires e == SpanEnd(x, a, false)
    requires e == |x| ==> y == "" || IsSpace(y[0])
    ensures a == SpanEnd(x + y, 0, true) < |x + y|
    ensures e == SpanEnd(x + y, a, false)
    ensures (x + y)[a..e] == x[a..e] && (x + y)[e..] == x[e..] + y
  {
    SpanEndAppend(x, y, 0, true);
    SpanEndAppend(x, y, a, false);
  }

  /** One step of `SplitAppend`: once the words after the first word of `x`
      split apart from `y`, so do the words of `x` and `y`. */
  lemma SplitAppendStep(x: string, y: string, a: nat, e: nat)
    requires a == SpanEnd(x, 0, true) < |x|
    requires e == SpanEnd(x, a, false)
    requires e == |x| ==> y == "" || IsSpace(y[0])
    requires Split(x[e..] + y) == Split(x[e..]) + Split(y)
    ensures Split(x + y) == Split(x) + Split(y)
  {
    FirstWordAppend(x, y, a, e);
    SplitStep(x + y, a, e);
    SplitStep(x, a, e);
    Regroup(Split(x + y), Split(x), Split(x[e..] + y), x[a..e], Split(x[e..]), Split(y));
  }

  /** Splitting a concatenation whose seam is at whitespace (or at an end)
      splits the two parts separately. */
  lemma {:induction false} SplitAppend(x: string, y: string)
    requires x == "" || y == "" || IsSpace(x[|x| - 1]) || IsSpace(y[0])
    ensures Split(x + y) == Split(x) + Split(y)
    decreases |x|
  {
    var a := SpanEnd(x, 0, true);
    if y == "" {
      assert x + y == x;
    } else if a == |x| {
      SplitSpacePrefix(x, y);
      SplitAllSpace(x);
    } else {
      var e := SpanEnd(x, a, false);
      assert e == |x| ==> !IsSpace(x[|x| - 1]);
      var rest := x[e..];
      assert rest != "" ==> rest[|rest| - 1] == x[|x| - 1];
      SplitAppend(rest, y);
      SplitAppendStep(x, y, a, e);
    }
  }

  /** A leading space changes nothing `split()` reports. */
  lemma SplitSkipsSpace(j: string)
    ensures Split(" " + j) == Split(j)
  {
    SplitSpacePrefix(" ", j);
  }

  /** The words of `x + " " + y` are the words of `x` and then those of `y`. */
  lemma SplitJoinedBySpace(x: string, y: string)
    ensures Split(x + " " + y) == Split(x) + Split(y)
  {
    assert x + " " + y == x + (" " + y);
    SplitAppend(x, " " + y);
    SplitSkipsSpace(y);
  }

  /** Stripping keeps the words. */
  lemma SplitStrip(s: string)
    ensures Split(Strip(s)) == Split(s)
  {
    var r := Strip(s);
    var i := SpanEnd(s, 0, true);
    var j := i + |r|;
    assert TrimmedAt(s, r, i, j);
    var pre := s[..i];
    var suf := s[j..];
    assert s == pre + (r + suf);
    assert AllSpace(pre) by {
      forall k | 0 <= k < |pre|
        ensures IsSpace(pre[k])
      {
        assert pre[k] == s[k];
      }
    }
    assert AllSpace(suf) by {
      forall k | 0 <= k < |suf|
        ensures IsSpace(suf[k])
      {
        assert suf[k] == s[j + k];
      }
    }
    assert Split(s) == Split(r + suf) by {
      SplitSpacePrefix(pre, r + suf);
    }
    assert Split(r + suf) == Split(r) by {
      SplitAppend(r, suf);
      SplitAllSpace(suf);
    }
  }

  /** `sep.join(xs)`. */
  function Join(sep: string, xs: seq<string>): string
  {
    if |xs| == 0 then ""
    else if |xs| == 1 then xs[0]
    else xs[0] + sep + Join(sep, xs[1..])
  }

  /** `' '.join(s.split())`, the whitespace normaliser used throughout. */
  function Collapse(s: string): (r: string)
    ensures Collapsed(r)
    ensures r == "" <==> Split(s) == []
  {
    SplitWords(s);
    JoinWordsCollapsed(Split(s));
    Join(" ", Split(s))
  }

  /** Words joined by one space form a collapsed string that starts with the
      first word's first character. */
  lemma {:induction false} JoinWordsCollapsed(ws: seq<string>)
    requires AllWords(ws)
    ensures Collapsed(Join(" ", ws))
    ensures |ws| > 0 ==> |Join(" ", ws)| > 0 && Join(" ", ws)[0] == ws[0][0]
    ensures |ws| == 0 <==> Join(" ", ws) == ""
  {
    if |ws| > 1 {
      var w := ws[0];
      var j := Join(" ", ws[1..]);
      JoinWordsCollapsed(ws[1..]);
      var s := w + " " + j;
      assert Join(" ", ws) == s;
      forall k | 0 <= k < |s| && IsSpace(s[k])
        ensures s[k] == ' ' && 0 < k < |s| - 1 && !IsSpace(s[k + 1])
      {
        if k > |w| {
          assert s[k] == j[k - |w| - 1];
          assert s[k + 1] == j[k - |w|];
        }
      }
    }
  }

  /** Joining words with single spaces and splitting again gives the words
      back. */
  lemma {:induction false} SplitJoin(ws: seq<string>)
    requires AllWords(ws)
    ensures Split(Join(" ", ws)) == ws
  {
    if |ws| == 1 {
      SplitWord(ws[0]);
    } else if |ws| > 1 {
      var j := Join(" ", ws[1..]);
      assert Join(" ", ws) == ws[0] + " " + j;
      SplitJoinedBySpace(ws[0], j);
      SplitWord(ws[0]);
      SplitJoin(ws[1..]);
      assert ws == [ws[0]] + ws[1..];
    }
  }

  /** `Collapse` is idempotent. */
  lemma CollapseIdempotent(s: string)
    ensures Collapse(Collapse(s)) == Collapse(s)
  {
    SplitWords(s);
    SplitJoin(Split(s));
  }

  /** What follows the first space of a collapsed string is collapsed and
      does not start with whitespace. */
  lemma CollapsedAfterSpace(s: string, e: nat)
    requires Collapsed(s)
    requires e < |s| && IsSpace(s[e])
    ensures e + 1 < |s| && Collapsed(s[e + 1..]) && !IsSpace(s[e + 1])
  {
    var t := s[e + 1..];
    forall k | 0 <= k < |t| && IsSpace(t[k])
      ensures t[k] == ' ' && 0 < k < |t| - 1 && !IsSpace(t[k + 1])
    {
      assert t[k] == s[e + 1 + k];
      assert t[k + 1] == s[e + 2 + k];
    }
  }

  /** A collapsed string is its own `' '.join(s.split())`. */
  lemma {:induction false} CollapsedIsFixed(s: string)
    requires Collapsed(s)
    ensures Join(" ", Split(s)) == s
    decreases |s|
  {
    if |s| > 0 {
      assert !IsSpace(s[0]);
      var e := SpanEnd(s, 0, false);
      var w := s[..e];
      assert Word(w);
      SplitWord(w);
      if e == |s| {
        assert w == s;
      } else {
        CollapsedAfterSpace(s, e);
        var t := s[e + 1..];
        assert s == w + " " + t;
        SplitJoinedBySpace(w, t);
        CollapsedIsFixed(t);
        SplitNonEmpty(t);
        var ws := Split(t);
        assert Join(" ", [w] + ws) == w + " " + Join(" ", ws);
      }
    }
  }

  /** A string is a fixed point of `Collapse` exactly when it is already
      collapsed. */
  lemma CollapseFixedPoint(s: string)
    ensures Collapse(s) == s <==> Collapsed(s)
  {
    if Collapsed(s) {
      CollapsedIsFixed(s);
    }
  }

  /** Collapsing keeps the words: the whitespace-split of the result is the
      whitespace-split of the input. */
  lemma CollapseKeepsWords(s: string)
    ensures Split(Collapse(s)) == Split(s)
  {
    SplitWords(s);
    SplitJoin(Split(s));
  }

  predicate OccursAt(s: string, p: string, i: int) {
    0 <= i && i + |p| <= |s| && s[i..i + |p|] == p
  }

  predicate IsPrefix(p: string, s: string) {
    |p| <= |s| && s[..|p|] == p
  }

  /** Python's `p in s` for strings. */
  function Contains(s: string, p: string): bool
    decreases |s|
  {
    IsPrefix(p, s) || (|s| > 0 && Contains(s[1..], p))
  }

  /** A slice of `s[1..]` is the slice of `s` one index further on. */
  lemma TailSlice(s: string, i: nat, n: nat)
    requires 0 < |s| && i + n < |s|
    ensures s[1..][i..i + n] == s[i + 1..i + 1 + n]
  {
    var t := s[1..];
    forall k | i <= k < i + n
      ensures t[k] == s[k + 1]
    {
    }
  }

  /** `p in s` holds exactly when `p` occurs at some index of `s`. */
  lemma {:induction false} ContainsIff(s: string, p: string)
    ensures Contains(s, p) <==> exists i :: OccursAt(s, p, i)
    decreases |s|
  {
    if IsPrefix(p, s) {
      assert OccursAt(s, p, 0);
    } else if |s| > 0 {
      ContainsIff(s[1..], p);
      if Contains(s[1..], p) {
        var i :| OccursAt(s[1..], p, i);
        TailSlice(s, i, |p|);
        assert OccursAt(s, p, i + 1);
      } else {
        forall i | OccursAt(s, p, i)
          ensures false
        {
          assert i != 0;
          TailSlice(s, i - 1, |p|);
          assert OccursAt(s[1..], p, i - 1);
        }
      }
    } else {
      forall i | OccursAt(s, p, i)
        ensures false
      {
      }
    }
  }

  /** `s.replace(p, rep)` for a non-empty `p`: occurrences are found left to
      right and do not overlap. */
  function ReplaceAll(s: string, p: string, rep: string): string
    requires |p| > 0
    decreases |s|
  {
    if |s| < |p| then s
    else if s[..|p|] == p then rep + ReplaceAll(s[|p|..], p, rep)
    else [s[0]] + ReplaceAll(s[1..], p, rep)
  }

  /** A string without an occurrence of `p` is left unchanged. */
  lemma {:induction false} ReplaceAbsent(s: string, p: string, rep: string)
    requires |p| > 0
    requires !Contains(s, p)
    ensures ReplaceAll(s, p, rep) == s
    decreases |s|
  {
    if |s| >= |p| {
      assert s[..|p|] != p;
      ReplaceAbsent(s[1..], p, rep);
      assert [s[0]] + s[1..] == s;
    }
  }

  /** Removing `p` from `x + p`, where no occurrence of `p` starts inside `x`,
      leaves exactly `x`. */
  lemma {:induction false} RemoveTrailing(x: string, p: string)
    requires |p| > 0
    requires forall i :: 0 <= i < |x| ==> !OccursAt(x + p, p, i)
    ensures ReplaceAll(x + p, p, "") == x
    decreases |x|
  {
    if |x| == 0 {
      assert x + p == p;
      assert p[|p|..] == "";
    } else {
      assert !OccursAt(x + p, p, 0);
      assert (x + p)[..|p|] != p;
      assert (x + p)[1..] == x[1..] + p;
      forall i | 0 <= i < |x[1..]|
        ensures !OccursAt(x[1..] + p, p, i)
      {
        assert !OccursAt(x + p, p, i + 1);
        assert (x[1..] + p)[i..i + |p|] == (x + p)[i + 1..i + 1 + |p|];
      }
      RemoveTrailing(x[1..], p);
      assert [x[0]] + x[1..] == x;
    }
  }

  /** No proper suffix of `p` is also a prefix of `p`. */
  predicate SelfOverlapFree(p: string) {
    forall j :: 0 < j < |p| ==> p[j..] != p[..|p| - j]
  }

  /** An occurrence of `p` in `x + p` starting at `i < |x|` either lies inside
      `x` or makes a proper suffix of `p` equal to a prefix of it. */
  lemma OccurrenceBeforeEnd(x: string, p: string, i: nat)
    requires i < |x|
    ensures OccursAt(x + p, p, i) && i + |p| <= |x| ==> OccursAt(x, p, i)
    ensures OccursAt(x + p, p, i) && i + |p| > |x| ==>
      p[|x| - i..] == p[..|p| - (|x| - i)]
  {
    var s := x + p;
    if i + |p| <= |x| {
      assert s[i..i + |p|] == x[i..i + |p|];
    } else if i + |p| <= |s| {
      assert s[i..i + |p|][|x| - i..] == s[|x|..i + |p|] == p[..|p| - (|x| - i)];
    }
  }

  /** In `x + p`, where `x` does not contain `p` and `p` cannot overlap
      itself, the only occurrence of `p` is the appended one. */
  lemma OnlyTrailingOccurrence(x: string, p: string)
    requires !Contains(x, p) && SelfOverlapFree(p)
    ensures forall i :: 0 <= i < |x| ==> !OccursAt(x + p, p, i)
  {
    ContainsIff(x, p);
    forall i | 0 <= i < |x|
      ensures !OccursAt(x + p, p, i)
    {
      OccurrenceBeforeEnd(x, p, i);
    }
  }

  /** `(x + p).strip().replace(p, '').strip()` is `x` for a stripped,
      non-empty `x` without `p`, when `p` cannot overlap itself and does not
      end in whitespace. */
  lemma RemoveSuffixAndStrip(x: string, p: string)
    requires x != "" && IsStripped(x) && !Contains(x, p)
    requires |p| > 0 && SelfOverlapFree(p) && !IsSpace(p[|p| - 1])
    ensures Strip(ReplaceAll(Strip(x + p), p, "")) == x
  {
    var s := x + p;
    assert s[0] == x[0] && s[|s| - 1] == p[|p| - 1];
    StripStripped(s);
    OnlyTrailingOccurrence(x, p);
    RemoveTrailing(x, p);
    assert ReplaceAll(Strip(s), p, "") == x;
    StripStripped(x);
  }

  predicate IsUpperAscii(c: char) {
    'A' <= c <= 'Z'
  }

  /** `s.lower()` restricted to ASCII letters; other characters are kept. */
  function LowerAscii(s: string): (r: string)
    ensures |r| == |s|
    ensures forall k :: 0 <= k < |s| ==>
      r[k] == (if IsUpperAscii(s[k]) then (s[k] as int + 32) as char else s[k])
  {
    seq(|s|, k requires 0 <= k < |s| =>
      if IsUpperAscii(s[k]) then (s[k] as int + 32) as char else s[k])
  }

  /** `re.sub(r'[^\d.]', '', s)` and `''.join(filter(lambda x: x.isdigit() or
      x == '.', s))`: the digits and dots of `s`, in order. */
  function DigitsAndDots(s: string): (r: string)
    ensures forall k :: 0 <= k < |r| ==> IsDigitOrDot(r[k])
    decreases |s|
  {
    if |s| == 0 then ""
    else
      var rest := DigitsAndDots(s[1..]);
      if IsDigitOrDot(s[0]) then [s[0]] + rest else rest
  }

  /** Nothing but the digits and dots is dropped: each digit and dot occurs
      in the result as often as in `s`. */
  lemma {:induction false} DigitsAndDotsCounts(s: string, c: char)
    ensures multiset(DigitsAndDots(s))[c] == (if IsDigitOrDot(c) then multiset(s)[c] else 0)
    decreases |s|
  {
    if |s| > 0 {
      assert s == [s[0]] + s[1..];
      DigitsAndDotsCounts(s[1..], c);
    }
  }
}
