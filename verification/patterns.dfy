/** Hand-written matchers for the regular expressions the extractor uses.
    Each `...At(s, i)` function is the pattern's match attempt anchored at
    index `i`; `FirstMatch` is `re.search` (leftmost start wins) and
    `DollarAmounts` is `re.findall` for the price pattern.  In every pattern
    here adjacent pieces match disjoint characters, so a greedy match that
    never gives characters back is the match the backtracking engine finds;
    the author pattern, whose lazy group does depend on backtracking, is
    resolved by hand in `AuthorAt`. */
module Patterns {
  import opened Wrappers
  import opened PyText
  import opened Decimal

  /** `re.search`: the leftmost index at or after `i` where `m` matches. */
  function FirstMatch<T>(s: string, i: nat, m: (string, nat) -> Option<T>): (r: Option<nat>)
    ensures r.Some? ==> i <= r.value <= |s| && m(s, r.value).Some?
    ensures r.Some? ==> forall k :: i <= k < r.value ==> m(s, k).None?
    ensures r.None? ==> forall k :: i <= k <= |s| ==> m(s, k).None?
    decreases |s| - i
  {
    if i > |s| then None
    else if m(s, i).Some? then Some(i)
    else FirstMatch(s, i + 1, m)
  }

  /** The leftmost match is at `j` when `m` fails everywhere before it. */
  lemma {:induction false} FirstMatchAt<T>(s: string, i: nat, j: nat, m: (string, nat) -> Option<T>)
    requires i <= j <= |s| && m(s, j).Some?
    requires forall k :: i <= k < j ==> m(s, k).None?
    ensures FirstMatch(s, i, m) == Some(j)
    decreases j - i
  {
    if i < j {
      FirstMatchAt(s, i + 1, j, m);
    }
  }

  /** The value of the leftmost match, if any. */
  function Search<T>(s: string, m: (string, nat) -> Option<T>): (r: Option<T>)
    ensures r.Some? <==> exists k :: 0 <= k <= |s| && m(s, k).Some?
    ensures r.Some? ==> exists k :: 0 <= k <= |s| && m(s, k) == r
  {
    match FirstMatch(s, 0, m)
    case Some(k) => m(s, k)
    case None => None
  }

  predicate IsAsciiLetter(c: char) {
    ('a' <= c <= 'z') || ('A' <= c <= 'Z')
  }

  predicate IsLowerAscii(c: char) {
    'a' <= c <= 'z'
  }

  predicate NotOpenParen(c: char) {
    c != '('
  }

  /** `lit` occurs in `s` at index `i`. */
  predicate LitAt(s: string, i: nat, lit: string) {
    i + |lit| <= |s| && s[i..i + |lit|] == lit
  }

  /** `\s+` followed by `lit` at index `i`: the index after `lit`. */
  function SpacesThen(s: string, i: nat, lit: string): (r: Option<nat>)
    ensures r.Some? ==> i < r.value <= |s|
  {
    if i > |s| then None
    else
      var k := SpanEnd(s, i, true);
      if k > i && LitAt(s, k, lit) then Some(k + |lit|) else None
  }

  // ---------------------------------------------------------------------
  // by\s+([^(]+?)(?:\s*\(|$)   -- the author inside a product name

  /** The author group, stripped, for a match anchored at `i`.  After the
      greedy `\s+` the lazy group starts at the first non-space `p`; it then
      grows until only whitespace separates it from the first `(` (or the
      end), so once stripped it is the text from `p` up to that `(`.  When
      `p` is itself `(` or the end, the engine gives one whitespace
      character back to the group, which strips to the empty author; with a
      single whitespace character there is nothing to give back and there is
      no match at `i`. */
  function AuthorAt(s: string, i: nat): (r: Option<string>)
    ensures r.Some? ==> '(' !in r.value && IsStripped(r.value)
  {
    if !LitAt(s, i, "by") then None
    else
      var p := SpanEnd(s, i + 2, true);
      if p == i + 2 then None
      else if p < |s| && s[p] != '(' then
        var f := RunEnd(s, p, NotOpenParen);
        var a := Strip(s[p..f]);
        StripKeepsOut(s[p..f], '(');
        Some(a)
      else if p - (i + 2) >= 2 then Some("")
      else None
  }

  /** The author pattern matches at `i` exactly when "by" there is followed
      by a whitespace character and at least one more character before the
      next '(' (or the end); the author is then that stretch, stripped. */
  lemma AuthorBetween(s: string, i: nat)
    ensures AuthorAt(s, i) == (if LitAt(s, i, "by") && i + 2 < |s| && IsSpace(s[i + 2])
                                  && RunEnd(s, i + 2, NotOpenParen) >= i + 4
                               then Some(Strip(s[i + 2..RunEnd(s, i + 2, NotOpenParen)]))
                               else None)
  {
    if LitAt(s, i, "by") {
      var p := SpanEnd(s, i + 2, true);
      if p > i + 2 {
        AfterBy(s, i, p);
      }
    }
  }

  /** After "by" at `i` and whitespace up to `p`, the text before the next
      '(' strips to the text from `p` on; when `p` is itself at '(' or the
      end, that text is all whitespace. */
  lemma AfterBy(s: string, i: nat, p: nat)
    requires LitAt(s, i, "by") && i + 2 < p == SpanEnd(s, i + 2, true)
    ensures IsSpace(s[i + 2])
    ensures RunEnd(s, i + 2, NotOpenParen) == RunEnd(s, p, NotOpenParen)
    ensures Strip(s[i + 2..RunEnd(s, p, NotOpenParen)]) == Strip(s[p..RunEnd(s, p, NotOpenParen)])
    ensures p == |s| || s[p] == '(' ==> RunEnd(s, p, NotOpenParen) == p && Strip(s[p..p]) == ""
  {
    RunEndSkip(s, i + 2, p, NotOpenParen);
    StripSkipsSpace(s, i + 2, p, RunEnd(s, p, NotOpenParen));
  }

  /** `re.search(r'by\s+([^(]+?)(?:\s*\(|$)', name)`, group 1 stripped: the
      author of the leftmost match. */
  function AuthorOf(name: string): (r: Option<string>)
    ensures r.Some? ==> '(' !in r.value && IsStripped(r.value)
    ensures r.Some? <==> exists i :: 0 <= i <= |name| && AuthorAt(name, i).Some?
    ensures r.Some? ==> exists i :: (0 <= i <= |name| && AuthorAt(name, i) == r
      && forall k :: 0 <= k < i ==> AuthorAt(name, k).None?)
  {
    match FirstMatch(name, 0, AuthorAt)
    case Some(k) => AuthorAt(name, k)
    case None => None
  }

  /** An author is only found in a name containing "by". */
  lemma AuthorOfNeedsBy(name: string)
    ensures AuthorOf(name).Some? ==> Contains(name, "by")
  {
    var r := AuthorOf(name);
    if r.Some? {
      var i :| 0 <= i <= |name| && AuthorAt(name, i) == r
        && forall k :: 0 <= k < i ==> AuthorAt(name, k).None?;
      assert OccursAt(name, "by", i);
      ContainsIff(name, "by");
    }
  }

  // ---------------------------------------------------------------------
  // (\d+)stars\.gif   -- the rating in a star image's file name

  function StarsAt(s: string, i: nat): Option<nat> {
    if i < |s| && IsDigit(s[i]) then
      var e := RunEnd(s, i, IsDigit);
      if LitAt(s, e, "stars.gif") then Some(DigitsValue(s[i..e])) else None
    else None
  }

  /** `re.search(r'(\d+)stars\.gif', src)`, group 1 as an `int`: the value
      of the first whole run of digits directly followed by "stars.gif". */
  function StarRating(src: string): (r: Option<nat>)
    ensures r.Some? <==> exists i :: 0 <= i <= |src| && StarsAt(src, i).Some?
    ensures r.Some? ==> exists i, e :: (0 <= i < e <= |src| && (i == 0 || !IsDigit(src[i - 1]))
      && AllDigits(src[i..e]) && LitAt(src, e, "stars.gif") && r.value == DigitsValue(src[i..e]))
  {
    match FirstMatch(src, 0, StarsAt)
    case Some(k) =>
      var e := RunEnd(src, k, IsDigit);
      assert k > 0 ==> StarsAt(src, k - 1).None?;
      assert AllDigits(src[k..e]);
      StarsAt(src, k)
    case None => None
  }

  /** A rating is only read from a source containing "stars.gif". */
  lemma StarRatingNeedsImageName(src: string)
    ensures StarRating(src).Some? ==> Contains(src, "stars.gif")
  {
    var r := StarRating(src);
    if r.Some? {
      var i, e :| 0 <= i < e <= |src| && (i == 0 || !IsDigit(src[i - 1]))
        && AllDigits(src[i..e]) && LitAt(src, e, "stars.gif") && r.value == DigitsValue(src[i..e]);
      assert OccursAt(src, "stars.gif", e);
      ContainsIff(src, "stars.gif");
    }
  }

  /** An image source whose file name is the digits of `n` followed by
      "stars.gif", with no digit before them, gives the rating `n`. */
  lemma StarRatingOfImage(t: string, n: nat, u: string)
    requires forall k :: 0 <= k < |t| ==> !IsDigit(t[k])
    ensures StarRating(t + NatDigits(n) + "stars.gif" + u) == Some(n)
  {
    var d := NatDigits(n);
    var s := t + d + "stars.gif" + u;
    var i := |t|;
    var e := i + |d|;
    forall k | 0 <= k < i
      ensures StarsAt(s, k).None?
    {
      assert s[k] == t[k];
    }
    forall k | i <= k < e
      ensures IsDigit(s[k])
    {
      assert s[k] == d[k - i];
    }
    assert s[e] == 's';
    RunEndIs(s, i, e, IsDigit);
    assert s[e..e + 9] == "stars.gif";
    assert s[i..e] == d;
    NatDigitsRoundTrip(n);
    FirstMatchAt(s, 0, i, StarsAt);
  }

  // ---------------------------------------------------------------------
  // on\s+([A-Za-z]+\s+\d+[a-z]{0,2},\s+\d{4})   -- a review date

  function DateAt(s: string, i: nat): (r: Option<string>)
    ensures r.Some? ==> |r.value| >= 9 && IsAsciiLetter(r.value[0])
    ensures r.Some? ==> AllDigits(r.value[|r.value| - 4..])
  {
    if !LitAt(s, i, "on") then None
    else
      var a := SpanEnd(s, i + 2, true);
      if a == i + 2 then None else DateFrom(s, a)
  }

  /** `[A-Za-z]+\s+\d+[a-z]{0,2},\s+\d{4}` at `a`: the date text. */
  function DateFrom(s: string, a: nat): (r: Option<string>)
    requires a <= |s|
    ensures r.Some? ==> |r.value| >= 9 && IsAsciiLetter(r.value[0])
    ensures r.Some? ==> AllDigits(r.value[|r.value| - 4..])
  {
    var b := RunEnd(s, a, IsAsciiLetter);
    var c := SpanEnd(s, b, true);
    var d := RunEnd(s, c, IsDigit);
    var l := RunEnd(s, d, IsLowerAscii);
    if b == a || c == b || d == c || l - d > 2 then None
    else
      match YearAt(s, l)
      case None => None
      case Some(f) =>
        DateText(s, a, f);
        Some(s[a..f + 4])
  }

  /** The date text runs from the month's first letter to the year's last
      digit. */
  lemma DateText(s: string, a: nat, f: nat)
    requires a + 5 <= f && f + 4 <= |s|
    requires IsAsciiLetter(s[a]) && AllDigits(s[f..f + 4])
    ensures |s[a..f + 4]| >= 9 && IsAsciiLetter(s[a..f + 4][0])
    ensures AllDigits(s[a..f + 4][|s[a..f + 4]| - 4..])
  {
    assert s[a..f + 4][f + 4 - a - 4..] == s[f..f + 4];
  }

  /** `,\s+\d{4}` at `l`: where the four digits start. */
  function YearAt(s: string, l: nat): (r: Option<nat>)
    requires l <= |s|
    ensures r.Some? ==> l + 1 < r.value && r.value + 4 <= |s| && AllDigits(s[r.value..r.value + 4])
  {
    if l == |s| || s[l] != ',' then None
    else
      var f := SpanEnd(s, l + 1, true);
      if f > l + 1 && f + 4 <= |s| && AllDigits(s[f..f + 4]) then Some(f) else None
  }

  /** `re.search(r'on\s+(...)', text)`, group 1: a month word, a day with an
      optional two-letter suffix, a comma and a four-digit year. */
  function ReviewDate(text: string): (r: Option<string>)
    ensures r.Some? ==> |r.value| >= 9 && IsAsciiLetter(r.value[0])
    ensures r.Some? ==> AllDigits(r.value[|r.value| - 4..])
    ensures r.Some? ==> exists k :: (0 <= k <= |text| && DateAt(text, k) == r
      && forall j :: 0 <= j < k ==> DateAt(text, j).None?)
  {
    match FirstMatch(text, 0, DateAt)
    case Some(k) => DateAt(text, k)
    case None => None
  }

  /** A date is read exactly when the date pattern matches somewhere. */
  lemma ReviewDateFound(text: string)
    ensures ReviewDate(text).Some? <==> exists k :: 0 <= k <= |text| && DateAt(text, k).Some?
  {
  }

  // ---------------------------------------------------------------------
  // (\d+)\s+of\s+(\d+)\s+magicians\s+found\s+this\s+helpful

  function HelpfulAt(s: string, i: nat): Option<(nat, nat)> {
    if i < |s| && IsDigit(s[i]) then
      var a := RunEnd(s, i, IsDigit);
      var b :- SpacesThen(s, a, "of");
      var c := SpanEnd(s, b, true);
      var d := RunEnd(s, c, IsDigit);
      if c == b || d == c then None
      else
        var _ :- HelpfulWordsAt(s, d);
        Some((DigitRunValue(s, i), DigitRunValue(s, c)))
    else None
  }

  /** `\s+magicians\s+found\s+this\s+helpful` at `d`: where it ends. */
  function HelpfulWordsAt(s: string, d: nat): Option<nat> {
    var e :- SpacesThen(s, d, "magicians");
    var f :- SpacesThen(s, e, "found");
    var g :- SpacesThen(s, f, "this");
    SpacesThen(s, g, "helpful")
  }

  /** The value of the run of digits from `i`. */
  function DigitRunValue(s: string, i: nat): nat
    requires i <= |s|
  {
    var a := RunEnd(s, i, IsDigit);
    assert AllDigits(s[i..a]) by {
      forall k | 0 <= k < a - i
        ensures IsDigit(s[i..a][k])
      {
        assert s[i..a][k] == s[i + k];
      }
    }
    DigitsValue(s[i..a])
  }

  /** `re.search(r'(\d+)\s+of\s+(\d+)\s+magicians\s+found\s+this\s+helpful',
      text)`: the helpful count and the vote total. */
  function HelpfulVotes(text: string): (r: Option<(nat, nat)>)
    ensures r.Some? ==> exists k :: (0 <= k <= |text| && HelpfulAt(text, k) == r
      && forall j :: 0 <= j < k ==> HelpfulAt(text, j).None?)
  {
    match FirstMatch(text, 0, HelpfulAt)
    case Some(k) => HelpfulAt(text, k)
    case None => None
  }

  /** The votes are read exactly when the helpful pattern matches somewhere. */
  lemma HelpfulVotesFound(text: string)
    ensures HelpfulVotes(text).Some? <==> exists k :: 0 <= k <= |text| && HelpfulAt(text, k).Some?
  {
  }

  /** One whitespace character and then `lit` at `p`. */
  lemma SpaceLitAt(s: string, p: nat, lit: string)
    requires p + 1 + |lit| <= |s| && IsSpace(s[p])
    requires |lit| > 0 && !IsSpace(lit[0]) && s[p + 1..p + 1 + |lit|] == lit
    ensures SpacesThen(s, p, lit) == Some(p + 1 + |lit|)
  {
    assert s[p + 1] == lit[0];
    assert SpanEnd(s, p + 1, true) == p + 1;
  }

  /** A run of digits `x` at `i`, followed by a non-digit, reads as `x`. */
  lemma DigitRunIs(s: string, i: nat, x: string)
    requires |x| > 0 && AllDigits(x) && i + |x| < |s| && !IsDigit(s[i + |x|])
    requires forall k :: i <= k < i + |x| ==> s[k] == x[k - i]
    ensures RunEnd(s, i, IsDigit) == i + |x|
    ensures DigitRunValue(s, i) == DigitsValue(x)
  {
    assert s[i..i + |x|] == x;
    RunEndIs(s, i, i + |x|, IsDigit);
  }

  /** One space and then `lit`, after `x`: the step ends after `lit`. */
  lemma SpaceWordAt(x: string, lit: string, z: string)
    requires |lit| > 0 && !IsSpace(lit[0])
    ensures SpacesThen(x + " " + lit + z, |x|, lit) == Some(|x| + 1 + |lit|)
  {
    var s := x + " " + lit + z;
    assert s[|x|] == ' ';
    assert s[|x| + 1..|x| + 1 + |lit|] == lit;
    SpaceLitAt(s, |x|, lit);
  }

  /** Text `w` that is a space, `lit` and `rest`, after `x`: the step reads
      `lit`, and what is left is `rest`. */
  lemma WordAfter(x: string, w: string, lit: string, rest: string, u: string)
    requires w == " " + lit + rest && |lit| > 0 && !IsSpace(lit[0])
    ensures SpacesThen(x + w + u, |x|, lit) == Some(|x| + 1 + |lit|)
    ensures x + w + u == x + " " + lit + rest + u
  {
    assert x + w + u == x + " " + lit + (rest + u);
    SpaceWordAt(x, lit, rest + u);
  }

  /** The four words of `\s+magicians\s+found\s+this\s+helpful`, each
      read after `x` from the text that starts with it. */
  lemma MagiciansRead(x: string, u: string)
    ensures SpacesThen(x + " magicians found this helpful" + u, |x|, "magicians") == Some(|x| + 10)
    ensures x + " magicians found this helpful" + u == x + " " + "magicians" + " found this helpful" + u
  {
    assert " magicians found this helpful" == " " + "magicians" + " found this helpful";
    WordAfter(x, " magicians found this helpful", "magicians", " found this helpful", u);
  }

  lemma FoundRead(x: string, u: string)
    ensures SpacesThen(x + " found this helpful" + u, |x|, "found") == Some(|x| + 6)
    ensures x + " found this helpful" + u == x + " " + "found" + " this helpful" + u
  {
    assert " found this helpful" == " " + "found" + " this helpful";
    WordAfter(x, " found this helpful", "found", " this helpful", u);
  }

  lemma ThisRead(x: string, u: string)
    ensures SpacesThen(x + " this helpful" + u, |x|, "this") == Some(|x| + 5)
    ensures x + " this helpful" + u == x + " " + "this" + " helpful" + u
  {
    assert " this helpful" == " " + "this" + " helpful";
    WordAfter(x, " this helpful", "this", " helpful", u);
  }

  lemma HelpfulRead(x: string, u: string)
    ensures SpacesThen(x + " helpful" + u, |x|, "helpful") == Some(|x| + 8)
  {
    assert " helpful" == " " + "helpful" + "";
    WordAfter(x, " helpful", "helpful", "", u);
  }

  /** `\s+magicians\s+found\s+this\s+helpful` read after `x`. */
  lemma HelpfulWordsRead(x: string, u: string)
    ensures HelpfulWordsAt(x + " magicians found this helpful" + u, |x|).Some?
  {
    var x1 := x + " " + "magicians";
    var x2 := x1 + " " + "found";
    var x3 := x2 + " " + "this";
    MagiciansRead(x, u);
    FoundRead(x1, u);
    ThisRead(x2, u);
    HelpfulRead(x3, u);
  }

  /** `HelpfulAt` from the positions its steps reach. */
  lemma HelpfulAtSteps(s: string, i: nat, a: nat, c: nat, d: nat)
    requires i < |s| && IsDigit(s[i]) && RunEnd(s, i, IsDigit) == a
    requires SpacesThen(s, a, "of") == Some(a + 3) && SpanEnd(s, a + 3, true) == c > a + 3
    requires RunEnd(s, c, IsDigit) == d > c && HelpfulWordsAt(s, d).Some?
    ensures HelpfulAt(s, i) == Some((DigitRunValue(s, i), DigitRunValue(s, c)))
  {
  }

  /** " of " at `a`, then a non-space: the `\s+of\s+` step ends at `a + 4`. */
  lemma OfAt(s: string, a: nat)
    requires a + 4 < |s| && s[a] == ' ' && s[a + 1] == 'o' && s[a + 2] == 'f' && s[a + 3] == ' '
    requires !IsSpace(s[a + 4])
    ensures SpacesThen(s, a, "of") == Some(a + 3) && SpanEnd(s, a + 3, true) == a + 4
  {
    assert s[a + 1..a + 3] == "of";
    SpaceLitAt(s, a, "of");
  }

  /** The positions the steps of `HelpfulAt` reach on "<x> of <y>" at `i`. */
  lemma HelpfulStepsRead(s: string, i: nat, x: string, y: string)
    requires |x| > 0 && AllDigits(x) && |y| > 0 && AllDigits(y)
    requires i + |x| + 4 + |y| < |s| && IsSpace(s[i + |x| + 4 + |y|])
    requires forall k :: i <= k < i + |x| ==> s[k] == x[k - i]
    requires s[i + |x|] == ' ' && s[i + |x| + 1] == 'o' && s[i + |x| + 2] == 'f' && s[i + |x| + 3] == ' '
    requires forall k :: i + |x| + 4 <= k < i + |x| + 4 + |y| ==> s[k] == y[k - i - |x| - 4]
    ensures IsDigit(s[i]) && RunEnd(s, i, IsDigit) == i + |x|
    ensures SpacesThen(s, i + |x|, "of") == Some(i + |x| + 3)
    ensures SpanEnd(s, i + |x| + 3, true) == i + |x| + 4
    ensures RunEnd(s, i + |x| + 4, IsDigit) == i + |x| + 4 + |y|
    ensures DigitRunValue(s, i) == DigitsValue(x)
    ensures DigitRunValue(s, i + |x| + 4) == DigitsValue(y)
  {
    var c := i + |x| + 4;
    assert s[i] == x[0];
    assert s[c] == y[0];
    DigitRunIs(s, i, x);
    OfAt(s, i + |x|);
    DigitRunIs(s, c, y);
  }

  /** "<x> of <y>" ending `q`, then " magicians found this helpful": a
      match at `i` whose groups read as `x` and `y`. */
  lemma HelpfulAtRead(q: string, u: string, i: nat, x: string, y: string)
    requires |x| > 0 && AllDigits(x) && |y| > 0 && AllDigits(y)
    requires i + |x| + 4 + |y| == |q|
    requires forall k :: i <= k < i + |x| ==> q[k] == x[k - i]
    requires q[i + |x|] == ' ' && q[i + |x| + 1] == 'o' && q[i + |x| + 2] == 'f' && q[i + |x| + 3] == ' '
    requires forall k :: i + |x| + 4 <= k < |q| ==> q[k] == y[k - i - |x| - 4]
    ensures HelpfulAt(q + " magicians found this helpful" + u, i) == Some((DigitsValue(x), DigitsValue(y)))
  {
    var s := q + " magicians found this helpful" + u;
    assert forall k :: 0 <= k < |q| ==> s[k] == q[k];
    assert s[|q|] == ' ';
    HelpfulStepsRead(s, i, x, y);
    HelpfulWordsRead(q, u);
    HelpfulAtSteps(s, i, i + |x|, i + |x| + 4, |q|);
  }

  /** The helpful votes are those of the leftmost match. */
  lemma HelpfulVotesFirst(text: string, i: nat)
    requires FirstMatch(text, 0, HelpfulAt) == Some(i)
    ensures HelpfulVotes(text) == HelpfulAt(text, i)
  {
  }

  /** No helpful-votes match starts inside text without digits. */
  lemma HelpfulNotInside(t: string, r: string)
    requires forall k :: 0 <= k < |t| ==> !IsDigit(t[k])
    ensures forall k :: 0 <= k < |t| ==> HelpfulAt(t + r, k).None?
  {
    forall k | 0 <= k < |t|
      ensures HelpfulAt(t + r, k).None?
    {
      assert (t + r)[k] == t[k];
    }
  }

  /** "<m> of <n> magicians found this helpful", after text without digits,
      gives the count `m` and the total `n`. */
  lemma {:induction false} HelpfulVotesOf(t: string, m: nat, n: nat, u: string)
    requires forall k :: 0 <= k < |t| ==> !IsDigit(t[k])
    ensures HelpfulVotes(t + NatDigits(m) + " of " + NatDigits(n) + " magicians found this helpful" + u)
      == Some((m, n))
  {
    var d1, d2 := NatDigits(m), NatDigits(n);
    var q := t + d1 + " of " + d2;
    var s := q + " magicians found this helpful" + u;
    var i := |t|;
    var r := d1 + " of " + d2 + " magicians found this helpful" + u;
    assert t + r == s;
    HelpfulNotInside(t, r);
    forall k | i <= k < i + |d1|
      ensures q[k] == d1[k - i]
    {
    }
    forall k | i + |d1| + 4 <= k < |q|
      ensures q[k] == d2[k - i - |d1| - 4]
    {
    }
    HelpfulAtRead(q, u, i, d1, d2);
    NatDigitsRoundTrip(m);
    NatDigitsRoundTrip(n);
    FirstMatchAt(s, 0, i, HelpfulAt);
    HelpfulVotesFirst(s, i);
  }

  // ---------------------------------------------------------------------
  // ([\d.]+)\s+stars?\s*/\s*(\d+)\s+reviews?   -- the review summary

  function SummaryAt(s: string, i: nat): (r: Option<(string, string)>)
    ensures r.Some? ==> |r.value.0| > 0 && forall k :: 0 <= k < |r.value.0| ==> IsDigitOrDot(r.value.0[k])
    ensures r.Some? ==> |r.value.1| > 0 && AllDigits(r.value.1)
  {
    if i < |s| && IsDigitOrDot(s[i]) then
      var a := RunEnd(s, i, IsDigitOrDot);
      match ReviewCountAt(s, a)
      case Some((n, d)) => Some((s[i..a], s[n..d]))
      case None => None
    else None
  }

  /** The rest of the summary pattern after the rating group, from `a`:
      where the review count `(\d+)` starts and ends. */
  function ReviewCountAt(s: string, a: nat): (r: Option<(nat, nat)>)
    requires a <= |s|
    ensures r.Some? ==> a <= r.value.0 < r.value.1 <= |s| && AllDigits(s[r.value.0..r.value.1])
  {
    var k :- SpacesThen(s, a, "star");
    var k2 := if k < |s| && s[k] == 's' then k + 1 else k;
    var m := SpanEnd(s, k2, true);
    if m == |s| || s[m] != '/' then None
    else
      var n := SpanEnd(s, m + 1, true);
      var d := RunEnd(s, n, IsDigit);
      if d == n then None
      else
        var _ :- SpacesThen(s, d, "review");
        Some((n, d))
  }

  // `re.search` of the summary pattern above: the two groups as text.
  function SummaryGroups(text: string): (r: Option<(string, string)>)
    ensures r.Some? ==> |r.value.0| > 0 && forall k :: 0 <= k < |r.value.0| ==> IsDigitOrDot(r.value.0[k])
    ensures r.Some? ==> |r.value.1| > 0 && AllDigits(r.value.1)
  {
    Search(text, SummaryAt)
  }

  // ---------------------------------------------------------------------
  // \$(\d+\.?\d*)   and the labelled variants   Price:\s*\$...   price:\s*\$...

  /** A `\$(\d+\.?\d*)` match at `i`: where it ends, and group 1. */
  function DollarAt(s: string, i: nat): (r: Option<(nat, string)>)
    ensures r.Some? ==> i < r.value.0 <= |s|
    ensures r.Some? ==> IsUnsignedDecimal(r.value.1) && r.value.1[0] != '.'
  {
    if i + 1 < |s| && s[i] == '$' && IsDigit(s[i + 1]) then
      var a := RunEnd(s, i + 1, IsDigit);
      var b := if a < |s| && s[a] == '.' then RunEnd(s, a + 1, IsDigit) else a;
      DollarGroup(s, i, a, b);
      Some((b, s[i + 1..b]))
    else None
  }

  /** Digits, then optionally a dot and more digits, make a decimal that
      does not start with the dot. */
  lemma DollarGroup(s: string, i: nat, a: nat, b: nat)
    requires i + 1 < a <= b <= |s|
    requires forall k :: i + 1 <= k < a ==> IsDigit(s[k])
    requires b > a ==> s[a] == '.' && forall k :: a < k < b ==> IsDigit(s[k])
    ensures IsUnsignedDecimal(s[i + 1..b]) && s[i + 1..b][0] != '.'
  {
    var g := s[i + 1..b];
    forall x | 0 <= x < |g|
      ensures IsDigitOrDot(g[x])
    {
      assert g[x] == s[i + 1 + x];
    }
    forall x, y | 0 <= x < y < |g| && g[x] == '.'
      ensures g[y] != '.'
    {
      assert g[x] == s[i + 1 + x];
      assert g[y] == s[i + 1 + y];
    }
    assert g[0] == s[i + 1];
  }

  /** `re.findall(r'\$(\d+\.?\d*)', text[i:])`: scanning resumes after each
      match, so matches never overlap. */
  function DollarAmounts(s: string, i: nat): (r: seq<string>)
    ensures forall k :: 0 <= k < |r| ==> IsUnsignedDecimal(r[k])
    decreases |s| - i
  {
    if i >= |s| then []
    else
      match DollarAt(s, i)
      case Some((e, g)) => [g] + DollarAmounts(s, e)
      case None => DollarAmounts(s, i + 1)
  }

  /** A `label\s*\$(\d+\.?\d*)` match at `i`. */
  function LabelledDollarAt(s: string, i: nat, lead: string): Option<(nat, string)> {
    if LitAt(s, i, lead) then DollarAt(s, SpanEnd(s, i + |lead|, true)) else None
  }

  /** `re.findall(label + r'\s*\$(\d+\.?\d*)', text[i:])`. */
  function LabelledDollarAmounts(s: string, i: nat, lead: string): (r: seq<string>)
    ensures forall k :: 0 <= k < |r| ==> IsUnsignedDecimal(r[k])
    decreases |s| - i
  {
    if i >= |s| then []
    else
      match LabelledDollarAt(s, i, lead)
      case Some((e, g)) => [g] + LabelledDollarAmounts(s, e, lead)
      case None => LabelledDollarAmounts(s, i + 1, lead)
  }

  /** Any `$` followed by a digit at or after `i` makes `findall` non-empty. */
  lemma {:induction false} DollarFound(s: string, i: nat, k: nat)
    requires i <= k && DollarAt(s, k).Some?
    ensures DollarAmounts(s, i) != []
    decreases |s| - i
  {
    if DollarAt(s, i).None? {
      DollarFound(s, i + 1, k);
    }
  }

  /** Every labelled price match contains a plain `$` match, so the labelled
      patterns can only match where the plain one already has. */
  lemma {:induction false} LabelledImpliesPlain(s: string, i: nat, lead: string)
    requires LabelledDollarAmounts(s, i, lead) != []
    ensures DollarAmounts(s, 0) != []
    decreases |s| - i
  {
    if LabelledDollarAt(s, i, lead).Some? {
      DollarFound(s, 0, SpanEnd(s, i + |lead|, true));
    } else {
      LabelledImpliesPlain(s, i + 1, lead);
    }
  }
}
