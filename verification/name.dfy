/** The product name and its author (extract_product_info, name and author
    steps).  The three name sources are the query results the function reads:
    the text of the `<h1>` inside the first `div.product-main`, the `content`
    of `meta[property=og:title]` (the empty string when the attribute is
    missing, as `get('content', '')` gives), and the text of `<title>`. */
module ProductName {
  import opened Wrappers
  import opened PyText
  import opened Patterns

  /** The shop's title suffix removed from meta and page titles. */
  const SiteSuffix: string := " - Penguin Magic Shop"

  /** The name used when no source yields one ("name not found"). */
  const Placeholder: string := "Название не найдено"

  /** A falsy Python value (None or "") is the empty string here. */
  function HeadingCandidate(h1: Option<string>): string {
    if h1.Some? then Strip(h1.value) else ""
  }

  /** `x.strip().replace(' - Penguin Magic Shop', '').strip()`. */
  function TitleCandidate(raw: Option<string>): (r: string)
    ensures IsStripped(r)
  {
    if raw.Some? then Strip(ReplaceAll(Strip(raw.value), SiteSuffix, "")) else ""
  }

  /** The fallback chain: the heading, then og:title, then `<title>`, then
      the placeholder.  The first non-empty candidate wins. */
  function NameOf(h1: Option<string>, ogTitle: Option<string>, title: Option<string>): (r: string)
    ensures r != "" && IsStripped(r)
    ensures HeadingCandidate(h1) != "" ==> r == HeadingCandidate(h1)
    ensures HeadingCandidate(h1) == "" && TitleCandidate(ogTitle) != "" ==> r == TitleCandidate(ogTitle)
    ensures HeadingCandidate(h1) == "" && TitleCandidate(ogTitle) == "" && TitleCandidate(title) != ""
      ==> r == TitleCandidate(title)
    ensures HeadingCandidate(h1) == "" && TitleCandidate(ogTitle) == "" && TitleCandidate(title) == ""
      ==> r == Placeholder
  {
    var c1 := HeadingCandidate(h1);
    var c2 := TitleCandidate(ogTitle);
    var c3 := TitleCandidate(title);
    if c1 != "" then c1
    else if c2 != "" then c2
    else if c3 != "" then c3
    else Placeholder
  }

  /** The suffix never overlaps itself: no proper suffix of it starts with
      its first two characters " -". */
  lemma SuffixNoSelfOverlap(j: int)
    requires 1 <= j < |SiteSuffix|
    ensures SiteSuffix[j] != ' ' || (j + 1 < |SiteSuffix| && SiteSuffix[j + 1] != '-')
  {
    var rest := SiteSuffix[2..];
    assert rest == " Penguin Magic Shop";
    assert '-' !in rest;
    assert SiteSuffix[|SiteSuffix| - 1] == 'p';
    if j + 1 < |SiteSuffix| {
      assert SiteSuffix[j + 1] == rest[j - 1];
    }
  }

  /** The suffix cannot overlap itself. */
  lemma SuffixSelfOverlapFree()
    ensures SelfOverlapFree(SiteSuffix)
  {
    forall j | 0 < j < |SiteSuffix|
      ensures SiteSuffix[j..] != SiteSuffix[..|SiteSuffix| - j]
    {
      SuffixNoSelfOverlap(j);
      var a := SiteSuffix[j..];
      var b := SiteSuffix[..|SiteSuffix| - j];
      assert b[0] == SiteSuffix[0] == ' ';
      if SiteSuffix[j] == ' ' {
        assert b[1] == SiteSuffix[1] == '-';
        assert a[1] == SiteSuffix[j + 1];
      } else {
        assert a[0] == SiteSuffix[j];
      }
    }
  }

  /** A title of the form `<x> - Penguin Magic Shop` becomes `<x>`. */
  lemma SuffixRemoved(x: string)
    requires x != "" && IsStripped(x) && !Contains(x, SiteSuffix)
    ensures TitleCandidate(Some(x + SiteSuffix)) == x
  {
    SuffixSelfOverlapFree();
    RemoveSuffixAndStrip(x, SiteSuffix);
  }

  /** A page without a product heading is named after its og:title with the
      shop suffix removed, whatever `<title>` says. */
  lemma OgTitleNamesPage(x: string, title: Option<string>)
    requires x != "" && IsStripped(x) && !Contains(x, SiteSuffix)
    ensures NameOf(None, Some(x + SiteSuffix), title) == x
  {
    SuffixRemoved(x);
  }

  /** "by", one whitespace character, and at least one more character
      before the first '(' after it: where the author pattern matches. */
  predicate Byline(name: string, i: nat) {
    && LitAt(name, i, "by")
    && i + 2 < |name|
    && IsSpace(name[i + 2])
    && RunEnd(name, i + 2, NotOpenParen) >= i + 4
  }

  /** `re.search(r'by\s+([^(]+?)(?:\s*\(|$)', name)`, group 1 stripped: the
      text between the first byline's "by" and the next '(' (or the end). */
  function AuthorFromName(name: string): (r: Option<string>)
    ensures r.Some? ==> '(' !in r.value && IsStripped(r.value)
    ensures r.Some? <==> exists i: nat :: Byline(name, i)
    ensures forall i: nat :: (Byline(name, i) && (forall k: nat :: k < i ==> !Byline(name, k))
      ==> r == Some(Strip(name[i + 2..RunEnd(name, i + 2, NotOpenParen)])))
  {
    BylineAuthor(name);
    AuthorOf(name)
  }

  /** The leftmost author match is at the first byline, and the author is
      the stripped text from there to the next '(' or the end. */
  lemma BylineAuthor(name: string)
    ensures AuthorOf(name).Some? <==> exists i: nat :: Byline(name, i)
    ensures forall i: nat :: (Byline(name, i) && (forall k: nat :: k < i ==> !Byline(name, k))
      ==> AuthorOf(name) == Some(Strip(name[i + 2..RunEnd(name, i + 2, NotOpenParen)])))
  {
    BylineMatches(name);
    var r := AuthorOf(name);
    forall i: nat | Byline(name, i) && (forall k: nat :: k < i ==> !Byline(name, k))
      ensures r == Some(Strip(name[i + 2..RunEnd(name, i + 2, NotOpenParen)]))
    {
      var j :| 0 <= j <= |name| && AuthorAt(name, j) == r
        && forall k :: 0 <= k < j ==> AuthorAt(name, k).None?;
      assert j == i;
      AuthorBetween(name, i);
    }
  }

  /** A name without "by" has no author. */
  lemma AuthorNeedsBy(name: string)
    ensures !Contains(name, "by") ==> AuthorFromName(name).None?
  {
    AuthorOfNeedsBy(name);
  }

  /** The author pattern matches at `i` exactly at a byline. */
  lemma BylineMatches(name: string)
    ensures forall i: nat :: AuthorAt(name, i).Some? <==> Byline(name, i)
  {
    forall i: nat
      ensures AuthorAt(name, i).Some? <==> Byline(name, i)
    {
      AuthorBetween(name, i);
    }
  }

  /** No "by" starts inside `t` or at the space after it when `t` holds
      none. */
  lemma NoByAt(t: string, u: string, k: nat)
    requires !Contains(t, "by") && k <= |t|
    ensures !LitAt(t + " " + u, k, "by")
  {
    var s := t + " " + u;
    if k + 2 <= |s| {
      var w := s[k..k + 2];
      if k + 2 <= |t| {
        ContainsIff(t, "by");
        assert w == t[k..k + 2];
        assert !OccursAt(t, "by", k);
      } else if k + 1 == |t| {
        assert w[1] == s[k + 1] == ' ' != "by"[1];
      } else {
        assert w[0] == s[k] == ' ' != "by"[0];
      }
    }
  }

  /** No author match starts inside `t` or at the space after it when `t`
      holds no "by". */
  lemma NoByBefore(t: string, u: string, k: nat)
    requires !Contains(t, "by") && k <= |t|
    ensures AuthorAt(t + " " + u, k).None?
  {
    NoByAt(t, u, k);
  }

  /** The byline `by <author><rest>` at `i`: "by", then one space, then the
      author's first character, which is neither whitespace nor '('. */
  lemma BylineHead(s: string, i: nat, a: string, rest: string)
    requires a != "" && IsStripped(a) && '(' !in a
    requires i + 3 + |a| + |rest| == |s| && s[i..] == "by " + a + rest
    ensures LitAt(s, i, "by") && SpanEnd(s, i + 2, true) == i + 3 && s[i + 3] != '('
  {
    var u := s[i..];
    assert s[i..i + 2] == u[..2] == "by";
    assert s[i + 2] == u[2] == ' ';
    assert s[i + 3] == u[3] == a[0];
    assert a[0] in a;
  }

  /** After the space, the run without '(' covers the author, and the space
      before " (" when there is one. */
  lemma BylineText(s: string, i: nat, a: string, rest: string)
    requires a != "" && '(' !in a
    requires rest == "" || (|rest| >= 2 && rest[..2] == " (")
    requires i + 3 + |a| + |rest| == |s| && s[i..] == "by " + a + rest
    ensures var e := if rest == "" then |s| else i + 4 + |a|;
      RunEnd(s, i + 3, NotOpenParen) == e && s[i + 3..e] == (if rest == "" then a else a + " ")
  {
    var u := s[i..];
    var p := i + 3;
    forall k | p <= k < p + |a|
      ensures s[k] == a[k - p]
    {
      assert s[k] == u[k - i];
    }
    assert s[p..p + |a|] == a;
    if rest == "" {
      RunEndIs(s, p, |s|, NotOpenParen);
    } else {
      assert s[p + |a|] == u[3 + |a|] == rest[0] == ' ';
      assert s[p + |a| + 1] == u[4 + |a|] == rest[1] == '(';
      RunEndIs(s, p, p + |a| + 1, NotOpenParen);
      assert s[p..p + |a| + 1] == a + " ";
    }
  }

  /** The author match anchored at a "by" followed by one space, the author,
      and either the end or ` (`. */
  lemma AuthorAtByline(s: string, i: nat, a: string, rest: string)
    requires a != "" && IsStripped(a) && '(' !in a
    requires rest == "" || (|rest| >= 2 && rest[..2] == " (")
    requires i + 3 + |a| + |rest| == |s| && s[i..] == "by " + a + rest
    ensures AuthorAt(s, i) == Some(a)
  {
    BylineHead(s, i, a, rest);
    BylineText(s, i, a, rest);
    if rest == "" {
      StripStripped(a);
    } else {
      StripTrailingSpace(a);
    }
  }

  /** Regrouping the byline around the space before "by". */
  lemma BylineShape(t: string, a: string, rest: string)
    ensures t + " by " + a + rest == t + " " + ("by " + a + rest)
    ensures (t + " by " + a + rest)[|t| + 1..] == "by " + a + rest
  {
    var u := "by " + a + rest;
    var s := t + " by " + a + rest;
    assert |s| == |t| + 1 + |u|;
    forall k | 0 <= k < |u|
      ensures s[|t| + 1 + k] == u[k]
    {
      if k < 3 {
      } else if k < 3 + |a| {
        assert u[k] == a[k - 3];
      } else {
        assert u[k] == rest[k - 3 - |a|];
      }
    }
    assert s[|t| + 1..] == u;
    assert s[..|t| + 1] == t + " ";
  }

  /** For a name `<title> by <author>` optionally followed by ` (...)`, where
      the title holds no "by", the author is found. */
  lemma AuthorOfByline(t: string, a: string, rest: string)
    requires !Contains(t, "by")
    requires a != "" && IsStripped(a) && '(' !in a
    requires rest == "" || (|rest| >= 2 && rest[..2] == " (")
    ensures AuthorFromName(t + " by " + a + rest) == Some(a)
  {
    var u := "by " + a + rest;
    var s := t + " " + u;
    BylineShape(t, a, rest);
    var i := |t| + 1;
    forall k | 0 <= k < i
      ensures AuthorAt(s, k).None?
    {
      NoByBefore(t, u, k);
    }
    AuthorAtByline(s, i, a, rest);
    FirstMatchAt(s, 0, i, AuthorAt);
  }
}
