/** Reading SQL text back: finding a separator, `str.split(sep)`, taking the
    text between a fixed head and tail, and counting the `%` markers the
    psycopg2 driver binds parameters to. */
module SqlText {
  import opened Wrappers
  import opened PyText

  /** Where `p` first occurs in `s` at or after `i`. */
  function FindFrom(s: string, p: string, i: nat): (r: Option<nat>)
    requires |p| > 0
    ensures r.Some? ==> i <= r.value && OccursAt(s, p, r.value)
    ensures r.Some? ==> forall j :: i <= j < r.value ==> !OccursAt(s, p, j)
    ensures r.None? ==> forall j :: i <= j ==> !OccursAt(s, p, j)
    decreases |s| - i
  {
    if i + |p| > |s| then None
    else if OccursAt(s, p, i) then Some(i)
    else FindFrom(s, p, i + 1)
  }

  /** `s.find(p)`, with None for -1. */
  function Find(s: string, p: string): (r: Option<nat>)
    requires |p| > 0
    ensures r.Some? ==> OccursAt(s, p, r.value) && forall j :: 0 <= j < r.value ==> !OccursAt(s, p, j)
    ensures r.None? ==> forall j :: 0 <= j ==> !OccursAt(s, p, j)
  {
    FindFrom(s, p, 0)
  }

  /** `s.split(p)` for a non-empty separator `p`. */
  function SplitOn(s: string, p: string): seq<string>
    requires |p| > 0
    decreases |s|
  {
    match Find(s, p)
    case None => [s]
    case Some(j) => [s[..j]] + SplitOn(s[j + |p|..], p)
  }

  /** In `x + p` the separator `p` first occurs where `x` ends. */
  predicate EndsBefore(x: string, p: string) {
    forall j :: 0 <= j < |x| ==> !OccursAt(x + p, p, j)
  }

  /** A piece without the separator's first character cannot start an
      occurrence of it. */
  lemma EndsBeforeByHead(x: string, p: string)
    requires |p| > 0 && p[0] !in x
    ensures EndsBefore(x, p)
  {
    forall j | 0 <= j < |x|
      ensures !OccursAt(x + p, p, j)
    {
      assert (x + p)[j] == x[j] != p[0];
    }
  }

  /** A piece that lacks some character of the separator and whose last
      character is not in the separator cannot start an occurrence of it. */
  lemma EndsBeforeByChars(x: string, p: string, a: char)
    requires a in p && a !in x
    requires |x| > 0 && x[|x| - 1] !in p
    ensures EndsBefore(x, p)
  {
    forall j | 0 <= j < |x|
      ensures !OccursAt(x + p, p, j)
    {
      if j + |p| >= |x| {
        assert (x + p)[|x| - 1] == x[|x| - 1] != p[|x| - 1 - j];
      } else {
        var t :| 0 <= t < |p| && p[t] == a;
        assert (x + p)[j + t] == x[j + t] != p[t];
      }
    }
  }

  /** Finding the separator in `x + p + y` where `x` cannot start it. */
  lemma FindAfter(x: string, p: string, y: string)
    requires |p| > 0 && EndsBefore(x, p)
    ensures Find(x + p + y, p) == Some(|x|)
  {
    var s := x + p + y;
    assert s[|x|..|x| + |p|] == p;
    assert OccursAt(s, p, |x|);
    forall j | 0 <= j < |x|
      ensures !OccursAt(s, p, j)
    {
      assert !OccursAt(x + p, p, j);
      assert s[j..j + |p|] == (x + p)[j..j + |p|];
    }
  }

  /** A piece that cannot start the separator does not contain it. */
  lemma EndsBeforeNoOccurrence(x: string, p: string)
    requires |p| > 0 && EndsBefore(x, p)
    ensures Find(x, p).None?
  {
    forall j | 0 <= j
      ensures !OccursAt(x, p, j)
    {
      if j + |p| <= |x| {
        assert !OccursAt(x + p, p, j);
        assert (x + p)[j..j + |p|] == x[j..j + |p|];
      }
    }
  }

  /** Splitting the joined pieces on the separator gives the pieces back,
      when none of them can start the separator. */
  lemma {:induction false} SplitOnJoin(ps: seq<string>, p: string)
    requires |ps| > 0 && |p| > 0
    requires forall k :: 0 <= k < |ps| ==> EndsBefore(ps[k], p)
    ensures SplitOn(Join(p, ps), p) == ps
    decreases |ps|
  {
    if |ps| == 1 {
      EndsBeforeNoOccurrence(ps[0], p);
    } else {
      var rest := Join(p, ps[1..]);
      var s := ps[0] + p + rest;
      assert Join(p, ps) == s;
      assert SplitOn(s, p) == [ps[0]] + SplitOn(rest, p) by {
        FindAfter(ps[0], p, rest);
        assert s[..|ps[0]|] == ps[0];
        assert s[|ps[0]| + |p|..] == rest;
      }
      SplitOnJoin(ps[1..], p);
      assert ps == [ps[0]] + ps[1..];
    }
  }

  /** A character in neither the separator nor any piece is not in the
      joined text. */
  lemma {:induction false} JoinAvoids(sep: string, ps: seq<string>, c: char)
    requires c !in sep && forall k :: 0 <= k < |ps| ==> c !in ps[k]
    ensures c !in Join(sep, ps)
    decreases |ps|
  {
    if |ps| > 1 {
      JoinAvoids(sep, ps[1..], c);
      assert Join(sep, ps) == ps[0] + sep + Join(sep, ps[1..]);
    }
  }

  /** The text of `q` between `head` and `tail`, when `q` has that shape. */
  function Between(q: string, head: string, tail: string): (r: Option<string>)
    ensures r.Some? ==> q == head + r.value + tail
  {
    if |head| + |tail| <= |q| && q[..|head|] == head && q[|q| - |tail|..] == tail then
      var r := q[|head|..|q| - |tail|];
      assert q == q[..|head|] + r + q[|q| - |tail|..];
      Some(r)
    else None
  }

  lemma BetweenOf(head: string, x: string, tail: string)
    ensures Between(head + x + tail, head, tail) == Some(x)
  {
    var q := head + x + tail;
    assert q[..|head|] == head;
    assert q[|q| - |tail|..] == tail;
    assert q[|head|..|q| - |tail|] == x;
  }

  // ---------------------------------------------------------------------
  // Parameter markers

  /** The number of `%` characters in `s`. */
  function PercentCount(s: string): (r: nat)
    ensures r <= |s|
  {
    if s == [] then 0
    else (if s[0] == '%' then 1 else 0) + PercentCount(s[1..])
  }

  /** Every `%` in `s` starts a `%s` marker. */
  predicate MarkersOnly(s: string) {
    forall i :: 0 <= i < |s| && s[i] == '%' ==> i + 1 < |s| && s[i + 1] == 's'
  }

  lemma MarkersOnlyAppend(a: string, b: string)
    requires MarkersOnly(a) && MarkersOnly(b)
    ensures MarkersOnly(a + b)
  {
    forall i | 0 <= i < |a + b| && (a + b)[i] == '%'
      ensures i + 1 < |a + b| && (a + b)[i + 1] == 's'
    {
      if i < |a| {
        assert a[i] == '%';
      } else {
        assert b[i - |a|] == '%';
      }
    }
  }

  lemma {:induction false} PercentCountAppend(a: string, b: string)
    ensures PercentCount(a + b) == PercentCount(a) + PercentCount(b)
    decreases |a|
  {
    if a != [] {
      PercentCountAppend(a[1..], b);
      assert (a + b)[0] == a[0];
      assert (a + b)[1..] == a[1..] + b;
    } else {
      assert a + b == b;
    }
  }

  /** Text without `%` carries no marker and breaks none. */
  lemma {:induction false} NoPercent(s: string)
    requires '%' !in s
    ensures PercentCount(s) == 0 && MarkersOnly(s)
    decreases |s|
  {
    if s != [] {
      NoPercent(s[1..]);
    }
  }

  /** One more factor, proved apart so that the nonlinear step stays out of
      `JoinMarkers`'s proof. */
  lemma MulStep(m: nat, n: nat)
    ensures m * (n + 1) == m * n + m
  {
  }

  lemma {:induction false} JoinMarkers(sep: string, ps: seq<string>, m: nat)
    requires '%' !in sep
    requires forall k :: 0 <= k < |ps| ==> PercentCount(ps[k]) == m && MarkersOnly(ps[k])
    ensures PercentCount(Join(sep, ps)) == m * |ps|
    ensures MarkersOnly(Join(sep, ps))
    decreases |ps|
  {
    if |ps| > 1 {
      JoinMarkers(sep, ps[1..], m);
      var rest := Join(sep, ps[1..]);
      assert Join(sep, ps) == ps[0] + sep + rest;
      MarkersOnlyAppend(ps[0], sep);
      MarkersOnlyAppend(ps[0] + sep, rest);
      NoPercent(sep);
      PercentCountAppend(ps[0], sep);
      PercentCountAppend(ps[0] + sep, rest);
      MulStep(m, |ps| - 1);
    }
  }

  /** A marker after `%`-free text. */
  lemma Marked(a: string)
    requires '%' !in a
    ensures PercentCount(a + "%s") == 1 && MarkersOnly(a + "%s")
  {
    MarkerAlone();
    NoPercent(a);
    PercentCountAppend(a, "%s");
    MarkersOnlyAppend(a, "%s");
  }

  /** The marker on its own. */
  lemma MarkerAlone()
    ensures PercentCount("%s") == 1 && MarkersOnly("%s")
  {
    assert "%s"[1..] == "s";
    assert "s"[1..] == [];
  }

  /** `%`-free text before `x` adds no marker and breaks none. */
  lemma Prefixed(a: string, x: string)
    requires '%' !in a && MarkersOnly(x)
    ensures PercentCount(a + x) == PercentCount(x) && MarkersOnly(a + x)
  {
    NoPercent(a);
    PercentCountAppend(a, x);
    MarkersOnlyAppend(a, x);
  }

  /** `%`-free text after `x` adds no marker and breaks none. */
  lemma Suffixed(x: string, b: string)
    requires '%' !in b && MarkersOnly(x)
    ensures PercentCount(x + b) == PercentCount(x) && MarkersOnly(x + b)
  {
    NoPercent(b);
    PercentCountAppend(x, b);
    MarkersOnlyAppend(x, b);
  }

  /** Markers add up over a concatenation. */
  lemma Concat(x: string, y: string)
    requires MarkersOnly(x) && MarkersOnly(y)
    ensures PercentCount(x + y) == PercentCount(x) + PercentCount(y) && MarkersOnly(x + y)
  {
    PercentCountAppend(x, y);
    MarkersOnlyAppend(x, y);
  }

  /** Two marked texts between `%`-free head, separator and tail. */
  lemma Framed2(a: string, x: string, b: string, y: string, c: string)
    requires '%' !in a && '%' !in b && '%' !in c
    requires MarkersOnly(x) && MarkersOnly(y)
    ensures PercentCount(a + x + b + y + c) == PercentCount(x) + PercentCount(y)
    ensures MarkersOnly(a + x + b + y + c)
  {
    Prefixed(a, x);
    Suffixed(a + x, b);
    Concat(a + x + b, y);
    Suffixed(a + x + b + y, c);
  }
}
