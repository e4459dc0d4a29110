/** The product's tags: the texts of the `/tricks/tagged/` links inside the
    first floated container after the add-to-cart block that holds grey tag
    boxes and is not part of the browse menu, duplicates removed. */
module ProductTags {
  import opened Wrappers
  import opened PyText
  import opened SoupText

  /** An `<a>` element: its `href` attribute, if any, and its text
      fragments. */
  datatype Link = Link(href: Option<string>, fragments: seq<string>)

  /** A `<div>` that follows `div.product_addtocart` in document order: its
      `style` attribute, whether it lies inside `div#browse_menu`, the
      `style` attributes of the divs inside it, and the links inside it. */
  datatype FollowingDiv = FollowingDiv(
    style: Option<string>,
    inBrowseMenu: bool,
    innerDivStyles: seq<Option<string>>,
    links: seq<Link>)

  /** An attribute that is present and mentions `p`. */
  predicate AttrHas(attr: Option<string>, p: string) {
    attr.Some? && Contains(attr.value, p)
  }

  /** The grey box each tag sits in. */
  predicate IsGreyBox(style: Option<string>) {
    AttrHas(style, "background:#aaa") && AttrHas(style, "border:1px solid #999")
  }

  predicate HasGreyBox(d: FollowingDiv) {
    exists k :: 0 <= k < |d.innerDivStyles| && IsGreyBox(d.innerDivStyles[k])
  }

  /** The test the loop over the following divs applies: floated left (a
      missing style reads as the empty string), outside the browse menu, and
      holding at least one grey box. */
  predicate IsTagsContainer(d: FollowingDiv) {
    Contains(d.style.GetOr(""), "float:left") && !d.inBrowseMenu && HasGreyBox(d)
  }

  function GreyBoxFrom(styles: seq<Option<string>>, i: nat): (r: bool)
    requires i <= |styles|
    ensures r <==> exists k :: i <= k < |styles| && IsGreyBox(styles[k])
    decreases |styles| - i
  {
    if i == |styles| then false
    else IsGreyBox(styles[i]) || GreyBoxFrom(styles, i + 1)
  }

  /** The loop over the following divs, from index `i`: skips the divs it
      `continue`s past and stops at the first container. */
  function ContainerFrom(divs: seq<FollowingDiv>, i: nat): (r: Option<nat>)
    requires i <= |divs|
    ensures r.Some? ==> i <= r.value < |divs| && IsTagsContainer(divs[r.value])
    ensures r.Some? ==> forall k :: i <= k < r.value ==> !IsTagsContainer(divs[k])
    ensures r.None? ==> forall k :: i <= k < |divs| ==> !IsTagsContainer(divs[k])
    decreases |divs| - i
  {
    if i == |divs| then None
    else
      var d := divs[i];
      if !Contains(d.style.GetOr(""), "float:left") then ContainerFrom(divs, i + 1)
      else if d.inBrowseMenu then ContainerFrom(divs, i + 1)
      else if GreyBoxFrom(d.innerDivStyles, 0) then Some(i)
      else ContainerFrom(divs, i + 1)
  }

  /** The tags container: the first following div that passes the test. */
  function Container(divs: seq<FollowingDiv>): (r: Option<nat>)
    ensures r.Some? ==> r.value < |divs| && IsTagsContainer(divs[r.value])
    ensures r.Some? ==> !divs[r.value].inBrowseMenu
    ensures r.Some? ==> forall k :: 0 <= k < r.value ==> !IsTagsContainer(divs[k])
    ensures r.None? <==> forall k :: 0 <= k < |divs| ==> !IsTagsContainer(divs[k])
  {
    ContainerFrom(divs, 0)
  }

  /** A link `find_all` selects: an `href` that mentions `/tricks/tagged/`. */
  predicate IsTagLink(l: Link) {
    AttrHas(l.href, "/tricks/tagged/")
  }

  /** A link's text as `get_text(strip=True)` gives it. */
  function LinkText(l: Link): string {
    StrippedText("", l.fragments)
  }

  /** The non-empty texts of the tag links, in document order. */
  function LinkTags(links: seq<Link>): (r: seq<string>)
    ensures |r| <= |links|
  {
    if |links| == 0 then []
    else
      var rest := LinkTags(links[1..]);
      if IsTagLink(links[0]) && LinkText(links[0]) != "" then [LinkText(links[0])] + rest
      else rest
  }

  /** Every collected tag is the non-empty text of some tag link. */
  lemma {:induction false} LinkTagsSound(links: seq<Link>)
    ensures forall t :: t in LinkTags(links) ==>
      t != "" && exists k :: 0 <= k < |links| && IsTagLink(links[k]) && LinkText(links[k]) == t
  {
    if |links| > 0 {
      LinkTagsSound(links[1..]);
      forall t | t in LinkTags(links[1..])
        ensures exists k :: 0 <= k < |links| && IsTagLink(links[k]) && LinkText(links[k]) == t
      {
        var k :| 0 <= k < |links[1..]| && IsTagLink(links[1..][k]) && LinkText(links[1..][k]) == t;
        assert links[k + 1] == links[1..][k];
      }
    }
  }

  /** No collected tag has whitespace at its ends. */
  lemma {:induction false} LinkTagsStripped(links: seq<Link>)
    ensures forall t :: t in LinkTags(links) ==> IsStripped(t)
  {
    if |links| > 0 {
      LinkTagsStripped(links[1..]);
      GluedTextStripped(links[0].fragments);
    }
  }

  /** Every tag link with text is collected. */
  lemma {:induction false} LinkTagsComplete(links: seq<Link>)
    ensures forall k :: 0 <= k < |links| && IsTagLink(links[k]) && LinkText(links[k]) != "" ==>
      LinkText(links[k]) in LinkTags(links)
  {
    if |links| > 0 {
      LinkTagsComplete(links[1..]);
      forall k | 1 <= k < |links| && IsTagLink(links[k]) && LinkText(links[k]) != ""
        ensures LinkText(links[k]) in LinkTags(links)
      {
        assert links[1..][k - 1] == links[k];
      }
    }
  }

  /** The collected tags are exactly the non-empty texts of the tag links,
      each without whitespace at its ends. */
  lemma LinkTagsExactly(links: seq<Link>)
    ensures forall t :: t in LinkTags(links) <==>
      exists k :: 0 <= k < |links| && IsTagLink(links[k]) && LinkText(links[k]) == t && t != ""
    ensures forall t :: t in LinkTags(links) ==> IsStripped(t)
  {
    LinkTagsSound(links);
    LinkTagsStripped(links);
    LinkTagsComplete(links);
  }

  // ---------------------------------------------------------------------
  // list(dict.fromkeys(xs))

  /** The first occurrences of `xs`, in order: `list(dict.fromkeys(xs))`. */
  function Dedup<T(==)>(xs: seq<T>): (r: seq<T>)
    ensures forall k :: 0 <= k < |r| ==> r[k] in xs
    decreases |xs|
  {
    if |xs| == 0 then []
    else
      var r := Dedup(xs[..|xs| - 1]);
      assert forall k :: 0 <= k < |r| ==> r[k] in xs[..|xs| - 1];
      if xs[|xs| - 1] in r then r else r + [xs[|xs| - 1]]
  }

  predicate NoDuplicates<T(==)>(xs: seq<T>) {
    forall i, j :: 0 <= i < j < |xs| ==> xs[i] != xs[j]
  }

  /** Where `x` first occurs in `xs`. */
  function FirstIndex<T(==)>(xs: seq<T>, x: T): (k: nat)
    requires x in xs
    ensures k < |xs| && xs[k] == x && x !in xs[..k]
  {
    if xs[0] == x then 0
    else
      var k := FirstIndex(xs[1..], x);
      assert xs[..k + 1] == [xs[0]] + xs[1..][..k];
      k + 1
  }

  /** Deduplication keeps exactly the elements, each once. */
  lemma {:induction false} DedupElements<T>(xs: seq<T>)
    ensures NoDuplicates(Dedup(xs))
    ensures forall x :: x in Dedup(xs) <==> x in xs
    decreases |xs|
  {
    if |xs| > 0 {
      var init := xs[..|xs| - 1];
      DedupElements(init);
      assert xs == init + [xs[|xs| - 1]];
    }
  }

  /** The first occurrence is the one with no earlier occurrence. */
  lemma {:induction false} FirstIndexUnique<T>(xs: seq<T>, x: T, k: nat)
    requires k < |xs| && xs[k] == x && x !in xs[..k]
    ensures FirstIndex(xs, x) == k
  {
    if k > 0 {
      assert xs[..k][0] == xs[0];
      assert xs[1..][..k - 1] == xs[..k][1..];
      FirstIndexUnique(xs[1..], x, k - 1);
    }
  }

  lemma FirstIndexInPrefix<T>(xs: seq<T>, ys: seq<T>, x: T)
    requires x in xs
    ensures FirstIndex(xs + ys, x) == FirstIndex(xs, x)
  {
    var k := FirstIndex(xs, x);
    assert (xs + ys)[..k] == xs[..k];
    FirstIndexUnique(xs + ys, x, k);
  }

  /** Deduplication keeps the order of first occurrence. */
  lemma {:induction false} DedupOrder<T>(xs: seq<T>)
    ensures forall i, j :: 0 <= i < j < |Dedup(xs)| ==>
      FirstIndex(xs, Dedup(xs)[i]) < FirstIndex(xs, Dedup(xs)[j])
    decreases |xs|
  {
    if |xs| > 0 {
      var n := |xs| - 1;
      var init := xs[..n];
      var x := xs[n];
      DedupOrder(init);
      DedupElements(init);
      assert xs == init + [x];
      var r := Dedup(init);
      forall y | y in r
        ensures y in init && FirstIndex(xs, y) == FirstIndex(init, y) < n
      {
        assert y in init;
        FirstIndexInPrefix(init, [x], y);
      }
      if x !in r {
        assert x !in init;
        FirstIndexUnique(xs, x, n);
        forall i, j | 0 <= i < j < |r + [x]|
          ensures FirstIndex(xs, (r + [x])[i]) < FirstIndex(xs, (r + [x])[j])
        {
          assert (r + [x])[i] == r[i];
          if j < |r| {
            assert (r + [x])[j] == r[j];
          }
        }
      }
    }
  }

  /** The loop `dict.fromkeys` runs: walk the list once, remembering what
      has been seen, and append what has not. */
  method DedupLoop<T(==)>(xs: seq<T>) returns (r: seq<T>)
    ensures r == Dedup(xs)
  {
    r := [];
    var seen: set<T> := {};
    var i := 0;
    while i < |xs|
      invariant 0 <= i <= |xs|
      invariant r == Dedup(xs[..i])
      invariant forall x :: x in seen <==> x in r
    {
      assert xs[..i + 1][..i] == xs[..i];
      if xs[i] !in seen {
        r := r + [xs[i]];
        seen := seen + {xs[i]};
      }
      i := i + 1;
    }
    assert xs[..i] == xs;
  }

  // ---------------------------------------------------------------------

  /** The tags of a page.  `following` is absent when the page has no
      `div.product_addtocart`; otherwise it lists the divs after it in
      document order. */
  function Tags(following: Option<seq<FollowingDiv>>): (r: seq<string>)
    ensures following.None? ==> r == []
  {
    if following.None? then []
    else
      var divs := following.value;
      match Container(divs)
      case None => []
      case Some(k) => Dedup(LinkTags(divs[k].links))
  }

  /** The tags are the distinct non-empty texts of the tag links of the
      chosen container, without surrounding whitespace, each once, in the
      order each first appears. */
  lemma TagsOfContainer(divs: seq<FollowingDiv>, k: nat)
    requires Container(divs) == Some(k)
    ensures NoDuplicates(Tags(Some(divs)))
    ensures forall t :: t in Tags(Some(divs)) <==>
      exists j :: 0 <= j < |divs[k].links| && IsTagLink(divs[k].links[j])
        && LinkText(divs[k].links[j]) == t && t != ""
    ensures forall t :: t in Tags(Some(divs)) ==> IsStripped(t)
  {
    DedupElements(LinkTags(divs[k].links));
    LinkTagsExactly(divs[k].links);
  }

  /** Without a container (none floated, all in the browse menu, or none
      with grey boxes) there are no tags. */
  lemma NoContainerNoTags(divs: seq<FollowingDiv>)
    requires forall k :: 0 <= k < |divs| ==> !IsTagsContainer(divs[k])
    ensures Tags(Some(divs)) == []
  {
  }
}
