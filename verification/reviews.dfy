/** The reviews section: one record per customer review block that carries
    a rating or a text, preceded by the summary entry (overall rating and
    review count) when the summary link parses. */
module Reviews {
  import opened Wrappers
  import opened PyText
  import opened Decimal
  import opened Patterns
  import opened SoupText

  /** `div.review_from` inside a review header: its full text, and the text
      of each `span.review_verified` inside it. */
  datatype FromLine = FromLine(text: string, verifiedTexts: seq<string>)

  /** `div.review_header`: the `src` attribute of each `<img>` in it, the
      text fragments of its first `span.review_subject`, and its first
      `div.review_from`. */
  datatype Header = Header(
    imageSources: seq<Option<string>>,
    subject: Option<seq<string>>,
    from: Option<FromLine>)

  /** A `div.product_review` inside `div#sorted-reviews`: its classes, its
      first `div.review_header` and the text fragments of its first
      `div.review_body`, and all of its text. */
  datatype ReviewBlock = ReviewBlock(
    classes: seq<string>,
    header: Option<Header>,
    body: Option<seq<string>>,
    allText: string)

  /** One review record.  Both helpful-vote fields are set, or neither. */
  datatype Review = Review(
    rating: Option<nat>,
    subject: Option<string>,
    text: Option<string>,
    date: Option<string>,
    verifiedBuyer: bool,
    helpfulCount: Option<nat>,
    helpfulTotal: Option<nat>)

  /** An entry of the list `extract_reviews` returns. */
  datatype ReviewEntry =
    | Individual(review: Review)
    | Summary(overallRating: real, totalReviews: nat)

  /** The page as far as reviews go.  `container` holds the review blocks of
      `div#sorted-reviews` in document order, when that div exists.
      `summaryLink` holds the text fragments of the `a[href="#reviews"]`
      inside `div#review_summary`, when both exist. */
  datatype ReviewsPage = ReviewsPage(
    container: Option<seq<ReviewBlock>>,
    summaryLink: Option<seq<string>>)

  // ---------------------------------------------------------------------
  // Which blocks are reviews

  /** A block that is a review in its own right: not itself a header, and
      holding a header or a body. */
  predicate IsParentReview(b: ReviewBlock) {
    "review_header" !in b.classes && (b.header.Some? || b.body.Some?)
  }

  // ---------------------------------------------------------------------
  // The fields of one review

  /** An image `src` that mentions `stars.gif`. */
  predicate StarSource(src: Option<string>) {
    src.Some? && Contains(src.value, "stars.gif")
  }

  /** The first image whose `src` mentions `stars.gif`. */
  function StarImage(srcs: seq<Option<string>>): (r: Option<string>)
    ensures r.Some? ==> Contains(r.value, "stars.gif")
    ensures r.Some? ==> exists k :: (0 <= k < |srcs| && srcs[k] == r
      && forall j :: 0 <= j < k ==> !StarSource(srcs[j]))
    ensures r.None? <==> forall k :: 0 <= k < |srcs| ==> !StarSource(srcs[k])
  {
    if |srcs| == 0 then None
    else if StarSource(srcs[0]) then srcs[0]
    else
      var r := StarImage(srcs[1..]);
      assert forall k :: 1 <= k < |srcs| ==> srcs[k] == srcs[1..][k - 1];
      assert r.Some? ==> exists k :: (0 <= k < |srcs[1..]| && srcs[1..][k] == r
        && forall j :: 0 <= j < k ==> !StarSource(srcs[1..][j]));
      r
  }

  /** The rating: the number before `stars.gif` in the first star image. */
  function RatingOf(h: Header): (r: Option<nat>)
    ensures forall k :: (0 <= k < |h.imageSources| && StarSource(h.imageSources[k])
      && (forall j :: 0 <= j < k ==> !StarSource(h.imageSources[j]))
      ==> r == StarRating(h.imageSources[k].value))
    ensures r.Some? ==> exists k :: 0 <= k < |h.imageSources| && StarSource(h.imageSources[k])
  {
    match StarImage(h.imageSources)
    case Some(src) => StarRating(src)
    case None => None
  }

  /** A header whose first star image is "<digits of n>stars.gif", after
      text without digits, has rating `n`. */
  lemma RatingOfImage(h: Header, k: nat, t: string, n: nat, u: string)
    requires k < |h.imageSources| && h.imageSources[k] == Some(t + NatDigits(n) + "stars.gif" + u)
    requires forall j :: 0 <= j < k ==> !StarSource(h.imageSources[j])
    requires forall i :: 0 <= i < |t| ==> !IsDigit(t[i])
    ensures RatingOf(h) == Some(n)
  {
    var src := t + NatDigits(n) + "stars.gif" + u;
    StarRatingOfImage(t, n, u);
    StarRatingNeedsImageName(src);
    StarImageAt(h.imageSources, k);
  }

  /** The first star image is at `k` when no earlier image is one. */
  lemma {:induction false} StarImageAt(srcs: seq<Option<string>>, k: nat)
    requires k < |srcs| && StarSource(srcs[k])
    requires forall j :: 0 <= j < k ==> !StarSource(srcs[j])
    ensures StarImage(srcs) == srcs[k]
    decreases k
  {
    if k > 0 {
      assert forall j :: 0 <= j < k - 1 ==> srcs[1..][j] == srcs[j + 1];
      StarImageAt(srcs[1..], k - 1);
    }
  }

  /** Whether some `span.review_verified` text says "Verified buyer". */
  function VerifiedIn(texts: seq<string>): (r: bool)
    ensures r <==> exists k :: 0 <= k < |texts| && Contains(texts[k], "Verified buyer")
  {
    if |texts| == 0 then false
    else
      assert forall k :: 1 <= k < |texts| ==> texts[k] == texts[1..][k - 1];
      Contains(texts[0], "Verified buyer") || VerifiedIn(texts[1..])
  }

  /** The review text: the body's text with whitespace collapsed. */
  function BodyText(frags: seq<string>): (r: string)
    ensures r == Join(" ", FragmentWords(frags))
    ensures Collapsed(r)
  {
    SpacedTextWords(frags);
    Collapse(StrippedText(" ", frags))
  }

  /** The record the loop builds for one parent review block. */
  function ReviewOf(b: ReviewBlock): (r: Review)
    ensures b.header.None? ==> r.subject.None? && r.date.None? && !r.verifiedBuyer && r.rating.None?
    ensures r.text.Some? <==> b.body.Some?
    ensures b.body.Some? ==> r.text == Some(Join(" ", FragmentWords(b.body.value)))
    ensures r.verifiedBuyer <==>
      && b.header.Some? && b.header.value.from.Some?
      && exists k :: 0 <= k < |b.header.value.from.value.verifiedTexts| &&
           Contains(b.header.value.from.value.verifiedTexts[k], "Verified buyer")
    ensures r.helpfulCount.Some? <==> r.helpfulTotal.Some?
  {
    var votes := HelpfulVotes(b.allText);
    var text := if b.body.Some? then Some(BodyText(b.body.value)) else None;
    var count := if votes.Some? then Some(votes.value.0) else None;
    var total := if votes.Some? then Some(votes.value.1) else None;
    match b.header
    case None => Review(None, None, text, None, false, count, total)
    case Some(h) =>
      var subject := if h.subject.Some? then Some(StrippedText("", h.subject.value)) else None;
      match h.from
      case None => Review(RatingOf(h), subject, text, None, false, count, total)
      case Some(f) =>
        Review(RatingOf(h), subject, text, ReviewDate(f.text), VerifiedIn(f.verifiedTexts), count, total)
  }

  /** Python truthiness of `rating or review_text`: a non-zero rating or a
      non-empty text. */
  predicate Worthwhile(r: Review) {
    (r.rating.Some? && r.rating.value != 0) || (r.text.Some? && r.text.value != "")
  }

  // ---------------------------------------------------------------------
  // The list of individual reviews: filter, build, filter

  /** The blocks the first loop keeps, in document order. */
  function Parents(blocks: seq<ReviewBlock>): (ps: seq<ReviewBlock>)
    ensures forall k :: 0 <= k < |ps| ==> IsParentReview(ps[k])
    ensures |ps| <= |blocks|
  {
    if |blocks| == 0 then []
    else
      var init := Parents(blocks[..|blocks| - 1]);
      var b := blocks[|blocks| - 1];
      if IsParentReview(b) then init + [b] else init
  }

  /** A record for every parent block. */
  function Records(ps: seq<ReviewBlock>): (rs: seq<Review>)
    ensures |rs| == |ps|
    ensures forall k :: 0 <= k < |ps| ==> rs[k] == ReviewOf(ps[k])
  {
    seq(|ps|, k requires 0 <= k < |ps| => ReviewOf(ps[k]))
  }

  /** The worthwhile records, in order. */
  function Kept(rs: seq<Review>): (ks: seq<Review>)
    ensures forall k :: 0 <= k < |ks| ==> Worthwhile(ks[k])
    ensures |ks| <= |rs|
  {
    if |rs| == 0 then []
    else
      var init := Kept(rs[..|rs| - 1]);
      var r := rs[|rs| - 1];
      if Worthwhile(r) then init + [r] else init
  }

  /** Reference definition: the worthwhile records of the parent blocks, in
      document order. */
  function IndividualReviews(blocks: seq<ReviewBlock>): seq<Review>
  {
    Kept(Records(Parents(blocks)))
  }

  lemma {:induction false} ParentsAppend(xs: seq<ReviewBlock>, ys: seq<ReviewBlock>)
    ensures Parents(xs + ys) == Parents(xs) + Parents(ys)
    decreases |ys|
  {
    if |ys| == 0 {
      assert xs + ys == xs;
    } else {
      var n := |ys| - 1;
      assert (xs + ys)[..|xs + ys| - 1] == xs + ys[..n];
      ParentsAppend(xs, ys[..n]);
    }
  }

  lemma {:induction false} KeptAppend(xs: seq<Review>, ys: seq<Review>)
    ensures Kept(xs + ys) == Kept(xs) + Kept(ys)
    decreases |ys|
  {
    if |ys| == 0 {
      assert xs + ys == xs;
    } else {
      var n := |ys| - 1;
      assert (xs + ys)[..|xs + ys| - 1] == xs + ys[..n];
      KeptAppend(xs, ys[..n]);
    }
  }

  lemma RecordsAppend(xs: seq<ReviewBlock>, ys: seq<ReviewBlock>)
    ensures Records(xs + ys) == Records(xs) + Records(ys)
  {
    MappedAppend(Records(xs + ys), Records(xs), Records(ys), xs, ys, ReviewOf);
  }

  /** A sequence mapped element by element from `xs + ys` is the mapped `xs`
      followed by the mapped `ys`. */
  lemma MappedAppend<A, B>(l: seq<B>, l1: seq<B>, l2: seq<B>, xs: seq<A>, ys: seq<A>, f: A -> B)
    requires |l| == |xs| + |ys| && |l1| == |xs| && |l2| == |ys|
    requires forall k :: 0 <= k < |l| ==> l[k] == f((xs + ys)[k])
    requires forall k :: 0 <= k < |xs| ==> l1[k] == f(xs[k])
    requires forall k :: 0 <= k < |ys| ==> l2[k] == f(ys[k])
    ensures l == l1 + l2
  {
    forall k | 0 <= k < |l|
      ensures l[k] == (l1 + l2)[k]
    {
      if k < |xs| {
        assert (xs + ys)[k] == xs[k];
      } else {
        assert (xs + ys)[k] == ys[k - |xs|];
      }
    }
  }

  /** The reviews of two runs of blocks are the reviews of each, in order. */
  lemma IndividualReviewsAppend(xs: seq<ReviewBlock>, ys: seq<ReviewBlock>)
    ensures IndividualReviews(xs + ys) == IndividualReviews(xs) + IndividualReviews(ys)
  {
    ParentsAppend(xs, ys);
    var px, py := Parents(xs), Parents(ys);
    RecordsAppend(px, py);
    KeptAppend(Records(px), Records(py));
  }

  /** The worthwhile records keep only records they were given. */
  lemma {:induction false} KeptFrom(rs: seq<Review>)
    ensures forall r :: r in Kept(rs) ==> r in rs
    decreases |rs|
  {
    if |rs| > 0 {
      KeptFrom(rs[..|rs| - 1]);
    }
  }

  /** The first loop keeps only blocks it was given. */
  lemma {:induction false} ParentsFrom(blocks: seq<ReviewBlock>)
    ensures forall b :: b in Parents(blocks) ==> b in blocks
    decreases |blocks|
  {
    if |blocks| > 0 {
      ParentsFrom(blocks[..|blocks| - 1]);
    }
  }

  /** Every review kept carries a rating other than zero or a non-empty
      text, and is the record of a parent block of the page. */
  lemma IndividualReviewsKept(blocks: seq<ReviewBlock>)
    ensures forall r :: r in IndividualReviews(blocks) ==> Worthwhile(r)
    ensures forall r :: r in IndividualReviews(blocks) ==>
      exists k :: 0 <= k < |blocks| && IsParentReview(blocks[k]) && ReviewOf(blocks[k]) == r
    ensures |IndividualReviews(blocks)| <= |blocks|
  {
    var ps := Parents(blocks);
    var rs := Records(ps);
    KeptFrom(rs);
    ParentsFrom(blocks);
    forall r | r in Kept(rs)
      ensures exists k :: 0 <= k < |blocks| && IsParentReview(blocks[k]) && ReviewOf(blocks[k]) == r
    {
      assert r in rs;
      var j :| 0 <= j < |rs| && rs[j] == r;
      assert ps[j] in ps;
      var k :| 0 <= k < |blocks| && blocks[k] == ps[j];
      assert ReviewOf(blocks[k]) == r;
    }
  }

  /** A single block gives a review exactly when it is a parent review whose
      record is worthwhile; a header block, or a block with neither header
      nor body, gives none. */
  lemma SingleBlock(b: ReviewBlock)
    ensures IndividualReviews([b]) == if IsParentReview(b) && Worthwhile(ReviewOf(b)) then [ReviewOf(b)] else []
    ensures "review_header" in b.classes ==> IndividualReviews([b]) == []
    ensures b.header.None? && b.body.None? ==> IndividualReviews([b]) == []
  {
    assert [b][..0] == [];
    if IsParentReview(b) {
      assert Parents([b]) == [b];
      assert Records([b]) == [ReviewOf(b)];
      assert [ReviewOf(b)][..0] == [];
    } else {
      assert Parents([b]) == [];
      assert Records([]) == [];
    }
  }

  /** The first loop of `extract_reviews`: keep the parent review blocks,
      `continue` past header blocks. */
  method ParentBlocks(blocks: seq<ReviewBlock>) returns (parents: seq<ReviewBlock>)
    ensures parents == Parents(blocks)
  {
    parents := [];
    var i := 0;
    while i < |blocks|
      invariant 0 <= i <= |blocks|
      invariant parents == Parents(blocks[..i])
    {
      var b := blocks[i];
      assert blocks[..i + 1][..i] == blocks[..i];
      if "review_header" in b.classes {
        i := i + 1;
        continue;
      }
      if b.header.Some? || b.body.Some? {
        parents := parents + [b];
      }
      i := i + 1;
    }
    assert blocks[..i] == blocks;
  }

  /** The second loop: build each parent's record and append the
      worthwhile ones. */
  method ReviewsOfParents(parents: seq<ReviewBlock>) returns (reviews: seq<Review>)
    ensures reviews == Kept(Records(parents))
  {
    reviews := [];
    var j := 0;
    while j < |parents|
      invariant 0 <= j <= |parents|
      invariant reviews == Kept(Records(parents[..j]))
    {
      var b := parents[j];
      var r := ReviewOf(b);
      KeptStep(parents, j);
      if (r.rating.Some? && r.rating.value != 0) || (r.text.Some? && r.text.value != "") {
        reviews := reviews + [r];
      }
      j := j + 1;
    }
    assert parents[..j] == parents;
  }

  /** One more parent adds its record when it is worthwhile. */
  lemma KeptStep(ps: seq<ReviewBlock>, j: nat)
    requires j < |ps|
    ensures Kept(Records(ps[..j + 1])) ==
      Kept(Records(ps[..j])) + (if Worthwhile(ReviewOf(ps[j])) then [ReviewOf(ps[j])] else [])
  {
    RecordsSnoc(ps, j);
    KeptSnoc(Records(ps[..j]), ReviewOf(ps[j]));
  }

  lemma RecordsSnoc(ps: seq<ReviewBlock>, j: nat)
    requires j < |ps|
    ensures Records(ps[..j + 1]) == Records(ps[..j]) + [ReviewOf(ps[j])]
  {
  }

  lemma KeptSnoc(rs: seq<Review>, r: Review)
    ensures Kept(rs + [r]) == Kept(rs) + (if Worthwhile(r) then [r] else [])
  {
    assert (rs + [r])[..|rs|] == rs;
  }

  /** The two loops together compute the individual reviews. */
  method CollectReviews(blocks: seq<ReviewBlock>) returns (reviews: seq<Review>)
    ensures reviews == IndividualReviews(blocks)
  {
    var parents := ParentBlocks(blocks);
    reviews := ReviewsOfParents(parents);
  }

  // ---------------------------------------------------------------------
  // The summary entry

  /** The summary entry from the summary link's text, when the pattern
      matches and its rating group is a number `float` accepts; a rating
      group such as `1.2.3` makes `float` raise. */
  function SummaryOf(linkFragments: seq<string>): (r: Option<ReviewEntry>)
    ensures r.Some? ==> r.value.Summary? && r.value.overallRating >= 0.0
    ensures r.Some? <==>
      var g := SummaryGroups(StrippedText("", linkFragments));
      g.Some? && IsUnsignedDecimal(g.value.0)
  {
    match SummaryGroups(StrippedText("", linkFragments))
    case None => None
    case Some((rating, count)) =>
      SummaryRatingParses(rating);
      match ParseFloat(rating)
      case None => None
      case Some(v) => Some(Summary(v, DigitsValue(count)))
  }

  /** `float` of the rating group succeeds exactly on a well-formed decimal,
      and never gives a negative rating. */
  lemma SummaryRatingParses(rating: string)
    requires forall k :: 0 <= k < |rating| ==> IsDigitOrDot(rating[k])
    ensures ParseFloat(rating).Some? <==> IsUnsignedDecimal(rating)
    ensures ParseFloat(rating).Some? ==> ParseFloat(rating).value >= 0.0
  {
    assert forall k :: 0 <= k < |rating| ==> rating[k] != '-';
  }

  // ---------------------------------------------------------------------
  // extract_reviews

  /** The summary entry the page yields: only looked for once the reviews
      container exists. */
  function SummaryEntryOf(page: ReviewsPage): Option<ReviewEntry> {
    if page.container.Some? && page.summaryLink.Some? then SummaryOf(page.summaryLink.value) else None
  }

  function IndividualEntries(rs: seq<Review>): (es: seq<ReviewEntry>)
    ensures |es| == |rs|
    ensures forall k :: 0 <= k < |rs| ==> es[k] == Individual(rs[k])
  {
    seq(|rs|, k requires 0 <= k < |rs| => Individual(rs[k]))
  }

  /** `reviews.insert(0, summary)` when there is a summary: the summary first
      and nowhere else, then every individual review in order. */
  function Assemble(summary: Option<ReviewEntry>, rs: seq<Review>): (r: seq<ReviewEntry>)
    requires summary.Some? ==> summary.value.Summary?
    ensures var off := if summary.Some? then 1 else 0;
      && |r| == |rs| + off
      && (forall k :: off <= k < |r| ==> r[k] == Individual(rs[k - off]))
    ensures summary.Some? ==> r[0] == summary.value
    ensures forall k :: 0 <= k < |r| && r[k].Summary? ==> k == 0 && summary.Some?
  {
    var es := IndividualEntries(rs);
    if summary.Some? then [summary.value] + es else es
  }

  /** `extract_reviews(soup)`.  Without the reviews container the list is
      empty and the summary is not looked at.  A summary whose rating `float`
      refuses raises inside the `try`, which returns the reviews collected
      so far: exactly the individual reviews. */
  function ExtractReviews(page: ReviewsPage): (r: seq<ReviewEntry>)
    ensures page.container.None? ==> r == []
    ensures page.container.Some? ==>
      |r| == |IndividualReviews(page.container.value)| + (if SummaryEntryOf(page).Some? then 1 else 0)
    ensures forall k :: 0 <= k < |r| && r[k].Summary? ==> k == 0 && SummaryEntryOf(page).Some?
  {
    if page.container.None? then []
    else Assemble(SummaryEntryOf(page), IndividualReviews(page.container.value))
  }

  /** The list holds the summary first exactly when the summary link parses,
      then the individual reviews in order. */
  lemma ExtractReviewsShape(page: ReviewsPage)
    requires page.container.Some?
    ensures var r := ExtractReviews(page);
      var rs := IndividualReviews(page.container.value);
      var off := if SummaryEntryOf(page).Some? then 1 else 0;
      && (SummaryEntryOf(page).Some? <==> (|r| > 0 && r[0].Summary?))
      && (forall k :: off <= k < |r| ==> r[k] == Individual(rs[k - off]))
  {
  }

  /** The summary entry, when present, holds the rating and the count the
      summary link states. */
  lemma SummaryEntry(page: ReviewsPage)
    requires page.container.Some? && page.summaryLink.Some?
    requires SummaryOf(page.summaryLink.value).Some?
    ensures var g := SummaryGroups(StrippedText("", page.summaryLink.value)).value;
      && ExtractReviews(page)[0] == Summary(ParseFloat(g.0).value, DigitsValue(g.1))
  {
  }
}
