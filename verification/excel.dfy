/** The spreadsheet export of scraped products: each product record becomes
    one row of nine columns, its tag list is joined into one text, its
    review list is kept only when non-empty, and the text columns are
    cleaned of line breaks, tabs, characters outside the Basic Multilingual
    Plane and repeated whitespace. */
module ExcelExport {
  import opened Wrappers
  import opened PyText
  import opened SqlText
  import opened Reviews
  import opened Extractor

  // ---------------------------------------------------------------------
  // clean_text

  /** A character a spreadsheet cell keeps: `ord(c) < 65536`. */
  predicate InPlane(c: char) {
    c as int < 65536
  }

  predicate AllInPlane(s: string) {
    forall k :: 0 <= k < |s| ==> InPlane(s[k])
  }

  /** `s.replace(a, b)` for single characters. */
  function ReplaceChar(s: string, a: char, b: char): (r: string)
    ensures |r| == |s| && forall k :: 0 <= k < |s| ==> r[k] == (if s[k] == a then b else s[k])
  {
    seq(|s|, k requires 0 <= k < |s| => if s[k] == a then b else s[k])
  }

  /** The three replacements of line feed, carriage return and tab by a
      space, in the order they are made. */
  function Flattened(s: string): string {
    ReplaceChar(ReplaceChar(ReplaceChar(s, '\n', ' '), '\r', ' '), '\t', ' ')
  }

  /** `''.join(c for c in s if ord(c) < 65536)`. */
  function PlaneOnly(s: string): (r: string)
    ensures AllInPlane(r) && |r| <= |s|
    decreases |s|
  {
    if s == [] then []
    else
      var rest := PlaneOnly(s[1..]);
      if InPlane(s[0]) then [s[0]] + rest else rest
  }

  /** `clean_text(text)`.  None stands for a missing cell (`pd.isna`), which
      comes back unchanged. */
  function CleanText(text: Option<string>): (r: Option<string>)
    ensures r.None? <==> text.None?
    ensures r.Some? ==> Collapsed(r.value) && AllInPlane(r.value)
    ensures r.Some? ==> '\n' !in r.value && '\r' !in r.value && '\t' !in r.value
  {
    match text
    case None => None
    case Some(s) =>
      var t := PlaneOnly(Flattened(s));
      CollapseInPlane(t);
      var r := Collapse(t);
      assert '\n' !in r && '\r' !in r && '\t' !in r by {
        NoLineBreaks(r);
      }
      Some(r)
  }

  /** A collapsed text holds no line break or tab: its only whitespace is
      ' '. */
  lemma NoLineBreaks(s: string)
    requires Collapsed(s)
    ensures '\n' !in s && '\r' !in s && '\t' !in s
  {
    forall k | 0 <= k < |s|
      ensures s[k] != '\n' && s[k] != '\r' && s[k] != '\t'
    {
      if IsSpace(s[k]) {
        assert s[k] == ' ';
      }
    }
  }

  // What `PlaneOnly` keeps.

  /** It keeps exactly the characters of the plane, in order: a character
      is in the result when it is in the text and in the plane. */
  lemma {:induction false} PlaneOnlyKeeps(s: string, c: char)
    ensures c in PlaneOnly(s) <==> c in s && InPlane(c)
    decreases |s|
  {
    if s != [] {
      PlaneOnlyKeeps(s[1..], c);
      assert s == [s[0]] + s[1..];
    }
  }

  /** On text inside the plane it changes nothing. */
  lemma {:induction false} PlaneOnlyIdentity(s: string)
    requires AllInPlane(s)
    ensures PlaneOnly(s) == s
    decreases |s|
  {
    if s != [] {
      PlaneOnlyIdentity(s[1..]);
      assert s == [s[0]] + s[1..];
    }
  }

  // Words inside the plane stay inside it.

  lemma {:induction false} SplitInPlane(s: string)
    requires AllInPlane(s)
    ensures forall k :: 0 <= k < |Split(s)| ==> AllInPlane(Split(s)[k])
    decreases |s|
  {
    var a := SpanEnd(s, 0, true);
    if a < |s| {
      var e := SpanEnd(s, a, false);
      SplitInPlane(s[e..]);
    }
  }

  lemma {:induction false} JoinInPlane(sep: string, ws: seq<string>)
    requires AllInPlane(sep) && forall k :: 0 <= k < |ws| ==> AllInPlane(ws[k])
    ensures AllInPlane(Join(sep, ws))
    decreases |ws|
  {
    if |ws| > 1 {
      JoinInPlane(sep, ws[1..]);
    }
  }

  lemma CollapseInPlane(s: string)
    requires AllInPlane(s)
    ensures AllInPlane(Collapse(s))
  {
    SplitInPlane(s);
    JoinInPlane(" ", Split(s));
  }

  // The replacements do not change the words.

  /** Two texts with whitespace at the same places and the same characters
      everywhere else. */
  predicate SameShape(x: string, y: string) {
    |x| == |y| &&
    forall k :: 0 <= k < |x| ==> IsSpace(x[k]) == IsSpace(y[k]) && (!IsSpace(x[k]) ==> x[k] == y[k])
  }

  lemma {:induction false} SpanEndSameShape(x: string, y: string, i: nat, ws: bool)
    requires SameShape(x, y) && i <= |x|
    ensures SpanEnd(x, i, ws) == SpanEnd(y, i, ws)
    decreases |x| - i
  {
    if i < |x| && IsSpace(x[i]) == ws {
      SpanEndSameShape(x, y, i + 1, ws);
    }
  }

  /** `split()` sees only where the whitespace is. */
  lemma {:induction false} SplitSameShape(x: string, y: string)
    requires SameShape(x, y)
    ensures Split(x) == Split(y)
    decreases |x|
  {
    var a := SpanEnd(x, 0, true);
    SpanEndSameShape(x, y, 0, true);
    if a < |x| {
      var e := SpanEnd(x, a, false);
      SpanEndSameShape(x, y, a, false);
      assert x[a..e] == y[a..e];
      SplitSameShape(x[e..], y[e..]);
    }
  }

  /** Dropping the characters outside the plane keeps two texts of the same
      shape of the same shape: whitespace is always inside the plane. */
  lemma {:induction false} PlaneOnlySameShape(x: string, y: string)
    requires SameShape(x, y)
    ensures SameShape(PlaneOnly(x), PlaneOnly(y))
    decreases |x|
  {
    if x != [] {
      assert SameShape(x[1..], y[1..]);
      PlaneOnlySameShape(x[1..], y[1..]);
      assert InPlane(x[0]) == InPlane(y[0]);
      var rx := PlaneOnly(x[1..]);
      var ry := PlaneOnly(y[1..]);
      if InPlane(x[0]) {
        assert PlaneOnly(x) == [x[0]] + rx;
        assert PlaneOnly(y) == [y[0]] + ry;
        forall k | 0 <= k < |[x[0]] + rx|
          ensures IsSpace(([x[0]] + rx)[k]) == IsSpace(([y[0]] + ry)[k])
          ensures !IsSpace(([x[0]] + rx)[k]) ==> ([x[0]] + rx)[k] == ([y[0]] + ry)[k]
        {
          if k > 0 {
            assert ([x[0]] + rx)[k] == rx[k - 1];
            assert ([y[0]] + ry)[k] == ry[k - 1];
          }
        }
      }
    }
  }

  /** The replacements are redundant: `split()` already treats line feed,
      carriage return and tab as separators, so the cleaned text is the
      collapsed text of the in-plane characters. */
  lemma CleanTextReference(s: string)
    ensures CleanText(Some(s)) == Some(Collapse(PlaneOnly(s)))
  {
    assert SameShape(Flattened(s), s);
    PlaneOnlySameShape(Flattened(s), s);
    SplitSameShape(PlaneOnly(Flattened(s)), PlaneOnly(s));
  }

  /** Cleaning keeps the words of the in-plane text, in order. */
  lemma CleanTextWords(s: string)
    ensures Split(CleanText(Some(s)).value) == Split(PlaneOnly(s))
  {
    CleanTextReference(s);
    CollapseKeepsWords(PlaneOnly(s));
  }

  /** A text comes back unchanged exactly when it is already clean. */
  lemma CleanTextFixed(s: string)
    ensures CleanText(Some(s)) == Some(s) <==> Collapsed(s) && AllInPlane(s)
  {
    if Collapsed(s) && AllInPlane(s) {
      NoLineBreaks(s);
      assert Flattened(s) == s;
      PlaneOnlyIdentity(s);
      CollapsedIsFixed(s);
    }
  }

  /** Cleaning twice is cleaning once. */
  lemma CleanTextIdempotent(text: Option<string>)
    ensures CleanText(CleanText(text)) == CleanText(text)
  {
    if text.Some? {
      CleanTextFixed(CleanText(text).value);
    }
  }

  // ---------------------------------------------------------------------
  // Tags and reviews

  /** A tags cell before it is turned into text: a list, a plain text, or
      None. */
  datatype TagsCell = TagList(items: seq<string>) | TagText(text: string) | NoTags

  /** `', '.join(x) if isinstance(x, list) else (x if x else None)`. */
  function TagsText(v: TagsCell): (r: Option<string>)
    ensures v.TagList? ==> r.Some?
    ensures v == TagList([]) ==> r == Some("")
    ensures !v.TagList? ==> (r.None? <==> v.NoTags? || v.text == "")
  {
    match v
    case TagList(xs) => Some(Join(", ", xs))
    case TagText(t) => if t != "" then Some(t) else None
    case NoTags => None
  }

  /** The joined tags split back into the tags on ", ", when no tag holds a
      ','. */
  lemma TagsRoundTrip(xs: seq<string>)
    requires xs != []
    requires forall k :: 0 <= k < |xs| ==> ',' !in xs[k]
    ensures SplitOn(TagsText(TagList(xs)).value, ", ") == xs
  {
    forall k | 0 <= k < |xs|
      ensures EndsBefore(xs[k], ", ")
    {
      EndsBeforeByHead(xs[k], ", ");
    }
    SplitOnJoin(xs, ", ");
  }

  /** Clean tags joined by ", " make a clean text. */
  lemma {:induction false} JoinCleanTags(xs: seq<string>)
    requires forall k :: 0 <= k < |xs| ==> xs[k] != "" && Collapsed(xs[k]) && AllInPlane(xs[k])
    ensures Collapsed(Join(", ", xs)) && AllInPlane(Join(", ", xs))
    ensures |xs| > 0 ==> |Join(", ", xs)| > 0 && !IsSpace(Join(", ", xs)[0])
    decreases |xs|
  {
    JoinInPlane(", ", xs);
    if |xs| == 1 {
      assert !IsSpace(xs[0][0]);
    } else if |xs| > 1 {
      JoinCleanTags(xs[1..]);
      var a := xs[0];
      var b := Join(", ", xs[1..]);
      var s := a + ", " + b;
      assert !IsSpace(a[0]);
      assert !IsSpace(a[|a| - 1]);
      assert s[|a|] == ',' && s[|a| + 1] == ' ';
      forall k | 0 <= k < |s| && IsSpace(s[k])
        ensures s[k] == ' ' && 0 < k < |s| - 1 && !IsSpace(s[k + 1])
      {
        if k < |a| {
          assert s[k] == a[k];
          if k + 1 < |a| {
            assert s[k + 1] == a[k + 1];
          }
        } else if k == |a| + 1 {
          assert s[k + 1] == b[0];
        } else if k > |a| + 1 {
          assert s[k] == b[k - |a| - 2];
          assert s[k + 1] == b[k + 1 - |a| - 2];
        }
      }
      assert s[0] == a[0];
    }
  }

  /** The reviews cell: the review list when it is non-empty, else None.
      The list stands for its JSON text. */
  function ReviewsCell(reviews: seq<ReviewEntry>): (r: Option<seq<ReviewEntry>>)
    ensures r.None? <==> reviews == []
    ensures r.Some? ==> r.value == reviews
  {
    if reviews != [] then Some(reviews) else None
  }

  // ---------------------------------------------------------------------
  // Rows

  /** The nine columns of the sheet, in order; the record's two timestamps
      are dropped. */
  const Columns: seq<string> :=
    ["name", "author", "price", "discounted_price", "url", "image_url", "description", "tags", "reviews"]

  /** One row of the sheet, field by field in the order of `Columns`. */
  datatype Row = Row(
    name: Option<string>,
    author: Option<string>,
    price: real,
    discountedPrice: Option<real>,
    url: string,
    imageUrl: Option<string>,
    description: Option<string>,
    tags: Option<string>,
    reviews: Option<seq<ReviewEntry>>)

  /** A text cell the cleaning has passed over. */
  predicate CleanCell(c: Option<string>) {
    c.None? || (Collapsed(c.value) && AllInPlane(c.value))
  }

  /** The row a product record becomes: the tags joined, the reviews kept
      when present, and the name, author, description and tags cleaned. */
  function ExportRow(p: ProductRecord): (row: Row)
    ensures CleanCell(row.name) && CleanCell(row.author) && CleanCell(row.description) && CleanCell(row.tags)
    ensures row.name.Some? && row.tags.Some?
    ensures row.author.Some? <==> p.author.Some?
    ensures row.description.Some? <==> p.description.Some?
    ensures row.price == p.price && row.discountedPrice == p.discountedPrice
    ensures row.url == p.url && row.imageUrl == p.imageUrl
    ensures row.reviews.None? <==> p.reviews == []
  {
    Row(
      CleanText(Some(p.name)),
      CleanText(p.author),
      p.price,
      p.discountedPrice,
      p.url,
      p.imageUrl,
      CleanText(p.description),
      CleanText(TagsText(TagList(p.tags))),
      ReviewsCell(p.reviews))
  }

  /** The name cell has the words of the record's name, and the tags cell
      the words of its joined tags, less characters outside the plane. */
  lemma ExportRowWords(p: ProductRecord)
    ensures Split(ExportRow(p).name.value) == Split(PlaneOnly(p.name))
    ensures Split(ExportRow(p).tags.value) == Split(PlaneOnly(Join(", ", p.tags)))
  {
    CleanTextWords(p.name);
    CleanTextWords(Join(", ", p.tags));
  }

  /** Tags that are already clean and hold no ',' come back from the tags
      cell by splitting it on ", ". */
  lemma ExportedTagsRoundTrip(p: ProductRecord)
    requires p.tags != []
    requires forall k :: 0 <= k < |p.tags| ==>
      p.tags[k] != "" && Collapsed(p.tags[k]) && AllInPlane(p.tags[k]) && ',' !in p.tags[k]
    ensures SplitOn(ExportRow(p).tags.value, ", ") == p.tags
  {
    JoinCleanTags(p.tags);
    CleanTextFixed(Join(", ", p.tags));
    TagsRoundTrip(p.tags);
  }
}
