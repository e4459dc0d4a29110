/** `extract_product_info(soup, url)`: one product record from a product
    page, assembled from the name, author, price, image, description, tag
    and review steps.  The page is given as the results of the queries the
    function makes; the clock reading for the two timestamps is a
    parameter. */
module Extractor {
  import opened Wrappers
  import opened PyText
  import opened ProductName
  import opened PriceChain
  import opened ProductDescription
  import opened ProductTags
  import opened Reviews

  /** What `extract_product_info` reads from the page.
      - `heading`: the text of the `<h1>` in the first `div.product-main`,
        when both exist;
      - `ogTitle`: `get('content', '')` of `meta[property=og:title]`, when the
        tag exists;
      - `title`: the text of `<title>`, when it exists;
      - `prices`: what the price steps read;
      - `ogImage`: `meta[property=og:image]` when present, with its
        `content` when it has one;
      - `description`: what the description step reads;
      - `following`: the divs after `div.product_addtocart`, when that div
        exists;
      - `reviews`: what `extract_reviews` reads. */
  datatype ProductPage = ProductPage(
    heading: Option<string>,
    ogTitle: Option<string>,
    title: Option<string>,
    prices: PriceSources,
    ogImage: Option<Option<string>>,
    description: DescriptionSources,
    following: Option<seq<FollowingDiv>>,
    reviews: ReviewsPage)

  /** The dictionary the function returns. */
  datatype ProductRecord = ProductRecord(
    name: string,
    author: Option<string>,
    price: real,
    discountedPrice: Option<real>,
    url: string,
    imageUrl: Option<string>,
    description: Option<string>,
    tags: seq<string>,
    reviews: seq<ReviewEntry>,
    createdAt: string,
    updatedAt: string)

  /** `meta.get('content')` for the og:image tag, or None without the tag. */
  function ImageUrl(ogImage: Option<Option<string>>): (r: Option<string>)
    ensures r.Some? <==> ogImage.Some? && ogImage.value.Some?
  {
    if ogImage.Some? then ogImage.value else None
  }

  /** The record built from a page, with the description read tolerantly. */
  function ExtractProductInfo(page: ProductPage, url: string, now: string): (r: ProductRecord)
    ensures r.name != "" && IsStripped(r.name)
    ensures r.author.Some? ==> Contains(r.name, "by") && IsStripped(r.author.value) && '(' !in r.author.value
    ensures !Missing(r.discountedPrice) ==> r.price != 0.0
    ensures NoDuplicates(r.tags)
    ensures page.following.None? ==> r.tags == []
    ensures page.reviews.container.None? ==> r.reviews == []
    ensures r.url == url && r.createdAt == now && r.updatedAt == now
  {
    var name := NameOf(page.heading, page.ogTitle, page.title);
    var prices := ResolvePrices(page.prices);
    var tags := Tags(page.following);
    TagsDistinct(page.following);
    AuthorNeedsBy(name);
    ProductRecord(
      name, AuthorFromName(name), prices.price, prices.discounted, url,
      ImageUrl(page.ogImage), Description(page.description), tags,
      ExtractReviews(page.reviews), now, now)
  }

  /** The tags never repeat. */
  lemma TagsDistinct(following: Option<seq<FollowingDiv>>)
    ensures NoDuplicates(Tags(following))
  {
    if following.Some? {
      var divs := following.value;
      if Container(divs).Some? {
        DedupElements(LinkTags(divs[Container(divs).value].links));
      }
    }
  }

  /** The function as written: the `AttributeError` a content-less
      `og:description` tag raises is caught by the function's own `except`,
      which returns None for the whole product. */
  function ExtractProductInfoAsWritten(page: ProductPage, url: string, now: string): (r: Option<ProductRecord>)
    ensures r.None? <==> page.description.ogMeta == Some(None)
  {
    match DescriptionAsWritten(page.description)
    case Err(_) => None
    case Ok(d) => Some(ExtractProductInfo(page, url, now).(description := d))
  }

  /** On every page whose og:description tag, if any, has content, the
      function as written returns the record the tolerant reading builds. */
  lemma AsWrittenMatchesTolerant(page: ProductPage, url: string, now: string)
    requires page.description.ogMeta != Some(None)
    ensures ExtractProductInfoAsWritten(page, url, now) == Some(ExtractProductInfo(page, url, now))
  {
    AsWrittenAgrees(page.description);
  }

  /** The extractor's record for a page named by its heading, with a
      description paragraph and a content-less og:description tag: lost
      as written, complete in the tolerant reading. */
  lemma ContentlessMetaLosesProduct(page: ProductPage, url: string, now: string)
    requires page.description == DescriptionSources(Some(["Wow"]), Some(None))
    ensures ExtractProductInfoAsWritten(page, url, now).None?
    ensures ExtractProductInfo(page, url, now).description == Some("Wow")
  {
    ContentlessMetaCrashes();
  }
}
