# Penguin Magic product scraper, database layer and Excel export, in Dafny

This project models the core of a scraper for product pages of the Penguin
Magic shop, and proves properties of that model:

- `extract_product_info(soup, url)` builds one product record from a page.
  It resolves the name by a fallback chain, takes the author from the name,
  and runs a six-stage price chain: price table, JSON-LD offers, promotion,
  meta tag, CSS selectors, dollar amounts in the page text. It also reads the
  image URL, the description (paragraph, then `og:description`), the tags
  (the first floated container after the add-to-cart div, de-duplicated in
  order) and the reviews.
- `extract_reviews(soup)` collects the individual reviews. Each one has a
  star rating, subject, date, verified-buyer flag, body text and helpful
  votes, and reviews with neither a rating nor a text are dropped. When the
  summary link matches, a summary entry with the overall rating and review
  count goes first.
- `DatabaseManager.validate_product_data`, `add_product`, `update_product`
  and `search_products` check a product dictionary and build the SQL
  statements and parameter lists handed to the psycopg2 driver.
- The Excel export shapes each record into a row: the nine columns, tags
  joined with `", "`, an empty review list as an empty cell, and
  `clean_text` applied to the text columns.

The page is given to the model as the results of the BeautifulSoup queries
the code makes (`ProductPage`, `PriceSources`, `ReviewsPage`, …). The loops,
filters and string processing the Python writes itself are modelled in
full: regular expressions as hand-written matchers, `str.split`/`strip`/
`join` over the full Unicode whitespace set, `float()` on decimal text, and
`urlparse` as far as the scheme and network location go. Prices are exact
reals. The clock reading for `created_at`/`updated_at` is a parameter.

Modules, one file each: `PyText` (Python string functions), `Decimal`
(digits and `float`), `Patterns` (the regular expressions), `SoupText`
(`get_text`), `ProductName`, `PriceChain`, `ProductDescription`,
`ProductTags`, `Reviews`, `Extractor`, `SqlText` (reading SQL text back),
`ProductStore` (the database manager) and `ExcelExport`; `Wrappers` holds
`Option` and `Result`.

Two copies of the extractor exist, and they differ in one place. In
tests/test_current_scraper_simple.py the JSON-LD loop stops at the first
block whose `offers` is an object. In tests/test_scraper_parsing.py it stops
at the first block that has an `offers` key of any type. The model follows
the first copy and models the second as `PriceChain.LdBlocksAnyOffers`.
`PriceChain.CopiesAgree` proves the copies agree unless some block's
`offers` is not an object, and `PriceChain.CopiesDiverge` exhibits a page
where they differ.

A few behaviours of the code are worth stating plainly:

- No warning is recorded when the price falls back to 0.0.
- A page from which no name can be read gets the placeholder name; it is
  not treated as a failure.
- The discounted price is never compared with the list price, so the two
  can be equal.
- The price meta tag's content goes to `float` unchanged, so a value such
  as `$9.95` is refused and the chain moves on to later stages
  (`PriceChain.MetaPrice`).
- An `og:description` tag without content makes the whole record be lost
  (see Findings).

## Model

| member | source | states |
|---|---|---|
| Extractor.ExtractProductInfo | tests/test_current_scraper_simple.py:168-414 | the record's name is never empty and is stripped; an author is only found in a name containing "by", stripped and without "("; a discounted price only comes with a non-zero price; tags never repeat and are empty without the add-to-cart div; reviews are empty without the reviews container; url and both timestamps are passed through |
| Extractor.ImageUrl | tests/test_current_scraper_simple.py:329-332 | the image URL is present exactly when the og:image tag exists and has a content attribute |
| Extractor.TagsDistinct | tests/test_current_scraper_simple.py:394-395 | the tag list after `dict.fromkeys` has no duplicates |
| Extractor.ExtractProductInfoAsWritten | tests/test_current_scraper_simple.py:334-418 | the function as written returns None exactly when the og:description tag exists without content |
| Extractor.AsWrittenMatchesTolerant | tests/test_current_scraper_simple.py:334-358 | whenever the og:description tag, if any, has content, the function as written returns the same record as the tolerant reading |
| Extractor.ContentlessMetaLosesProduct | tests/test_current_scraper_simple.py:336-338 | a page with description paragraph "Wow" and a content-less og:description tag loses its record as written, and keeps description "Wow" in the tolerant reading |
| ProductName.NameOf | tests/test_current_scraper_simple.py:171-196 | the name is the first non-empty candidate among the stripped heading, og:title and title (suffix removed), otherwise the placeholder; it is always non-empty and stripped |
| ProductName.TitleCandidate | tests/test_current_scraper_simple.py:185-186 | a title candidate is stripped |
| ProductName.SuffixRemoved | tests/test_current_scraper_simple.py:185-186 | a stripped title `x + " - Penguin Magic Shop"`, with x not containing the suffix, yields x |
| ProductName.OgTitleNamesPage | tests/test_current_scraper_simple.py:181-186 | without a heading, a page whose og:title is `x + " - Penguin Magic Shop"` is named x whatever its title says |
| ProductName.AuthorFromName | tests/test_current_scraper_simple.py:198-202 | an author is found exactly when the name has a byline ("by", a whitespace character, and at least one more character before the next "(" or the end); at the first byline the author is the stripped text between "by" and that "(" or the end; it never contains "(" and is stripped |
| ProductName.AuthorNeedsBy | tests/test_current_scraper_simple.py:198-202 | a name without "by" has no author |
| ProductName.BylineAuthor | tests/test_current_scraper_simple.py:200-202 | the leftmost author match is found exactly when there is a byline, and at the first byline it is the stripped text up to the next "(" or the end |
| ProductName.AuthorOfByline | tests/test_current_scraper_simple.py:200-202 | the name `t + " by " + a + rest`, with no "by" in t, a stripped and free of "(", and rest empty or starting " (", has author a |
| ProductName.BylineMatches | tests/test_current_scraper_simple.py:200 | the author pattern matches at i exactly at a byline |
| ProductName.AuthorAtByline | tests/test_current_scraper_simple.py:200 | the author pattern matching at the "by" of `by a rest` captures exactly a |
| ProductName.NoByBefore | tests/test_current_scraper_simple.py:200 | the author pattern cannot match before the first "by" |
| Patterns.Search | tests/test_current_scraper_simple.py:200 | `re.search` finds a match exactly when the pattern matches at some position, and what it returns is the pattern's match at one of them |
| Patterns.FirstMatchAt | tests/test_current_scraper_simple.py:200 | the position searched out is the first one where the pattern matches |
| Patterns.AuthorOf | tests/test_current_scraper_simple.py:200-202 | the author pattern is found exactly when it matches at some position, and the author is group 1, stripped, of the leftmost match; it has no "(" and is stripped |
| Patterns.AuthorOfNeedsBy | tests/test_current_scraper_simple.py:200-202 | an author is only found in a name containing "by" |
| Patterns.AuthorAt | tests/test_current_scraper_simple.py:200-202 | the author a match at one position captures, once stripped, never contains "(" and is stripped |
| Patterns.AuthorBetween | tests/test_current_scraper_simple.py:200 | the author pattern matches at i exactly when "by" at i is followed by a whitespace character and at least one more character before the next "(" or the end, and then captures, once stripped, the text between "by" and that "(" or end |
| Patterns.StarRating | tests/test_current_scraper_simple.py:77-79 | a rating is read exactly when the pattern matches somewhere; its value is that of a whole run of digits (not preceded by a digit) directly followed by "stars.gif" |
| Patterns.StarRatingOfImage | tests/test_current_scraper_simple.py:75-79 | an image source with no digit before the digits of n followed by "stars.gif" has rating n |
| Patterns.StarRatingNeedsImageName | tests/test_current_scraper_simple.py:77-79 | a rating is only read from a source containing "stars.gif" |
| Patterns.ReviewDate | tests/test_current_scraper_simple.py:93-95 | a date starts with a letter, is at least nine characters long and ends in four digits; it is the group of the leftmost place the date pattern matches |
| Patterns.ReviewDateFound | tests/test_current_scraper_simple.py:93-94 | a date is read exactly when the date pattern matches somewhere in the text |
| Patterns.HelpfulVotes | tests/test_current_scraper_simple.py:120-124 | the helpful count and total are the groups of the leftmost place the helpful pattern matches |
| Patterns.HelpfulVotesFound | tests/test_current_scraper_simple.py:120-122 | the counts are read exactly when the helpful pattern matches somewhere in the text |
| Patterns.HelpfulVotesOf | tests/test_current_scraper_simple.py:119-124 | text with no digit before "m of n magicians found this helpful" gives the count m and the total n |
| Patterns.SummaryGroups | tests/test_current_scraper_simple.py:148 | the summary groups are a non-empty run of digits and dots and a non-empty run of digits |
| Patterns.DollarAmounts | tests/test_current_scraper_simple.py:311-317 | every amount `re.findall` returns for `\$(\d+\.?\d*)` is a well-formed decimal |
| Patterns.DollarFound | tests/test_current_scraper_simple.py:317 | a match of the dollar pattern at any position makes the findall list non-empty |
| Patterns.LabelledImpliesPlain | tests/test_current_scraper_simple.py:310-323 | the "Price:" patterns find something only when the plain `$` pattern does, so the first pattern always decides |
| Decimal.ParseFloat | tests/test_current_scraper_simple.py:225 | on digits-and-dots text `float` succeeds exactly on a well-formed decimal; without a minus sign the value is never negative |
| Decimal.UnsignedDecimalAccepts | tests/test_current_scraper_simple.py:225 | on digits-and-dots text the decimal reader succeeds exactly when there is at most one dot and some digit |
| Decimal.NatDigitsRoundTrip | tests/test_current_scraper_simple.py:79 | `int` of the decimal text of n is n |
| Decimal.ParseNatDigits | tests/test_current_scraper_simple.py:150 | `float` of the decimal text of n is n |
| PriceChain.CleanedFloat | tests/test_current_scraper_simple.py:224-225 | `float(re.sub(r'[^\d.]', '', t))` succeeds exactly when the digits and dots of t form a decimal, and is never negative |
| PriceChain.RowStep | tests/test_current_scraper_simple.py:213-242 | a row that is neither a list-price row nor an our-price row changes nothing; a list-price row leaves the discounted price alone; an our-price row leaves the list price alone |
| PriceChain.TableRowsAppend | tests/test_current_scraper_simple.py:212-213 | the row loop over `a + b` is the loop over a followed by the loop over b |
| PriceChain.TableDiscountIsLast | tests/test_current_scraper_simple.py:236-242 | the discounted price from the table is the last our-price row that parses |
| PriceChain.ListPriceKept | tests/test_current_scraper_simple.py:228-234 | once a list price is set, rows without a struck price keep it (the `elif not price` guard) |
| PriceChain.StrikeWins | tests/test_current_scraper_simple.py:220-227 | a struck list price that parses to a non-zero value decides the list price when no later row has a struck price that parses |
| PriceChain.TableGivesBoth | tests/test_current_scraper_simple.py:208-242 | a table with a struck "List Price:" a and an ourprice "Price:" b resolves to price a and discounted price b when both are non-zero |
| PriceChain.OffersStep | tests/test_current_scraper_simple.py:253-267 | an offers object never overwrites a price already set |
| PriceChain.LdBlocks | tests/test_current_scraper_simple.py:247-270 | the JSON-LD loop never overwrites a price already set |
| PriceChain.FirstOffersDecides | tests/test_current_scraper_simple.py:247-270 | the first block whose offers is an object decides the result; blocks after it are not read |
| PriceChain.LdBlocksAnyOffers | tests/test_scraper_parsing.py:225-248 | the other copy's loop, stopping at any offers key, never overwrites a price already set |
| PriceChain.CopiesAgree | tests/test_scraper_parsing.py:229-246 | the two copies agree on every page where no offers member is a non-object |
| PriceChain.CopiesDiverge | tests/test_scraper_parsing.py:246 | a non-object offers followed by an offers object with price 5 gives 5 in one copy and nothing in the other |
| PriceChain.Promote | tests/test_current_scraper_simple.py:272-275 | after promotion a discounted price implies a list price; a list price exists exactly when either price did; an existing list price changes nothing |
| PriceChain.StructuredPrices | tests/test_current_scraper_simple.py:208-275 | after the table, JSON-LD and promotion stages a discounted price only comes with a list price |
| PriceChain.Fallback | tests/test_current_scraper_simple.py:278-309 | a later fallback only fills a price that is missing or zero |
| PriceChain.MetaPrice | tests/test_current_scraper_simple.py:278-284 | the meta price is `float` of the tag's content, and is found whenever that parses |
| PriceChain.SelectorValue | tests/test_current_scraper_simple.py:297-306 | a selector gives a price exactly when its element exists and the digits and dots of its stripped text form a decimal; the price is never negative |
| PriceChain.SelectorPrice | tests/test_current_scraper_simple.py:287-306 | the selector price is the value of the first selector in list order that gives one; none when no selector does |
| PriceChain.MaxOf | tests/test_current_scraper_simple.py:320 | `max` returns an element of the list that is at least every element |
| PriceChain.AmountValues | tests/test_current_scraper_simple.py:320 | each matched amount converts with `float` to a non-negative value |
| PriceChain.PagePriceIsLargestDollar | tests/test_current_scraper_simple.py:309-323 | the page-text price exists exactly when some `$` amount occurs, and is then the largest of them |
| PriceChain.ResolvePrices | tests/test_current_scraper_simple.py:204-326 | the price is the structured list price if set, else the meta price, else the selector price, else the page-text price, else 0.0; the discounted price is the structured one and only comes with a non-zero price |
| ProductDescription.ParagraphText | tests/test_current_scraper_simple.py:350-352 | the paragraph text is its words joined by single spaces, and is empty exactly when it has no words |
| ProductDescription.Description | tests/test_current_scraper_simple.py:340-358 | the paragraph text wins when it has words; otherwise the stripped og:description content; otherwise "" when the paragraph exists and None when it does not |
| ProductDescription.DescriptionShape | tests/test_current_scraper_simple.py:340-358 | a description is stripped, a paragraph description has single spaces only, and there is none exactly when neither paragraph nor meta content exists |
| ProductDescription.DescriptionAsWritten | tests/test_current_scraper_simple.py:335-358 | the steps as written raise exactly when the og:description tag has no content |
| ProductDescription.AsWrittenAgrees | tests/test_current_scraper_simple.py:334-358 | without a content-less og:description tag the steps as written give the tolerant description |
| ProductDescription.ContentlessMetaCrashes | tests/test_current_scraper_simple.py:336-338 | paragraph "Wow" with a content-less og:description tag raises as written and gives "Wow" when tolerant |
| SoupText.SpacedTextWords | tests/test_current_scraper_simple.py:350-352 | the words of `get_text(separator=' ', strip=True)` are the words of the text fragments |
| SoupText.GluedTextStripped | tests/test_current_scraper_simple.py:146 | `get_text(strip=True)` is stripped and is empty exactly when every fragment is blank |
| SoupText.PiecesEmptyIffBlank | tests/test_current_scraper_simple.py:390 | the stripped pieces are empty exactly when every fragment is blank |
| ProductTags.Container | tests/test_current_scraper_simple.py:372-384 | the tags container is the first following div with float:left, outside the browse menu, holding a grey tag box; none when no div qualifies |
| ProductTags.LinkTagsExactly | tests/test_current_scraper_simple.py:388-392 | a text is collected exactly when some /tricks/tagged/ link has it as non-empty stripped text |
| ProductTags.DedupElements | tests/test_current_scraper_simple.py:395 | `list(dict.fromkeys(xs))` has no duplicates and the same elements as xs |
| ProductTags.DedupOrder | tests/test_current_scraper_simple.py:395 | de-duplication keeps elements in the order of their first occurrence |
| ProductTags.DedupLoop | tests/test_current_scraper_simple.py:395 | the insertion loop computes the de-duplicated list |
| ProductTags.Tags | tests/test_current_scraper_simple.py:364-395 | without the add-to-cart div there are no tags |
| ProductTags.TagsOfContainer | tests/test_current_scraper_simple.py:364-395 | the tags are exactly the non-empty link texts of the container's tag links, without duplicates and stripped |
| ProductTags.NoContainerNoTags | tests/test_current_scraper_simple.py:372-392 | when no following div qualifies there are no tags |
| Reviews.StarImage | tests/test_current_scraper_simple.py:73 | the star image is the first of the header's images whose source contains "stars.gif"; there is none exactly when no source contains it |
| Reviews.RatingOf | tests/test_current_scraper_simple.py:72-79 | the rating is the one read from the first image source containing "stars.gif"; without such an image there is no rating |
| Reviews.RatingOfImage | tests/test_current_scraper_simple.py:73-79 | when the first star image's source has no digit before the digits of n followed by "stars.gif", the rating is n |
| Reviews.StarImageAt | tests/test_current_scraper_simple.py:73 | the star image is the source at k when it contains "stars.gif" and no earlier source does |
| Reviews.VerifiedIn | tests/test_current_scraper_simple.py:98-99 | a buyer is verified exactly when some review_verified span contains "Verified buyer" |
| Reviews.BodyText | tests/test_current_scraper_simple.py:110-114 | the review text is its words joined by single spaces |
| Reviews.ReviewOf | tests/test_current_scraper_simple.py:66-124 | a block without a header has no subject, date, rating or verified flag; the text exists exactly when the body does and is its words joined by spaces; verified exactly when the from line holds a verified span; the helpful counts come in pairs |
| Reviews.Parents | tests/test_current_scraper_simple.py:57-64 | every kept block is a parent review and there are no more of them than blocks |
| Reviews.ParentBlocks | tests/test_current_scraper_simple.py:57-64 | the filtering loop computes the parent reviews |
| Reviews.ReviewsOfParents | tests/test_current_scraper_simple.py:66-137 | the review loop computes the worthwhile records of the parents, in order |
| Reviews.CollectReviews | tests/test_current_scraper_simple.py:54-137 | the two loops together compute the individual reviews |
| Reviews.IndividualReviewsAppend | tests/test_current_scraper_simple.py:58-137 | the reviews of `xs + ys` are the reviews of xs followed by those of ys |
| Reviews.IndividualReviewsKept | tests/test_current_scraper_simple.py:127-137 | every review has a non-zero rating or a non-empty text, comes from a parent block, and there are no more reviews than blocks |
| Reviews.SingleBlock | tests/test_current_scraper_simple.py:58-64 | a review_header block or a block with neither header nor body yields no review |
| Reviews.SummaryOf | tests/test_current_scraper_simple.py:144-151 | a summary is read exactly when the pattern matches and its rating group is a decimal `float` accepts; its rating is never negative |
| Reviews.SummaryRatingParses | tests/test_current_scraper_simple.py:150 | `float` of a digits-and-dots group succeeds exactly when it is a decimal with at most one dot, and is never negative |
| Reviews.Assemble | tests/test_current_scraper_simple.py:153-159 | the summary, when present, is the first entry and the only summary; the individual reviews follow in order |
| Reviews.ExtractReviews | tests/test_current_scraper_simple.py:43-166 | without the reviews container the list is empty; with it, the list holds the individual reviews plus one entry when a summary was read, and a summary can only be the first entry |
| Reviews.ExtractReviewsShape | tests/test_current_scraper_simple.py:139-159 | with the container, the list starts with a summary exactly when one was read, and the individual reviews follow in order |
| Reviews.SummaryEntry | tests/test_current_scraper_simple.py:148-159 | a parsed summary gives a first entry with `float` of the rating group and `int` of the count group |
| PyText.Strip | tests/test_current_scraper_simple.py:179 | `str.strip` gives a stripped middle slice with only whitespace cut from each end |
| PyText.SplitStrip | tests/test_current_scraper_simple.py:352 | stripping does not change the words |
| PyText.SplitJoin | tests/test_current_scraper_simple.py:114 | splitting words joined by spaces gives the words back |
| PyText.Collapse | tests/test_excel_export.py:65 | `' '.join(s.split())` has single inner spaces and no outer ones, and is empty exactly when s has no words |
| PyText.CollapseKeepsWords | tests/test_excel_export.py:65 | collapsing keeps the words |
| PyText.CollapseFixedPoint | tests/test_excel_export.py:65 | collapsing leaves s unchanged exactly when s is already collapsed |
| PyText.CollapseIdempotent | tests/test_excel_export.py:65 | collapsing twice is collapsing once |
| PyText.ContainsIff | tests/test_current_scraper_simple.py:220 | `p in s` holds exactly when p occurs at some position of s |
| PyText.RemoveSuffixAndStrip | tests/test_current_scraper_simple.py:185-186 | removing a self-overlap-free suffix p from `x + p`, where x does not contain it, and stripping gives x back |
| PyText.LowerAscii | tests/test_current_scraper_simple.py:216 | lower-cases A-Z and keeps every other character; equals `lower()` on ASCII text |
| PyText.DigitsAndDotsCounts | tests/test_current_scraper_simple.py:225 | `re.sub(r'[^\d.]', '', s)` keeps every digit and dot of s and removes everything else |
| SqlText.SplitOnJoin | database/db_manager.py:109 | splitting pieces joined by a separator on that separator gives the pieces back |
| SqlText.JoinMarkers | database/db_manager.py:110 | joining n copies of a text with m markers gives m times n markers |
| ProductStore.Lookup | database/db_manager.py:81-88 | a key is absent exactly when no entry has it, and a found value belongs to an entry with that key |
| ProductStore.Validate | database/db_manager.py:71-94 | no exception exactly when the name, price and URL rules all hold; AttributeError exactly when the name is not text; otherwise the first broken rule, in the order name, price, URL, gives its message |
| ProductStore.BlankIffAllSpace | database/db_manager.py:81 | `name.strip()` is empty exactly when the name is all whitespace |
| ProductStore.NoColonRejected | database/db_manager.py:88-94 | a URL without ':' has no scheme and is refused |
| ProductStore.SchemeHostSplit | database/db_manager.py:90 | `urlsplit` of `scheme://host/path` yields the lower-cased scheme and `//host` plus the cleaned path |
| ProductStore.NetlocOfHost | database/db_manager.py:90-91 | the network location of `//host` plus a path starting with '/', '?' or '#' is host |
| ProductStore.SchemeHostAccepted | database/db_manager.py:88-92 | a URL `scheme://host` plus a path, with a non-empty host free of delimiters and brackets, is accepted |
| ProductStore.MissingNameRejected | database/db_manager.py:81-82 | a dictionary without a name is refused with the name message |
| ProductStore.NegativePriceRejected | database/db_manager.py:84-86 | a negative price is refused with the price message |
| ProductStore.ColonlessUrlRejected | database/db_manager.py:88-94 | with a good name, a non-empty URL without ':' is refused with the URL message |
| ProductStore.MalformedUrlRejected | database/db_manager.py:88-94 | "некорректный-url" is refused with the URL message |
| ProductStore.ZeroPriceEmptyUrlAccepted | database/db_manager.py:84-88 | a zero price and an empty URL are accepted |
| ProductStore.NullPriceAccepted | database/db_manager.py:84 | a None price is accepted |
| ProductStore.BlankNameRejectedFirst | database/db_manager.py:81-86 | a blank name is reported before a negative price |
| ProductStore.AddProduct | database/db_manager.py:106-113 | the insert fails exactly when validation raises, with that exception; otherwise the parameters are the values in key order, and with '%'-free keys every marker is `%s` and there is one per parameter |
| ProductStore.InsertBinds | database/db_manager.py:109-111 | the INSERT text has exactly one `%s` per key and no other '%' |
| ProductStore.InsertRoundTrip | database/db_manager.py:109-111 | reading the INSERT text back gives the keys and one marker per key |
| ProductStore.UpdateProduct | database/db_manager.py:155-162 | the update fails exactly when validation raises; otherwise the parameters are the values followed by the id, and with '%'-free keys the markers match the parameters |
| ProductStore.UpdateBinds | database/db_manager.py:158-160 | the UPDATE text has one `%s` per key plus one for the id |
| ProductStore.AssignedKeysOf | database/db_manager.py:158 | the `k = %s` assignments read back to their keys |
| ProductStore.UpdateRoundTrip | database/db_manager.py:158-160 | reading the UPDATE text back gives the keys |
| ProductStore.SearchFilters | database/db_manager.py:226-243 | the conditions come in the order name, category, minimum, maximum; each is present exactly when its argument is truthy (name, category) or not None (prices), with the `%name%` pattern and the given values |
| ProductStore.Layered | database/db_manager.py:229-243 | four optional parts, one per rank, concatenate to an ascending list holding each rank exactly when its part is non-empty |
| ProductStore.SearchProducts | database/db_manager.py:226-252 | the markers match the parameters; the parameters are the conditions' values followed by limit and offset; the WHERE clause reads back to the conditions |
| ProductStore.SearchBinds | database/db_manager.py:245-252 | the SELECT text has one `%s` per condition plus two for limit and offset |
| ProductStore.SearchRoundTrip | database/db_manager.py:245-251 | the WHERE clause reads back to the conditions, "1=1" to none |
| ExcelExport.ReplaceChar | tests/test_excel_export.py:63 | `replace(a, b)` on one character changes every a into b and nothing else |
| ExcelExport.PlaneOnly | tests/test_excel_export.py:64 | the filtered text has only characters below 65536 and is no longer than the input |
| ExcelExport.PlaneOnlyKeeps | tests/test_excel_export.py:64 | a character survives the filter exactly when it was there and is below 65536 |
| ExcelExport.CleanText | tests/test_excel_export.py:59-66 | a missing value stays missing; a cleaned text has single inner spaces, no line breaks or tabs, and only characters below 65536 |
| ExcelExport.CleanTextReference | tests/test_excel_export.py:63-65 | the three replacements change nothing the split would not: `clean_text` is the collapse of the filtered text |
| ExcelExport.CleanTextWords | tests/test_excel_export.py:64-65 | the cleaned text has the words of the filtered text |
| ExcelExport.CleanTextFixed | tests/test_excel_export.py:59-66 | `clean_text` leaves a text unchanged exactly when it is collapsed and has only characters below 65536 |
| ExcelExport.CleanTextIdempotent | tests/test_excel_export.py:59-66 | cleaning twice is cleaning once |
| ExcelExport.TagsText | tests/test_excel_export.py:53-56 | a tag list becomes its `", "` join (an empty list gives ""); any other value is kept, and is None exactly when it is missing or "" |
| ExcelExport.TagsRoundTrip | tests/test_excel_export.py:55 | splitting the joined tags on ", " gives the tags back when none contains ',' |
| ExcelExport.JoinCleanTags | tests/test_excel_export.py:55-71 | non-empty collapsed tags with only characters below 65536 join to a collapsed text with only such characters, which starts with a non-space |
| ExcelExport.ReviewsCell | tests/test_excel_export.py:47-50 | an empty review list becomes an empty cell, any other list is kept |
| ExcelExport.ExportRow | tests/test_excel_export.py:43-71 | the row's name, author, description and tags are cleaned; name and tags are always filled; author and description are filled exactly when the record has them; prices, url and image are copied; the reviews cell is empty exactly when there are no reviews |
| ExcelExport.ExportRowWords | tests/test_excel_export.py:68-71 | the exported name and tags have the words of the filtered name and of the filtered joined tags |
| ExcelExport.ExportedTagsRoundTrip | tests/test_excel_export.py:53-71 | clean tags without ',' are recovered by splitting the exported cell on ", " |

## Left out

- Fetching pages, parsing HTML, printing, tracebacks, logging and file output are left out. The page enters the model as the results of the BeautifulSoup queries the code makes.
- `datetime.now()` is a parameter (`now`) of `Extractor.ExtractProductInfo`.
- `json.loads` is not modelled character by character. Each JSON-LD script is given already classified (`PriceChain.LdBlock`): unreadable, without offers, offers not an object, or an offers object with its two price members.
- `float()` is modelled on decimal text with optional surrounding whitespace and one sign. Exponents, `inf`, `nan` and digit-group underscores are not, so texts using them are treated as refused. `float()` also accepts non-ASCII decimal digits (such as '٣'), which `PriceChain.MetaPrice` refuses.
- PyText.LowerAscii: non-ASCII letters (such as 'É') are not lower-cased. The row-label tests look only for "list price" and "price:", which no lower-cased non-ASCII letter can help form ('İ' gives 'i' plus a combining dot, the Kelvin sign gives 'k'), and URL schemes are ASCII, so every use decides the same either way.
- Prices are exact reals, not IEEE doubles, so rounding in `float()` and in comparisons is not modelled.
- `str(soup)` is a parameter (`PriceSources.page`), not computed from the page.
- Executing SQL is left out. This covers `cur.execute`, `fetchone`, `commit`, `rollback`, the returned id or boolean, and the rows `search_products` returns. The model returns the statement text and parameter list instead.
- `get_product` and `delete_product` are not part of this model.
- `urlparse` is modelled as far as the product validation reads it: the leading C0-and-space strip, removal of tab/CR/LF, scheme splitting, the network location, and the refusal of an unmatched bracket. The validation of a bracketed IPv6 host, the NFKC check of the network location, port parsing and `params` splitting are left out.
- ProductStore.AddProduct: the binding property (one `%s` per parameter) is stated only for keys without '%'. A key that holds '%' puts extra markers in the SQL text, and the driver then fails.
- ProductStore.UpdateProduct: the binding property is likewise stated only for keys without '%'.
- ProductStore.InsertRoundTrip: stated for keys without ',' or ')'. Such characters make the column list ambiguous to read back.
- ProductStore.UpdateRoundTrip: stated for keys without ','.
- ExcelExport.TagsRoundTrip: stated for tags without ','.
- pandas is not modelled. That covers building the DataFrame, `reindex`, `pd.isna`, NaN cells, `json.dumps` of the review list and writing the workbook. The row keeps the review list itself, and `clean_text` is applied to text cells only, so `str()` of non-text values is not modelled.
- Character classes follow Python's `str.isspace` and ASCII `\d`. Unicode digits that `\d` also matches outside ASCII are not modelled.
- PriceChain.SelectorValue: keeps only ASCII digits and '.', where the code keeps every character for which `str.isdigit` holds. A non-decimal digit such as '¹' or '②' in the element's text makes `float` raise, and the code goes on to the next selector. The model drops such a character instead and may read a price from that selector.

## Findings

| source | as written | input that shows it | evidently intended | confidence | as-written member | corrected member |
|---|---|---|---|---|---|---|
| tests/test_current_scraper_simple.py:336-338 | `description_meta.get('content').strip()` runs on every page with an og:description tag. On a tag without content it raises AttributeError, and the outer `except` returns None for the whole product. The value is overwritten at line 341 anyway. | a page whose `div#product_description` paragraph reads "Wow" and whose `<meta property="og:description">` has no content | the record is built with description "Wow", reading a content-less tag as no description | not executed | ProductDescription.DescriptionAsWritten, Extractor.ExtractProductInfoAsWritten, Extractor.ContentlessMetaLosesProduct | ProductDescription.Description, Extractor.ExtractProductInfo, Extractor.AsWrittenMatchesTolerant |
