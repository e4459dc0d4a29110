/** The price chain of extract_product_info: the list price (`price`) and the
    discounted price (`discounted_price`), tried source by source — the
    `product_price_details` table, the JSON-LD blocks, the promotion of a lone
    discounted price, the `product:price:amount` meta tag, a fixed list of
    price elements, and finally dollar amounts anywhere in the page.  Every
    step tests a price with Python truthiness, so 0.0 counts as missing. */
module PriceChain {
  import opened Wrappers
  import opened PyText
  import opened Decimal
  import opened Patterns

  /** `not price` for an optional float: None and 0.0 are both falsy. */
  predicate Missing(p: Option<real>) {
    p.None? || p.value == 0.0
  }

  /** The two price variables of the extractor while the chain runs. */
  datatype Prices = Prices(list: Option<real>, discounted: Option<real>)

  /** `float(re.sub(r'[^\d.]', '', text))`, None where `float` raises. */
  function CleanedFloat(text: string): (r: Option<real>)
    ensures r.Some? <==> IsUnsignedDecimal(DigitsAndDots(text))
    ensures r.Some? ==> r.value >= 0.0
  {
    ParseFloat(DigitsAndDots(text))
  }

  // ---------------------------------------------------------------------
  // 1. the product_price_details table

  /** A `<td>` as the extractor reads it: `get_text(strip=True)`, the same
      text of its first `<strike>` when it has one, and its classes. */
  datatype Cell = Cell(text: string, strike: Option<string>, classes: seq<string>)

  /** A `<tr>`: its `<td>` cells in document order. */
  datatype Row = Row(cells: seq<Cell>)

  /** The lower-cased label of a row with at least two cells. */
  function RowLabel(row: Row): string
    requires |row.cells| >= 2
  {
    LowerAscii(row.cells[0].text)
  }

  /** A row whose label mentions "list price". */
  predicate IsListRow(row: Row) {
    |row.cells| >= 2 && Contains(RowLabel(row), "list price")
  }

  /** A row handled by the discounted-price branch: not a list-price row, a
      label with "price:", and a value cell of class `ourprice`. */
  predicate IsOurPriceRow(row: Row) {
    && |row.cells| >= 2
    && !Contains(RowLabel(row), "list price")
    && Contains(RowLabel(row), "price:")
    && "ourprice" in row.cells[1].classes
  }

  /** A list-price row whose `<strike>` text yields a number. */
  predicate StrikeSets(row: Row) {
    IsListRow(row) && row.cells[1].strike.Some? && CleanedFloat(row.cells[1].strike.value).Some?
  }

  /** One iteration of the loop over the table's rows. */
  function RowStep(p: Prices, row: Row): (r: Prices)
    ensures !IsListRow(row) && !IsOurPriceRow(row) ==> r == p
    ensures IsListRow(row) ==> r.discounted == p.discounted
    ensures IsOurPriceRow(row) ==> r.list == p.list
  {
    if |row.cells| < 2 then p
    else
      var lead := RowLabel(row);
      var cell := row.cells[1];
      if Contains(lead, "list price") then
        if cell.strike.Some? then
          match CleanedFloat(cell.strike.value)
          case Some(v) => p.(list := Some(v))
          case None => p
        else if Missing(p.list) then
          match CleanedFloat(cell.text)
          case Some(v) => p.(list := Some(v))
          case None => p
        else p
      else if Contains(lead, "price:") && "ourprice" in cell.classes then
        match CleanedFloat(cell.text)
        case Some(v) => p.(discounted := Some(v))
        case None => p
      else p
  }

  /** The loop over the rows, from the state `p`. */
  function TableRows(p: Prices, rows: seq<Row>): Prices
    decreases |rows|
  {
    if rows == [] then p else TableRows(RowStep(p, rows[0]), rows[1..])
  }

  /** Both prices start as None; without the table they stay so. */
  function TableStage(table: Option<seq<Row>>): Prices {
    match table
    case None => Prices(None, None)
    case Some(rows) => TableRows(Prices(None, None), rows)
  }

  /** Running the loop over `rows + [row]` is running it over `rows`, then
      the step for `row`. */
  lemma {:induction false} TableRowsSnoc(p: Prices, rows: seq<Row>, row: Row)
    ensures TableRows(p, rows + [row]) == RowStep(TableRows(p, rows), row)
    decreases |rows|
  {
    if rows == [] {
      assert [row][1..] == [];
    } else {
      assert (rows + [row])[1..] == rows[1..] + [row];
      TableRowsSnoc(RowStep(p, rows[0]), rows[1..], row);
    }
  }

  /** Running the loop over `a + b` is running it over `a`, then over `b`. */
  lemma {:induction false} TableRowsAppend(p: Prices, a: seq<Row>, b: seq<Row>)
    ensures TableRows(p, a + b) == TableRows(TableRows(p, a), b)
    decreases |a|
  {
    if a != [] {
      assert (a + b)[1..] == a[1..] + b;
      TableRowsAppend(RowStep(p, a[0]), a[1..], b);
    } else {
      assert a + b == b;
    }
  }

  /** The discounted price the table yields, read from the end: the value of
      the last `ourprice` row whose text yields a number. */
  function LastOurPrice(rows: seq<Row>): (r: Option<real>)
    decreases |rows|
  {
    if rows == [] then None
    else
      var last := rows[|rows| - 1];
      if IsOurPriceRow(last) && CleanedFloat(last.cells[1].text).Some? then
        CleanedFloat(last.cells[1].text)
      else LastOurPrice(rows[..|rows| - 1])
  }

  /** Each `ourprice` row overwrites the discounted price, so the table's
      discounted price is that of the last such row that parses. */
  lemma {:induction false} TableDiscountIsLast(p: Prices, rows: seq<Row>)
    ensures TableRows(p, rows).discounted ==
      (if LastOurPrice(rows).Some? then LastOurPrice(rows) else p.discounted)
    decreases |rows|
  {
    if rows != [] {
      var init := rows[..|rows| - 1];
      var last := rows[|rows| - 1];
      assert init + [last] == rows;
      TableRowsSnoc(p, init, last);
      TableDiscountIsLast(p, init);
    }
  }

  /** A list price that is set and not zero survives every row except a
      list-price row whose `<strike>` yields a number. */
  lemma {:induction false} ListPriceKept(p: Prices, rows: seq<Row>)
    requires !Missing(p.list)
    requires forall k :: 0 <= k < |rows| ==> !StrikeSets(rows[k])
    ensures TableRows(p, rows).list == p.list
    decreases |rows|
  {
    if rows != [] {
      assert !StrikeSets(rows[0]);
      ListPriceKept(RowStep(p, rows[0]), rows[1..]);
    }
  }

  /** A struck-through list price that is not zero is the table's list price
      when no later row carries another struck-through list price. */
  lemma StrikeWins(p: Prices, pre: seq<Row>, row: Row, post: seq<Row>)
    requires StrikeSets(row) && CleanedFloat(row.cells[1].strike.value) != Some(0.0)
    requires forall k :: 0 <= k < |post| ==> !StrikeSets(post[k])
    ensures TableRows(p, pre + [row] + post).list == CleanedFloat(row.cells[1].strike.value)
  {
    TableRowsAppend(p, pre + [row], post);
    TableRowsSnoc(p, pre, row);
    ListPriceKept(TableRows(p, pre + [row]), post);
  }

  // ---------------------------------------------------------------------
  // 2. the application/ld+json blocks

  /** A JSON value, as far as `float()` distinguishes it. */
  datatype JsonValue = JNumber(n: real) | JString(s: string) | JBool(b: bool) | JNull | JArray | JObject

  /** `float(v)` for a decoded JSON value, None where it raises. */
  function JsonFloat(v: JsonValue): Option<real> {
    match v
    case JNumber(n) => Some(n)
    case JString(s) => ParseFloat(s)
    case JBool(b) => Some(if b then 1.0 else 0.0)
    case _ => None
  }

  /** One `<script type="application/ld+json">` as the loop sees it. */
  datatype LdBlock =
    | Unreadable        // no single string child, or not valid JSON
    | NoOffers          // not an object, or an object without "offers"
    | OffersNotObject   // "offers" present but not an object
      // "offers" is an object: its "price" member if any, and the "price"
      // member of "priceSpecification" when that is an object holding one
    | Offers(price: Option<JsonValue>, specPrice: Option<JsonValue>)

  /** The body of the `isinstance(offers, dict)` branch. */
  function OffersStep(p: Prices, price: Option<JsonValue>, specPrice: Option<JsonValue>): (r: Prices)
    ensures !Missing(p.list) ==> r.list == p.list
    ensures !Missing(p.discounted) ==> r.discounted == p.discounted
  {
    var d := if price.Some? && Missing(p.discounted) then
      (match JsonFloat(price.value) case Some(v) => Some(v) case None => p.discounted)
      else p.discounted;
    var l := if specPrice.Some? && Missing(p.list) then
      (match JsonFloat(specPrice.value) case Some(v) => Some(v) case None => p.list)
      else p.list;
    Prices(l, d)
  }

  /** The loop over the blocks: it stops after the first block whose
      "offers" is an object. */
  function LdBlocks(p: Prices, blocks: seq<LdBlock>): (r: Prices)
    ensures !Missing(p.list) ==> r.list == p.list
    ensures !Missing(p.discounted) ==> r.discounted == p.discounted
    decreases |blocks|
  {
    if blocks == [] then p
    else
      match blocks[0]
      case Offers(price, spec) => OffersStep(p, price, spec)
      case _ => LdBlocks(p, blocks[1..])
  }

  /** The JSON-LD step runs only while one of the two prices is missing, and
      never replaces a price already found. */
  function JsonStage(p: Prices, blocks: seq<LdBlock>): (r: Prices)
    ensures !Missing(p.list) ==> r.list == p.list
    ensures !Missing(p.discounted) ==> r.discounted == p.discounted
  {
    if Missing(p.list) || Missing(p.discounted) then LdBlocks(p, blocks) else p
  }

  /** Only the first block with an "offers" object is read: blocks after it
      change nothing. */
  lemma {:induction false} FirstOffersDecides(p: Prices, pre: seq<LdBlock>, price: Option<JsonValue>,
                                              spec: Option<JsonValue>, post: seq<LdBlock>)
    requires forall k :: 0 <= k < |pre| ==> !pre[k].Offers?
    ensures LdBlocks(p, pre + [Offers(price, spec)] + post) == OffersStep(p, price, spec)
    decreases |pre|
  {
    if pre == [] {
      assert (pre + [Offers(price, spec)] + post)[0] == Offers(price, spec);
    } else {
      var bs := pre + [Offers(price, spec)] + post;
      assert bs[0] == pre[0] && bs[1..] == pre[1..] + [Offers(price, spec)] + post;
      FirstOffersDecides(p, pre[1..], price, spec, post);
    }
  }

  /** The loop of the other copy of the extractor, whose `break` also ends
      the loop at a block whose "offers" is not an object. */
  function LdBlocksAnyOffers(p: Prices, blocks: seq<LdBlock>): (r: Prices)
    ensures !Missing(p.list) ==> r.list == p.list
    ensures !Missing(p.discounted) ==> r.discounted == p.discounted
    decreases |blocks|
  {
    if blocks == [] then p
    else
      match blocks[0]
      case Offers(price, spec) => OffersStep(p, price, spec)
      case OffersNotObject => p
      case _ => LdBlocksAnyOffers(p, blocks[1..])
  }

  /** The two copies agree whenever no block has a non-object "offers". */
  lemma {:induction false} CopiesAgree(p: Prices, blocks: seq<LdBlock>)
    requires forall k :: 0 <= k < |blocks| ==> !blocks[k].OffersNotObject?
    ensures LdBlocksAnyOffers(p, blocks) == LdBlocks(p, blocks)
    decreases |blocks|
  {
    if blocks != [] && !blocks[0].Offers? {
      CopiesAgree(p, blocks[1..]);
    }
  }

  /** A page whose first JSON-LD block has a list of offers and whose second
      has an offer object priced 5: one copy reads 5, the other nothing. */
  lemma CopiesDiverge()
    ensures LdBlocks(Prices(None, None), [OffersNotObject, Offers(Some(JNumber(5.0)), None)])
            == Prices(None, Some(5.0))
    ensures LdBlocksAnyOffers(Prices(None, None), [OffersNotObject, Offers(Some(JNumber(5.0)), None)])
            == Prices(None, None)
  {
    var bs := [OffersNotObject, Offers(Some(JNumber(5.0)), None)];
    assert bs[1..] == [Offers(Some(JNumber(5.0)), None)];
  }

  // ---------------------------------------------------------------------
  // 3. a lone discounted price becomes the price

  /** Without a list price a discounted price is the price, and there is then
      no discount: afterwards a discount is only ever kept next to a price. */
  function Promote(p: Prices): (r: Prices)
    ensures !Missing(r.discounted) ==> !Missing(r.list)
    ensures !Missing(r.list) <==> !Missing(p.list) || !Missing(p.discounted)
    ensures !Missing(p.list) ==> r == p
  {
    if Missing(p.list) && !Missing(p.discounted) then Prices(p.discounted, None) else p
  }

  // ---------------------------------------------------------------------
  // 4.-6. the fallbacks for the list price

  /** A fallback step: it runs only while the price is missing, and a value
      it finds replaces the price. */
  function Fallback(price: Option<real>, found: Option<real>): (r: Option<real>)
    ensures !Missing(price) ==> r == price
    ensures Missing(price) ==> r == (if found.Some? then found else price)
  {
    if Missing(price) && found.Some? then found else price
  }

  /** `float(meta.get('content'))` for the `product:price:amount` meta tag:
      `tag` is None without the tag, and Some(None) when the tag has no
      `content`, where `float(None)` raises. */
  function MetaPrice(tag: Option<Option<string>>): (r: Option<real>)
    ensures r.Some? ==> tag.Some? && tag.value.Some? && ParseFloat(tag.value.value) == r
    ensures tag.Some? && tag.value.Some? && ParseFloat(tag.value.value).Some? ==> r.Some?
  {
    if tag.Some? && tag.value.Some? then ParseFloat(tag.value.value) else None
  }

  /** A `soup.find(tag, {attr: value})` query. */
  datatype Selector = Selector(tag: string, attr: string, value: string)

  /** The price elements tried in order. */
  const PriceSelectors: seq<Selector> := [
    Selector("span", "class", "price"),
    Selector("div", "class", "product-price"),
    Selector("span", "class", "regular-price"),
    Selector("div", "class", "price-box"),
    Selector("span", "itemprop", "price")
  ]

  /** The price one element yields: its text with everything but digits and
      dots dropped, when that is not empty and `float` accepts it.  `found`
      maps each selector that matches an element to that element's text. */
  function SelectorValue(found: map<Selector, string>, sel: Selector): (r: Option<real>)
    ensures r.Some? ==> sel in found && r.value >= 0.0
    ensures r.Some? <==> sel in found && IsUnsignedDecimal(DigitsAndDots(Strip(found[sel])))
  {
    if sel in found then
      var t := DigitsAndDots(Strip(found[sel]));
      if t != "" then ParseFloat(t) else None
    else None
  }

  /** The loop over the selectors from index `i`: the first element that
      yields a price ends it; an element without one is skipped. */
  function SelectorPrice(found: map<Selector, string>, i: nat): (r: Option<real>)
    ensures r.Some? ==> exists k :: (i <= k < |PriceSelectors| && SelectorValue(found, PriceSelectors[k]) == r
      && forall j :: i <= j < k ==> SelectorValue(found, PriceSelectors[j]).None?)
    ensures r.None? ==> forall k :: i <= k < |PriceSelectors| ==> SelectorValue(found, PriceSelectors[k]).None?
    decreases |PriceSelectors| - i
  {
    if i >= |PriceSelectors| then None
    else
      var v := SelectorValue(found, PriceSelectors[i]);
      if v.Some? then v else SelectorPrice(found, i + 1)
  }

  /** The largest of a non-empty list. */
  function MaxOf(vs: seq<real>): (m: real)
    requires |vs| > 0
    ensures m in vs
    ensures forall k :: 0 <= k < |vs| ==> vs[k] <= m
    decreases |vs|
  {
    if |vs| == 1 then vs[0]
    else
      var m := MaxOf(vs[1..]);
      assert forall k :: 1 <= k < |vs| ==> vs[k] == vs[1..][k - 1];
      if vs[0] >= m then vs[0] else m
  }

  /** `[float(g) for g in gs]` for matched groups, which always parse. */
  function AmountValues(gs: seq<string>): (vs: seq<real>)
    requires forall k :: 0 <= k < |gs| ==> IsUnsignedDecimal(gs[k])
    ensures |vs| == |gs|
    ensures forall k :: 0 <= k < |gs| ==> ParseFloat(gs[k]) == Some(vs[k]) && vs[k] >= 0.0
  {
    seq(|gs|, k requires 0 <= k < |gs| && IsUnsignedDecimal(gs[k]) => ParseFloat(gs[k]).value)
  }

  /** The three dollar patterns tried over the page's HTML: the first that
      matches anywhere gives the largest amount it matched. */
  function PagePrice(page: string): (r: Option<real>)
    ensures r.Some? ==> r.value >= 0.0
  {
    var m1 := DollarAmounts(page, 0);
    var m2 := LabelledDollarAmounts(page, 0, "Price:");
    var m3 := LabelledDollarAmounts(page, 0, "price:");
    if m1 != [] then Some(MaxOf(AmountValues(m1)))
    else if m2 != [] then Some(MaxOf(AmountValues(m2)))
    else if m3 != [] then Some(MaxOf(AmountValues(m3)))
    else None
  }

  /** The labelled patterns are never reached with a match: the page price
      is found exactly when some `$<digits>` occurs, and it is then the
      largest such amount, one of them and at least each of them. */
  lemma PagePriceIsLargestDollar(page: string)
    ensures PagePrice(page).Some? <==> DollarAmounts(page, 0) != []
    ensures PagePrice(page).Some? ==>
      && (exists k :: 0 <= k < |DollarAmounts(page, 0)| && ParseFloat(DollarAmounts(page, 0)[k]) == PagePrice(page))
      && (forall k :: 0 <= k < |DollarAmounts(page, 0)| ==>
            ParseFloat(DollarAmounts(page, 0)[k]).value <= PagePrice(page).value)
  {
    var m1 := DollarAmounts(page, 0);
    if m1 == [] {
      if LabelledDollarAmounts(page, 0, "Price:") != [] {
        LabelledImpliesPlain(page, 0, "Price:");
      }
      if LabelledDollarAmounts(page, 0, "price:") != [] {
        LabelledImpliesPlain(page, 0, "price:");
      }
    } else {
      var vs := AmountValues(m1);
      var m := MaxOf(vs);
      var k :| 0 <= k < |vs| && vs[k] == m;
      assert ParseFloat(m1[k]) == Some(m);
    }
  }

  // ---------------------------------------------------------------------
  // the whole chain

  /** What the price steps read from the page. */
  datatype PriceSources = PriceSources(
    table: Option<seq<Row>>,              // rows of table.product_price_details
    ldJson: seq<LdBlock>,                 // the JSON-LD scripts in order
    metaAmount: Option<Option<string>>,   // meta product:price:amount, its content
    selectorHits: map<Selector, string>,  // text of the first match of each selector
    page: string)                         // str(soup)

  /** The prices after the table, the JSON-LD blocks and the promotion. */
  function StructuredPrices(src: PriceSources): (r: Prices)
    ensures !Missing(r.discounted) ==> !Missing(r.list)
  {
    Promote(JsonStage(TableStage(src.table), src.ldJson))
  }

  /** The final pair: the price (0.0 when nothing yields one) and the
      discounted price. */
  datatype PriceResult = PriceResult(price: real, discounted: Option<real>)

  /** The whole chain.  The fallbacks only ever fill in the price: the
      discounted price is the one the structured sources gave, and a
      discount that is not zero comes with a price that is not zero. */
  function ResolvePrices(src: PriceSources): (r: PriceResult)
    ensures r.discounted == StructuredPrices(src).discounted
    ensures !Missing(r.discounted) ==> r.price != 0.0 && Some(r.price) == StructuredPrices(src).list
    ensures !Missing(StructuredPrices(src).list) ==> Some(r.price) == StructuredPrices(src).list
    ensures Missing(StructuredPrices(src).list) && !Missing(MetaPrice(src.metaAmount)) ==>
      r.price == MetaPrice(src.metaAmount).value
    ensures (Missing(StructuredPrices(src).list) && Missing(MetaPrice(src.metaAmount))
             && !Missing(SelectorPrice(src.selectorHits, 0))) ==>
      r.price == SelectorPrice(src.selectorHits, 0).value
    ensures (Missing(StructuredPrices(src).list) && Missing(MetaPrice(src.metaAmount))
             && Missing(SelectorPrice(src.selectorHits, 0)) && !Missing(PagePrice(src.page))) ==>
      r.price == PagePrice(src.page).value
    ensures (Missing(StructuredPrices(src).list) && Missing(MetaPrice(src.metaAmount))
             && Missing(SelectorPrice(src.selectorHits, 0)) && Missing(PagePrice(src.page))) ==>
      r.price == 0.0
  {
    var s := StructuredPrices(src);
    var p1 := Fallback(s.list, MetaPrice(src.metaAmount));
    var p2 := Fallback(p1, SelectorPrice(src.selectorHits, 0));
    var p3 := Fallback(p2, PagePrice(src.page));
    PriceResult(if Missing(p3) then 0.0 else p3.value, s.discounted)
  }

  /** The row labels in lower case, as the table step compares them. */
  lemma ListPriceLabel()
    ensures LowerAscii("List Price:") == "list price:"
  {
  }

  lemma PriceLabel()
    ensures LowerAscii("Price:") == "price:"
  {
  }

  /** A row labelled "List Price:" whose value is struck through sets the
      list price to the struck amount. */
  lemma ListPriceRow(p: Prices, list: Cell, a: real)
    requires list.strike.Some? && CleanedFloat(list.strike.value) == Some(a)
    ensures RowStep(p, Row([Cell("List Price:", None, []), list])) == p.(list := Some(a))
  {
    ListPriceLabel();
    var lead := LowerAscii("List Price:");
    assert lead[..10] == "list price";
  }

  /** A row labelled "Price:" whose value cell has class `ourprice` sets the
      discounted price. */
  lemma OurPriceRow(p: Prices, ours: Cell, b: real)
    requires "ourprice" in ours.classes && CleanedFloat(ours.text) == Some(b)
    ensures RowStep(p, Row([Cell("Price:", None, []), ours])) == p.(discounted := Some(b))
  {
    PriceLabel();
    var lead := LowerAscii("Price:");
    assert lead[..6] == "price:";
    assert !Contains(lead, "list price");
  }

  /** A table with one list-price row and one `ourprice` row gives the list
      price and the discounted price, whatever the other sources hold. */
  lemma TableGivesBoth(src: PriceSources, list: Cell, ours: Cell, a: real, b: real)
    requires src.table == Some([Row([Cell("List Price:", None, []), list]),
                                Row([Cell("Price:", None, []), ours])])
    requires list.strike.Some? && CleanedFloat(list.strike.value) == Some(a) && a != 0.0
    requires "ourprice" in ours.classes && CleanedFloat(ours.text) == Some(b) && b != 0.0
    ensures ResolvePrices(src) == PriceResult(a, Some(b))
  {
    var rows := src.table.value;
    var p0 := Prices(None, None);
    ListPriceRow(p0, list, a);
    var p1 := Prices(Some(a), None);
    OurPriceRow(p1, ours, b);
    var p2 := Prices(Some(a), Some(b));
    assert rows[1..] == [rows[1]] && rows[1..][1..] == [];
    assert TableRows(p0, rows) == TableRows(p1, [rows[1]]);
    assert TableRows(p1, [rows[1]]) == TableRows(p2, []);
    assert TableStage(src.table) == p2;
  }
}
