/** `get_book_data` (scraper.py): one detail-page fetch turned into a record or `None`.
    The page is given after HTML parsing, as the parts the function looks up. */
module Extractor {
  import opened Wrappers
  import opened Text
  import opened Records
  import opened Http

  /** The default for a fixed field whose element is missing. */
  const NotAvailable: string := "N/A"

  /** The star-rating classes the rating is read from, in the order the source lists them. */
  const RatingWords: seq<string> := ["One", "Two", "Three", "Four", "Five"]

  /** The fixed fields, in the order they are inserted into the record. */
  const FixedKeys: seq<string> := ["title", "price", "rating", "stock", "description"]

  /** One `tr` of the product-information table: its first `th` and first `td`, if any. */
  datatype Row = Row(th: Option<string>, td: Option<string>)

  /** The `div#product_description` marker and the text of the `p` sibling after it, if any. */
  datatype DescriptionMarker = DescriptionMarker(nextParagraph: Option<string>)

  /** What `get_book_data` looks up in a parsed detail page. Texts are the raw `.text`
      of the element, before stripping. */
  datatype DetailPage = DetailPage(
    h1: Option<string>,                               // first `h1`
    priceColor: Option<string>,                       // `p.price_color`
    starRating: Option<seq<string>>,                  // class list of `p.star-rating`
    availability: Option<string>,                     // `p.instock.availability`
    productDescription: Option<DescriptionMarker>,    // `div#product_description`
    productTable: Option<seq<Row>>)                   // rows of `table.table-striped`

  /** A response body: either markup the parser accepted, or one on which parsing or
      field extraction raised. */
  datatype Markup = Parsed(page: DetailPage) | Malformed

  /** `element.text.strip() if element else 'N/A'`. */
  function TextOrDefault(element: Option<string>): string {
    match element
    case None => NotAvailable
    case Some(text) => Strip(text)
  }

  /** `next((c for c in classes if c in RatingWords), 'N/A')`: the first class that
      names a rating. */
  function FirstRating(classes: seq<string>): (r: string)
    ensures r == NotAvailable || r in RatingWords
    ensures r == NotAvailable <==> forall i :: 0 <= i < |classes| ==> classes[i] !in RatingWords
    ensures forall i :: 0 <= i < |classes| && classes[i] in RatingWords ==> r in classes[..i + 1]
  {
    if classes == [] then NotAvailable
    else if classes[0] in RatingWords then classes[0]
    else
      var r := FirstRating(classes[1..]);
      assert forall i :: 1 <= i < |classes| ==> classes[i] == classes[1..][i - 1];
      assert forall i :: 1 <= i < |classes| ==> classes[1..][..i] == classes[1..i + 1];
      r
  }

  /** The rating field: the first rating class of `p.star-rating`, or the default. */
  function RatingOf(starRating: Option<seq<string>>): string {
    match starRating
    case None => NotAvailable
    case Some(classes) => FirstRating(classes)
  }

  /** The description field: the stripped paragraph after the marker, or the default
      when the marker or the paragraph is missing. */
  function DescriptionOf(marker: Option<DescriptionMarker>): string {
    match marker
    case None => NotAvailable
    case Some(m) => TextOrDefault(m.nextParagraph)
  }

  /** The record after the five fixed assignments, before the table is read. */
  function FixedFields(p: DetailPage): (r: Record)
    ensures Keys(r) == FixedKeys && DistinctKeys(r)
  {
    var r := [ ("title", TextOrDefault(p.h1)),
               ("price", TextOrDefault(p.priceColor)),
               ("rating", RatingOf(p.starRating)),
               ("stock", TextOrDefault(p.availability)),
               ("description", DescriptionOf(p.productDescription)) ];
    KeysAt(r);
    PairwiseDistinctKeys(r);
    r
  }

  function TableRows(p: DetailPage): seq<Row> {
    match p.productTable
    case None => []
    case Some(rows) => rows
  }

  predicate Complete(row: Row) {
    row.th.Some? && row.td.Some?
  }

  /** One iteration of the table loop: a row with both cells assigns the normalised
      header to the stripped value; any other row changes nothing. */
  function ApplyRow(r: Record, row: Row): (r': Record)
    ensures |r| <= |r'| <= |r| + 1
    ensures |r'| == |r| + 1 ==> Complete(row)
  {
    if Complete(row) then
      var r' := Set(r, NormalizeKey(row.th.value), Strip(row.td.value));
      assert |Keys(r')| == |r'| && |Keys(r)| == |r|;
      r'
    else r
  }

  /** The table loop over `rows`, in order (written by peeling off the last row). */
  function ApplyRows(r: Record, rows: seq<Row>): (r': Record)
    ensures |r| <= |r'| <= |r| + |rows|
  {
    if rows == [] then r
    else ApplyRow(ApplyRows(r, rows[..|rows| - 1]), rows[|rows| - 1])
  }

  /** Reference reading of the table for one key: the stripped value of the LAST
      complete row whose normalised header is `k`. */
  function LastTableValue(rows: seq<Row>, k: string): Option<string> {
    if rows == [] then None
    else
      var row := rows[|rows| - 1];
      if Complete(row) && NormalizeKey(row.th.value) == k then Some(Strip(row.td.value))
      else LastTableValue(rows[..|rows| - 1], k)
  }

  /** Some complete row of the table has the normalised header `k`. */
  predicate TableHasKey(rows: seq<Row>, k: string) {
    exists i :: 0 <= i < |rows| && Complete(rows[i]) && NormalizeKey(rows[i].th.value) == k
  }

  /** After the table loop, a key holds the value of its last complete row, and keys
      the table does not mention keep their earlier value. */
  lemma {:induction false} ApplyRowsLookup(r: Record, rows: seq<Row>, k: string)
    ensures Lookup(ApplyRows(r, rows), k)
         == if LastTableValue(rows, k).Some? then LastTableValue(rows, k) else Lookup(r, k)
  {
    if rows != [] {
      ApplyRowsLookup(r, rows[..|rows| - 1], k);
    }
  }

  /** The table loop keeps every earlier key at its position and never stores a key twice. */
  lemma {:induction false} ApplyRowsKeepsOrder(r: Record, rows: seq<Row>)
    requires DistinctKeys(r)
    ensures DistinctKeys(ApplyRows(r, rows))
    ensures |Keys(r)| <= |Keys(ApplyRows(r, rows))|
    ensures Keys(ApplyRows(r, rows))[..|Keys(r)|] == Keys(r)
  {
    if rows != [] {
      var init := rows[..|rows| - 1];
      var last := rows[|rows| - 1];
      var before := ApplyRows(r, init);
      ApplyRowsKeepsOrder(r, init);
      if Complete(last) {
        SetKeepsKeysDistinct(before, NormalizeKey(last.th.value), Strip(last.td.value));
      }
    }
  }

  /** After the table loop, the keys are the earlier keys plus the normalised header
      of every complete row. */
  lemma {:induction false} ApplyRowsKeySet(r: Record, rows: seq<Row>, k: string)
    ensures k in Keys(ApplyRows(r, rows)) <==> k in Keys(r) || TableHasKey(rows, k)
  {
    if rows != [] {
      var init := rows[..|rows| - 1];
      ApplyRowsKeySet(r, init, k);
      TableHasKeySplit(rows, k);
    }
  }

  /** The table loop only ever appends keys: the keys after the first `i` rows are a
      prefix of the keys after all of them. So a key stays where the row that first set
      it put it when later rows repeat it, and new keys follow the table's row order. */
  lemma {:induction false} ApplyRowsPrefixKeys(r: Record, rows: seq<Row>, i: nat)
    requires i <= |rows|
    ensures |Keys(ApplyRows(r, rows[..i]))| <= |Keys(ApplyRows(r, rows))|
    ensures Keys(ApplyRows(r, rows))[..|Keys(ApplyRows(r, rows[..i]))|] == Keys(ApplyRows(r, rows[..i]))
    decreases |rows| - i
  {
    if i == |rows| {
      assert rows[..i] == rows;
    } else {
      var init := rows[..|rows| - 1];
      var last := rows[|rows| - 1];
      assert init[..i] == rows[..i];
      ApplyRowsPrefixKeys(r, init, i);
      var before := Keys(ApplyRows(r, init));
      var after := Keys(ApplyRows(r, rows));
      assert |before| <= |after| && after[..|before|] == before by {
        if Complete(last) {
          var k := NormalizeKey(last.th.value);
          if k !in before {
            assert (before + [k])[..|before|] == before;
          }
        }
      }
      var mid := Keys(ApplyRows(r, rows[..i]));
      assert after[..|mid|] == before[..|mid|];
    }
  }

  /** A key occurs in the table exactly when it occurs before the last row or in it. */
  lemma TableHasKeySplit(rows: seq<Row>, k: string)
    requires rows != []
    ensures TableHasKey(rows, k)
        <==> TableHasKey(rows[..|rows| - 1], k)
             || (Complete(rows[|rows| - 1]) && NormalizeKey(rows[|rows| - 1].th.value) == k)
  {
    var init := rows[..|rows| - 1];
    assert forall j :: 0 <= j < |init| ==> rows[j] == init[j];
  }

  /** The record built from a parsed detail page (the body of the `try` after the fetch). */
  function Extract(p: DetailPage): (r: Record)
    ensures DistinctKeys(r)
    ensures |r| >= |FixedKeys| && Keys(r)[..|FixedKeys|] == FixedKeys
  {
    ApplyRowsKeepsOrder(FixedFields(p), TableRows(p));
    ApplyRows(FixedFields(p), TableRows(p))
  }

  /** `get_book_data(url)` given the outcome of its `requests.get`: a transport error,
      a status `raise_for_status` rejects, or markup on which extraction raises all give
      `None`; every other response gives the extracted record. */
  function GetBookData(response: Response<Markup>): (r: Option<Record>)
    ensures r.Some? <==> response.Received? && !RaisesForStatus(response.status) && response.body.Parsed?
    ensures r.Some? ==> r.value == Extract(response.body.page)
  {
    match response
    case TransportError => None
    case Received(status, body) =>
      if RaisesForStatus(status) then None
      else match body
        case Malformed => None
        case Parsed(page) => Some(Extract(page))
  }

  lemma FixedFieldsLookup(p: DetailPage)
    ensures Lookup(FixedFields(p), "title") == Some(TextOrDefault(p.h1))
    ensures Lookup(FixedFields(p), "price") == Some(TextOrDefault(p.priceColor))
    ensures Lookup(FixedFields(p), "rating") == Some(RatingOf(p.starRating))
    ensures Lookup(FixedFields(p), "stock") == Some(TextOrDefault(p.availability))
    ensures Lookup(FixedFields(p), "description") == Some(DescriptionOf(p.productDescription))
  {
    var r := FixedFields(p);
    assert r[0].0 == "title" && r[1].0 == "price" && r[2].0 == "rating";
    assert r[3].0 == "stock" && r[4].0 == "description";
    assert r[1..][1..][1..][1..] == [r[4]];
  }

  /** A fixed field that no table row names keeps the value of its fixed assignment. */
  lemma FixedFieldKept(p: DetailPage, k: string)
    requires !TableHasKey(TableRows(p), k)
    ensures Lookup(Extract(p), k) == Lookup(FixedFields(p), k)
  {
    LastTableValueFindsKey(TableRows(p), k);
    ApplyRowsLookup(FixedFields(p), TableRows(p), k);
  }

  /** Each fixed field holds its element's stripped text, or "N/A" when the element
      (or, for the description, its paragraph) is missing, unless a table row with the
      same normalised header overwrote it. */
  lemma FixedFieldValues(p: DetailPage)
    ensures !TableHasKey(TableRows(p), "title") ==>
      Lookup(Extract(p), "title") == Some(if p.h1.None? then NotAvailable else Strip(p.h1.value))
    ensures !TableHasKey(TableRows(p), "price") ==>
      Lookup(Extract(p), "price") == Some(if p.priceColor.None? then NotAvailable else Strip(p.priceColor.value))
    ensures !TableHasKey(TableRows(p), "rating") ==>
      Lookup(Extract(p), "rating") == Some(if p.starRating.None? then NotAvailable else FirstRating(p.starRating.value))
    ensures !TableHasKey(TableRows(p), "stock") ==>
      Lookup(Extract(p), "stock") == Some(if p.availability.None? then NotAvailable else Strip(p.availability.value))
    ensures !TableHasKey(TableRows(p), "description") ==>
      Lookup(Extract(p), "description")
      == Some(if p.productDescription.None? || p.productDescription.value.nextParagraph.None? then NotAvailable
              else Strip(p.productDescription.value.nextParagraph.value))
  {
    var rows := TableRows(p);
    FixedFieldsLookup(p);
    if !TableHasKey(rows, "title") { FixedFieldKept(p, "title"); }
    if !TableHasKey(rows, "price") { FixedFieldKept(p, "price"); }
    if !TableHasKey(rows, "rating") { FixedFieldKept(p, "rating"); }
    if !TableHasKey(rows, "stock") { FixedFieldKept(p, "stock"); }
    if !TableHasKey(rows, "description") { FixedFieldKept(p, "description"); }
  }

  /** The reference reading finds a value exactly for the keys some complete row has. */
  lemma {:induction false} LastTableValueFindsKey(rows: seq<Row>, k: string)
    ensures LastTableValue(rows, k).Some? <==> TableHasKey(rows, k)
  {
    if rows != [] {
      LastTableValueFindsKey(rows[..|rows| - 1], k);
      TableHasKeySplit(rows, k);
    }
  }

  /** Fields are read independently: two pages with the same table agree on a fixed
      field whenever they agree on the element that field is read from, whatever the
      other elements hold. */
  lemma FieldsIndependent(p: DetailPage, q: DetailPage)
    requires TableRows(p) == TableRows(q)
    ensures p.h1 == q.h1 ==> Lookup(Extract(p), "title") == Lookup(Extract(q), "title")
    ensures p.priceColor == q.priceColor ==> Lookup(Extract(p), "price") == Lookup(Extract(q), "price")
    ensures p.starRating == q.starRating ==> Lookup(Extract(p), "rating") == Lookup(Extract(q), "rating")
    ensures p.availability == q.availability ==> Lookup(Extract(p), "stock") == Lookup(Extract(q), "stock")
    ensures p.productDescription == q.productDescription ==>
      Lookup(Extract(p), "description") == Lookup(Extract(q), "description")
  {
    FixedFieldsLookup(p);
    FixedFieldsLookup(q);
    forall k | k in FixedKeys
      ensures Lookup(FixedFields(p), k) == Lookup(FixedFields(q), k) ==>
              Lookup(Extract(p), k) == Lookup(Extract(q), k)
    {
      ApplyRowsLookup(FixedFields(p), TableRows(p), k);
      ApplyRowsLookup(FixedFields(q), TableRows(q), k);
    }
  }

  /** The availability text of the unit-test page as the parser returns it: the
      template's line break and indentation around the core text. */
  const SampleStockCore: string := "In stock (10 available)"
  const SampleStock: string := "\n                " + SampleStockCore + "\n            "

  lemma SampleStockSlice()
    ensures SampleStock[17..|SampleStock| - 13] == SampleStockCore
  {
    assert |SampleStock| == 53;
    assert forall k :: 0 <= k < |SampleStockCore| ==> SampleStock[17 + k] == SampleStockCore[k];
  }

  lemma SampleStockStrips()
    ensures Strip(SampleStock) == SampleStockCore
  {
    SampleStockSlice();
    assert !IsSpace(SampleStockCore[0]) && !IsSpace(SampleStockCore[|SampleStockCore| - 1]);
    assert forall k :: 0 <= k < 17 ==> IsSpace(SampleStock[k]);
    assert forall k :: |SampleStock| - 13 <= k < |SampleStock| ==> IsSpace(SampleStock[k]);
    StripIsTheUnpaddedCore(SampleStock, 17, |SampleStock| - 13);
  }

  // The sample lemmas below name their constant through a parameter pinned by a
  // `requires` (`h == "UPC"`, `p == SamplePage`, ...) rather than mentioning it
  // directly: the verifier unfolds functions applied to literals eagerly, and on these
  // strings that exhausts its resource limit.

  /** The table header `UPC` normalises to the key `upc`. */
  lemma SampleKeyNormalizes(h: string)
    requires h == "UPC"
    ensures NormalizeKey(h) == "upc"
  {
    assert Strip(h) == h;
    var l := Lower(h);
    assert l[0] == 'u' && l[1] == 'p' && l[2] == 'c';
    assert l == "upc";
    ReplaceAbsent(l, ' ', '_');
  }

  /** The detail page of the scraper's own unit test: a title, a price, padded stock
      text and one `UPC` table row, with no rating and no description. */
  const SamplePage: DetailPage :=
    DetailPage(Some("Test Book Title"), Some("£12.34"), None, Some(SampleStock), None,
               Some([Row(Some("UPC"), Some("test_upc"))]))

  const SampleFixed: Record :=
    [ ("title", "Test Book Title"), ("price", "£12.34"), ("rating", "N/A"),
      ("stock", SampleStockCore), ("description", "N/A") ]

  lemma SampleFixedFields()
    ensures FixedFields(SamplePage) == SampleFixed
  {
    SampleStockStrips();
    assert Strip("Test Book Title") == "Test Book Title";
    assert Strip("£12.34") == "£12.34";
  }

  /** A table of one complete row adds exactly that row's field to the fixed ones. */
  lemma ExtractOneRow(p: DetailPage, th: string, td: string)
    requires TableRows(p) == [Row(Some(th), Some(td))]
    ensures Extract(p) == Set(FixedFields(p), NormalizeKey(th), Strip(td))
  {
    var rows := TableRows(p);
    var r := FixedFields(p);
    assert rows[..0] == [];
    assert ApplyRows(r, rows) == ApplyRow(ApplyRows(r, []), rows[0]);
  }

  lemma SampleTableRow(p: DetailPage)
    requires p == SamplePage
    ensures Extract(p) == Set(FixedFields(p), "upc", "test_upc")
  {
    SampleKeyNormalizes("UPC");
    assert Strip("test_upc") == "test_upc";
    ExtractOneRow(p, "UPC", "test_upc");
  }

  lemma SampleUpcAppended(r: Record)
    requires r == SampleFixed
    ensures Set(r, "upc", "test_upc") == SampleFixed + [("upc", "test_upc")]
  {
    assert Keys(r) == FixedKeys by { SampleFixedFields(); }
    assert "upc" !in FixedKeys;
    SetNewKeyAppends(r, "upc", "test_upc");
  }

  /** On the unit-test page the extractor yields the five fixed fields, with "N/A" for
      the missing rating and description, followed by the `upc` table field. */
  lemma SampleBookPage(p: DetailPage)
    requires p == SamplePage
    ensures GetBookData(Received(200, Parsed(p))) == Some(SampleFixed + [("upc", "test_upc")])
  {
    SampleTableRow(p);
    SampleFixedFields();
    SampleUpcAppended(FixedFields(p));
  }
}
