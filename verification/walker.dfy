/** `scrape_books` (scraper.py): walks the catalogue's list pages 1, 2, ... and collects
    the record of every linked book. The site is given as the sequence of responses to
    the list-page requests; the detail step is a supplied function from URL to result. */
module Walker {
  import opened Wrappers
  import opened Text
  import opened Records
  import opened Http
  import opened Extractor

  /** The prefix every detail URL is built on. */
  const CatalogueBase: string := "http://books.toscrape.com/catalogue/"

  /** The relative-path marker removed from each `href`. */
  const ParentMarker: string := "../"

  /** The status that ends the walk. */
  const NotFound: int := 404

  /** An `h3 > a` element of a list page; `href` is absent when the anchor has none. */
  datatype Link = Link(href: Option<string>)

  /** A list page as the walker sees it: its `h3 > a` links, in document order. */
  type ListPage = seq<Link>

  /** The responses to `page-1.html`, `page-2.html`, ...; every page past the end of
      the sequence answers 404. */
  type Catalog = seq<Response<ListPage>>

  /** The two ways the walk itself raises (neither is caught inside `scrape_books`):
      the list-page request fails in transport, or a link has no `href`, so that
      `None.replace(...)` raises. */
  datatype WalkError = ListPageUnreachable(page: nat) | MissingHref(page: nat, position: nat)

  /** The response to the request for list page `n`. */
  function PageAt(catalog: Catalog, n: nat): (r: Response<ListPage>)
    requires n >= 1
    ensures n > |catalog| ==> r == Received(NotFound, [])
  {
    if n <= |catalog| then catalog[n - 1] else Received(NotFound, [])
  }

  /** `"http://books.toscrape.com/catalogue/" + href.replace("../", "")`. */
  function DetailUrl(href: string): (url: string)
    ensures |CatalogueBase| <= |url| <= |CatalogueBase| + |href|
    ensures url[..|CatalogueBase|] == CatalogueBase
  {
    CatalogueBase + RemoveAll(href, ParentMarker)
  }

  /** Python's `if book_data:`: a result is kept when it is a non-empty dict. */
  function Kept(result: Option<Record>): (kept: seq<Record>)
    ensures |kept| <= 1
    ensures kept != [] <==> result.Some? && result.value != []
    ensures kept != [] ==> kept[0] == result.value
  {
    if result.Some? && result.value != [] then [result.value] else []
  }

  /** The inner `for` loop from link `j` on: the kept records in link order, or the
      position of the first link without an `href`. */
  function HarvestFrom(links: ListPage, j: nat, detail: string -> Option<Record>): (r: Result<seq<Record>, nat>)
    requires j <= |links|
    ensures r.Failure? ==> j <= r.error < |links| && links[r.error].href.None?
    ensures r.Failure? ==> forall i :: j <= i < r.error ==> links[i].href.Some?
    ensures r.Success? ==> forall i :: j <= i < |links| ==> links[i].href.Some?
    ensures r.Success? ==> |r.value| <= |links| - j
    ensures r.Success? ==> forall i :: 0 <= i < |r.value| ==> r.value[i] != []
    decreases |links| - j
  {
    if j == |links| then Success([])
    else match links[j].href
      case None => Failure(j)
      case Some(href) =>
        match HarvestFrom(links, j + 1, detail)
        case Failure(e) => Failure(e)
        case Success(rest) => Success(Kept(detail(DetailUrl(href))) + rest)
  }

  /** The `while True` loop from page `n` on. */
  function WalkFrom(catalog: Catalog, n: nat, detail: string -> Option<Record>): (r: Result<seq<Record>, WalkError>)
    requires n >= 1
    ensures r.Failure? ==> n <= r.error.page <= |catalog|
    ensures r.Success? ==> forall i :: 0 <= i < |r.value| ==> r.value[i] != []
    decreases |catalog| + 1 - n
  {
    match PageAt(catalog, n)
    case TransportError => Failure(ListPageUnreachable(n))
    case Received(status, links) =>
      if status == NotFound || links == [] then Success([])
      else match HarvestFrom(links, 0, detail)
        case Failure(j) => Failure(MissingHref(n, j))
        case Success(here) =>
          match WalkFrom(catalog, n + 1, detail)
          case Failure(e) => Failure(e)
          case Success(later) => Success(here + later)
  }

  /** The walk of `scrape_books`, starting at page 1. */
  function Walk(catalog: Catalog, detail: string -> Option<Record>): (r: Result<seq<Record>, WalkError>)
    ensures r.Failure? ==> 1 <= r.error.page <= |catalog|
    ensures r.Success? ==> forall i :: 0 <= i < |r.value| ==> r.value[i] != []
  {
    WalkFrom(catalog, 1, detail)
  }

  // ---------------------------------------------------------------------------
  // Reference definition of the walk's result

  function Flatten<T>(ss: seq<seq<T>>): seq<T> {
    if ss == [] then [] else ss[0] + Flatten(ss[1..])
  }

  /** The walk goes on past this page: it answered, not 404, with at least one link. */
  predicate Continues(r: Response<ListPage>) {
    r.Received? && r.status != NotFound && r.body != []
  }

  predicate AllHrefs(links: ListPage) {
    forall j :: 0 <= j < |links| ==> links[j].href.Some?
  }

  /** What one link contributes to the result. */
  function LinkRecords(link: Link, detail: string -> Option<Record>): seq<Record>
    requires link.href.Some?
  {
    Kept(detail(DetailUrl(link.href.value)))
  }

  /** What one list page contributes: the kept records of its links, in link order. */
  function PageRecords(links: ListPage, detail: string -> Option<Record>): seq<Record>
    requires AllHrefs(links)
  {
    Flatten(seq(|links|, j requires 0 <= j < |links| => LinkRecords(links[j], detail)))
  }

  lemma {:induction false} HarvestFromIsFlatten(links: ListPage, j: nat, detail: string -> Option<Record>)
    requires j <= |links| && AllHrefs(links)
    ensures HarvestFrom(links, j, detail)
         == Success(Flatten(seq(|links|, i requires 0 <= i < |links| => LinkRecords(links[i], detail))[j..]))
    decreases |links| - j
  {
    var all := seq(|links|, i requires 0 <= i < |links| => LinkRecords(links[i], detail));
    if j < |links| {
      HarvestFromIsFlatten(links, j + 1, detail);
      assert all[j..][1..] == all[j + 1..];
    }
  }

  /** A page whose links all carry an `href` contributes its reference records. */
  lemma HarvestIsPageRecords(links: ListPage, detail: string -> Option<Record>)
    requires AllHrefs(links)
    ensures HarvestFrom(links, 0, detail) == Success(PageRecords(links, detail))
  {
    HarvestFromIsFlatten(links, 0, detail);
    var all := seq(|links|, i requires 0 <= i < |links| => LinkRecords(links[i], detail));
    assert all[0..] == all;
  }

  /** Pages 1 .. k-1 all continue and have an `href` on every link. */
  predicate CleanPrefix(catalog: Catalog, k: nat) {
    forall n :: 1 <= n < k ==> Continues(PageAt(catalog, n)) && AllHrefs(PageAt(catalog, n).body)
  }

  /** The records of pages 1 .. k-1, page by page. */
  function PrefixRecords(catalog: Catalog, k: nat, detail: string -> Option<Record>): seq<seq<Record>>
    requires k >= 1 && CleanPrefix(catalog, k)
  {
    seq(k - 1, i requires 0 <= i < k - 1 => PageRecords(PageAt(catalog, i + 1).body, detail))
  }

  lemma {:induction false} WalkFromIsFlatten(catalog: Catalog, n: nat, k: nat, detail: string -> Option<Record>)
    requires 1 <= n <= k && CleanPrefix(catalog, k) && !Continues(PageAt(catalog, k))
    ensures PageAt(catalog, k).TransportError? ==> WalkFrom(catalog, n, detail) == Failure(ListPageUnreachable(k))
    ensures PageAt(catalog, k).Received? ==>
      WalkFrom(catalog, n, detail) == Success(Flatten(PrefixRecords(catalog, k, detail)[n - 1..]))
    decreases k - n
  {
    var pages := PrefixRecords(catalog, k, detail);
    if n < k {
      WalkFromIsFlatten(catalog, n + 1, k, detail);
      HarvestIsPageRecords(PageAt(catalog, n).body, detail);
      assert pages[n - 1..][1..] == pages[n..];
    }
  }

  /** The walk's result against its reference: if pages 1 .. k-1 continue and page k
      does not, then a transport failure on page k makes the walk fail, and otherwise
      (page k answered 404 or has no link) the result is the records of pages
      1 .. k-1 concatenated in page order, each in link order. */
  lemma WalkIsPrefixRecords(catalog: Catalog, k: nat, detail: string -> Option<Record>)
    requires k >= 1 && CleanPrefix(catalog, k) && !Continues(PageAt(catalog, k))
    ensures PageAt(catalog, k).TransportError? ==> Walk(catalog, detail) == Failure(ListPageUnreachable(k))
    ensures PageAt(catalog, k).Received? ==> Walk(catalog, detail) == Success(Flatten(PrefixRecords(catalog, k, detail)))
  {
    WalkFromIsFlatten(catalog, 1, k, detail);
    assert PrefixRecords(catalog, k, detail)[0..] == PrefixRecords(catalog, k, detail);
  }

  /** A link without `href` on a page the walk reaches makes the walk raise there, at
      the first such link of that page. */
  lemma {:induction false} WalkFromFailsAtMissingHref(catalog: Catalog, n: nat, k: nat, j: nat,
                                                      detail: string -> Option<Record>)
    requires 1 <= n <= k && CleanPrefix(catalog, k) && Continues(PageAt(catalog, k))
    requires j < |PageAt(catalog, k).body| && PageAt(catalog, k).body[j].href.None?
    requires forall i :: 0 <= i < j ==> PageAt(catalog, k).body[i].href.Some?
    ensures WalkFrom(catalog, n, detail) == Failure(MissingHref(k, j))
    decreases k - n
  {
    if n < k {
      WalkFromFailsAtMissingHref(catalog, n + 1, k, j, detail);
      HarvestIsPageRecords(PageAt(catalog, n).body, detail);
    } else {
      var h := HarvestFrom(PageAt(catalog, k).body, 0, detail);
      assert h.Failure? && h.error == j;
    }
  }

  /** The walk's failure for a missing `href`: if pages 1 .. k-1 continue with an `href`
      on every link and page k continues, then the first link of page k without an
      `href` makes the walk raise, naming that page and position. */
  lemma WalkFailsAtMissingHref(catalog: Catalog, k: nat, j: nat, detail: string -> Option<Record>)
    requires k >= 1 && CleanPrefix(catalog, k) && Continues(PageAt(catalog, k))
    requires j < |PageAt(catalog, k).body| && PageAt(catalog, k).body[j].href.None?
    requires forall i :: 0 <= i < j ==> PageAt(catalog, k).body[i].href.Some?
    ensures Walk(catalog, detail) == Failure(MissingHref(k, j))
  {
    WalkFromFailsAtMissingHref(catalog, 1, k, j, detail);
  }

  lemma {:induction false} WalkFromReadsNoFurther(c1: Catalog, c2: Catalog, n: nat, k: nat, detail: string -> Option<Record>)
    requires 1 <= n <= k
    requires forall m :: 1 <= m <= k ==> PageAt(c1, m) == PageAt(c2, m)
    requires !Continues(PageAt(c1, k))
    ensures WalkFrom(c1, n, detail) == WalkFrom(c2, n, detail)
    decreases k - n
  {
    if n < k {
      WalkFromReadsNoFurther(c1, c2, n + 1, k, detail);
    }
  }

  /** The walk requests no page after the first one that stops it: two catalogues that
      agree up to a stopping page give the same result, whatever follows. */
  lemma WalkReadsNoFurther(c1: Catalog, c2: Catalog, k: nat, detail: string -> Option<Record>)
    requires k >= 1
    requires forall m :: 1 <= m <= k ==> PageAt(c1, m) == PageAt(c2, m)
    requires !Continues(PageAt(c1, k))
    ensures Walk(c1, detail) == Walk(c2, detail)
  {
    WalkFromReadsNoFurther(c1, c2, 1, k, detail);
  }

  // ---------------------------------------------------------------------------
  // The loop as written

  /** The `while True` loop of `scrape_books` with its inner `for` loop, statement by
      statement; a raised exception becomes a `Failure`. It computes the walk. */
  method WalkLoop(catalog: Catalog, detail: string -> Option<Record>)
    returns (r: Result<seq<Record>, WalkError>)
    ensures r == Walk(catalog, detail)
  {
    var books: seq<Record> := [];
    var n: nat := 1;
    PrependNothing(Walk(catalog, detail));
    while true
      invariant 1 <= n <= |catalog| + 1
      invariant Walk(catalog, detail) == Prepend(books, WalkFrom(catalog, n, detail))
      decreases |catalog| + 1 - n
    {
      var response := PageAt(catalog, n);
      if response.TransportError? {
        return Failure(ListPageUnreachable(n));
      }
      if response.status == NotFound {
        break;
      }
      var links := response.body;
      if links == [] {
        break;
      }
      ghost var before := books;
      var j := 0;
      PrependNothing(HarvestFrom(links, 0, detail));
      while j < |links|
        invariant j <= |links|
        invariant |before| <= |books| && books[..|before|] == before
        invariant Prepend(before, HarvestFrom(links, 0, detail)) == Prepend(books, HarvestFrom(links, j, detail))
      {
        match links[j].href {
          case None =>
            return Failure(MissingHref(n, j));
          case Some(href) =>
            var result := detail(DetailUrl(href));
            PrependTwice(books, Kept(result), HarvestFrom(links, j + 1, detail));
            if result.Some? && result.value != [] {
              assert (books + [result.value])[..|before|] == books[..|before|];
              books := books + [result.value];
            } else {
              assert books + [] == books;
            }
        }
        j := j + 1;
      }
      assert HarvestFrom(links, j, detail) == Success([]);
      assert books + [] == books;
      ghost var here := HarvestFrom(links, 0, detail).value;
      assert before + here == books;
      PrependTwice(before, here, WalkFrom(catalog, n + 1, detail));
      n := n + 1;
    }
    assert books + [] == books;
    return Success(books);
  }

  lemma PrependNothing<E>(r: Result<seq<Record>, E>)
    ensures Prepend([], r) == r
  {
    if r.Success? { assert [] + r.value == r.value; }
  }

  lemma PrependTwice<E>(a: seq<Record>, b: seq<Record>, r: Result<seq<Record>, E>)
    ensures Prepend(a, Prepend(b, r)) == Prepend(a + b, r)
  {
    if r.Success? { assert a + (b + r.value) == (a + b) + r.value; }
  }

  /** `acc` followed by the records of `r`, or `r`'s error. */
  function Prepend<E>(acc: seq<Record>, r: Result<seq<Record>, E>): Result<seq<Record>, E> {
    match r
    case Success(rest) => Success(acc + rest)
    case Failure(e) => Failure(e)
  }

  // ---------------------------------------------------------------------------
  // URL resolution

  function Repeat(s: string, k: nat): string {
    if k == 0 then [] else s + Repeat(s, k - 1)
  }

  /** An `href` without the marker is appended to the base unchanged. */
  lemma DetailUrlOfPlainHref(href: string)
    requires !Contains(href, ParentMarker)
    ensures DetailUrl(href) == CatalogueBase + href
  {
    RemoveAllUnchangedIff(href, ParentMarker);
  }

  /** Any number of leading `../` markers is dropped, as on the site's own links
      (`../../../a-light-in-the-attic_1000/index.html`). */
  lemma {:induction false} DetailUrlDropsLeadingMarkers(k: nat, rest: string)
    requires !Contains(rest, ParentMarker)
    ensures DetailUrl(Repeat(ParentMarker, k) + rest) == CatalogueBase + rest
  {
    if k == 0 {
      assert Repeat(ParentMarker, 0) + rest == rest;
      DetailUrlOfPlainHref(rest);
    } else {
      DetailUrlDropsLeadingMarkers(k - 1, rest);
      assert Repeat(ParentMarker, k) + rest == ParentMarker + (Repeat(ParentMarker, k - 1) + rest);
      PrefixIsRemoved(ParentMarker, Repeat(ParentMarker, k - 1) + rest);
    }
  }

  /** Text without a slash holds no `../` marker. */
  lemma NoSlashNoMarker(href: string)
    requires '/' !in href
    ensures !Contains(href, ParentMarker)
  {
    forall i | 0 <= i <= |href|
      ensures !OccursAt(href, i, ParentMarker)
    {
      if i + |ParentMarker| <= |href| {
        assert href[i..i + 3][2] == href[i + 2];
        assert href[i + 2] in href;
      }
    }
  }

  /** The catalogue of the walker's unit test: page 1 lists one book, page 2 answers
      404; the one record the detail step returns for that book is the whole result.
      The catalogue and link are parameters pinned by `requires` so that the verifier
      does not unfold the walk on literal values eagerly. */
  lemma SingleBookCatalog(catalog: Catalog, href: string, detail: string -> Option<Record>, book: Record)
    requires catalog == [Received(200, [Link(Some(href))])]
    requires href == "book_1.html"
    requires detail(CatalogueBase + href) == Some(book) && book != []
    ensures Walk(catalog, detail) == Success([book])
  {
    NoSlashNoMarker(href);
    DetailUrlOfPlainHref(href);
    var links := [Link(Some(href))];
    assert HarvestFrom(links, 1, detail) == Success([]);
    assert Kept(detail(DetailUrl(href))) == [book];
    assert [book] + [] == [book];
    assert HarvestFrom(links, 0, detail) == Success([book]);
    assert WalkFrom(catalog, 2, detail) == Success([]);
    assert PageAt(catalog, 1) == Received(200, links);
    assert 200 != NotFound && links != [];
  }

  /** Removal is a single left-to-right pass: deleting one marker can join the text
      around it into a new marker, which stays in the URL. */
  lemma MarkerCanSurvive()
    ensures DetailUrl("..././x") == CatalogueBase + "../x"
  {
    var s := "..././x";
    assert s[..3] == "..." != ParentMarker;
    assert s[1..][..3] == ParentMarker;
    assert s[1..][3..] == "./x";
    assert "./x"[..3] != ParentMarker;
    assert "/x"[..2] == "/x";
    assert RemoveAll("x", ParentMarker) == "x";
  }

  // ---------------------------------------------------------------------------
  // The whole of scrape_books, with the optional file sink

  /** What happened to `books_data.txt`: not opened, rewritten with one rendered line per
      record, or opening or writing it raised (caught and logged; the file then holds its
      old content if `open()` failed, and an unknown part of the new one otherwise). */
  datatype Sink = Untouched | Rewritten(lines: seq<string>) | WriteFailed

  /** One run's returned list and the sink effect. */
  datatype Run = Run(books: seq<Record>, sink: Sink)

  /** The file sink: only with `is_save`, and a failing write is contained. `render`
      stands for Python's `str(dict)`. */
  function Persist(books: seq<Record>, isSave: bool, writeSucceeds: bool, render: Record -> string): (s: Sink)
    ensures s.Untouched? <==> !isSave
    ensures s.Rewritten? <==> isSave && writeSucceeds
    ensures s.Rewritten? ==> |s.lines| == |books| && forall i :: 0 <= i < |books| ==> s.lines[i] == render(books[i])
  {
    if !isSave then Untouched
    else if writeSucceeds then Rewritten(seq(|books|, i requires 0 <= i < |books| => render(books[i])))
    else WriteFailed
  }

  /** `scrape_books(is_save)`: the walk, then the optional sink. An exception of the walk
      propagates, before anything is written. */
  function ScrapeBooks(catalog: Catalog, detail: string -> Option<Record>, isSave: bool, writeSucceeds: bool,
                       render: Record -> string): (r: Result<Run, WalkError>)
    ensures r.Failure? <==> Walk(catalog, detail).Failure?
    ensures r.Failure? ==> r.error == Walk(catalog, detail).error
    ensures r.Success? ==> r.value.books == Walk(catalog, detail).value
    ensures r.Success? ==> r.value.sink == Persist(r.value.books, isSave, writeSucceeds, render)
  {
    match Walk(catalog, detail)
    case Failure(e) => Failure(e)
    case Success(books) => Success(Run(books, Persist(books, isSave, writeSucceeds, render)))
  }

  /** The returned list does not depend on `is_save` or on whether the write succeeds. */
  lemma SaveDoesNotChangeResult(catalog: Catalog, detail: string -> Option<Record>, render: Record -> string,
                                save1: bool, ok1: bool, save2: bool, ok2: bool)
    ensures ScrapeBooks(catalog, detail, save1, ok1, render).Success?
        <==> ScrapeBooks(catalog, detail, save2, ok2, render).Success?
    ensures ScrapeBooks(catalog, detail, save1, ok1, render).Success? ==>
      ScrapeBooks(catalog, detail, save1, ok1, render).value.books
      == ScrapeBooks(catalog, detail, save2, ok2, render).value.books
  {
  }

  /** The detail step of the program: `get_book_data` on the response its request gets. */
  function FetchAndExtract(fetch: string -> Response<Markup>): string -> Option<Record> {
    url => GetBookData(fetch(url))
  }

  /** With the real extractor every successful record is kept, since it always holds
      the five fixed fields; the truthiness test only drops failures. */
  lemma RealRecordsAreKept(fetch: string -> Response<Markup>, url: string)
    ensures Kept(FetchAndExtract(fetch)(url))
         == if GetBookData(fetch(url)).Some? then [GetBookData(fetch(url)).value] else []
  {
  }
}
