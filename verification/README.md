# Books-to-Scrape crawler, modelled in Dafny

A model of the crawler in `scraper.py` and the daily driver in `run_scheduler.py`.

- **Detail extractor** (`get_book_data`). It reads one book page into a record. The record holds `title`, `price`, `rating`, `stock` and `description`, with `"N/A"` for a missing element. It then adds one field per complete row of the product-information table. A failed request, a 4xx/5xx status or an extraction error gives `None`.
- **Catalogue walker** (`scrape_books`). It requests list pages 1, 2, … until a page answers 404 or has no `h3 > a` link. It resolves each link to a detail URL, runs the extractor on it, and collects the non-empty results in page order, then link order. It can optionally write the records to `books_data.txt`.
- **Scheduler** (`run_scheduler.py`). It registers one daily 19:00 job that runs the walk with saving on and catches any exception. Its loop polls every hour, then every 5 minutes during 18:00–18:54, then every 10 seconds from 18:55.

The parts Python gets from libraries appear here as values:

- An HTTP response is `Http.Response<B>`: either `Received(status, body)` or `TransportError`.
- A parsed detail page is `Extractor.DetailPage`. It holds the optional texts of the elements the code looks up, the star-rating class list, the description marker with its following paragraph, and the table rows, each with an optional `th` and `td`.
- The catalogue is `Walker.Catalog`, the sequence of list-page responses. Every page past its end answers 404.
- The record is `Records.Record`, an association list in insertion order. Assigning to it follows Python `dict` semantics: a key already present keeps its position and takes the new value.
- Time is absolute seconds. The local time of day is that number modulo 86400.

Modules: `Wrappers` (Option, Result), `Text` (strip, lower, replace), `Http`, `Records`, `Extractor`, `Walker`, `Scheduler`.

Behaviour of the code worth knowing when reading the contracts:

- Only a list-page status of exactly 404 ends the walk (scraper.py:109); any other status is parsed like a normal page.
- Of the statuses, only 400–599 make a detail response fail (`raise_for_status`, scraper.py:26); a 1xx, 3xx or 600+ final status is parsed like a 200. Independently of the status, markup on which extraction raises also gives `None` (scraper.py:81-83). The unit test's stand-in response raises for every status ≥ 400.
- Failure of a detail request is reported as `None` (scraper.py:78-83), whatever its cause.
- Two failures inside the walk are not caught there; `Walker.WalkError` models both. One is a transport error on a list-page request (scraper.py:106 has no `try`). The other is an `h3 > a` without `href`, where `None.replace(...)` raises (scraper.py:122-123). Either exception reaches `job_with_save`, which logs it (`Scheduler.RunJob`).
- A table row whose normalised header is a fixed field name, such as `Title`, overwrites that fixed field in place (`d[k] = v`). So a fixed field equals `"N/A"` exactly when its element is missing only if no table row names it. `Extractor.FixedFieldValues` states it with that condition.

## Model

| member | source | states |
|---|---|---|
| Text.Strip | scraper.py:36 | `str.strip()`: the result is no longer than the input and has no whitespace at either end; a string with no whitespace at its ends is returned unchanged |
| Text.StripIsTheUnpaddedCore | scraper.py:36 | for any cut of a string into blank margins around a middle with no whitespace at its ends, `strip()` returns exactly that middle |
| Text.NormalizeKeyShape | scraper.py:73 | a header normalised by strip/lower/replace(' ', '_') has no space, no upper-case ASCII letter, no whitespace at its ends, and is no longer than the header |
| Text.NormalizeKeyIdempotent | scraper.py:73 | normalising an already normalised key leaves it unchanged |
| Text.Lower | scraper.py:73 | `lower()` keeps the length and maps each character by itself, upper-case ASCII letters to lower case |
| Text.ReplaceChar | scraper.py:73 | `replace(' ', '_')` keeps the length, puts `_` exactly where a space was and keeps every other character |
| Text.RemoveAll | scraper.py:123 | `replace('../', '')` never lengthens the string |
| Text.RemoveAllUnchangedIff | scraper.py:123 | `replace('../', '')` leaves a string unchanged if and only if the marker does not occur in it |
| Text.PrefixIsRemoved | scraper.py:123 | a leading marker is deleted and the scan continues after it |
| Records.Set | scraper.py:74 | dict assignment: the key then maps to the new value, every other key keeps its value, an existing key keeps its position and a new key is appended last |
| Records.SetKeepsKeysDistinct | scraper.py:74 | assignment never stores a key twice |
| Records.SetNewKeyAppends | scraper.py:74 | assigning a key the record lacks appends exactly that entry |
| Extractor.FirstRating | scraper.py:43-50 | the rating is a class from {One..Five} or "N/A"; "N/A" exactly when no class is a rating word; otherwise it is the first rating class in list order |
| Extractor.FixedFields | scraper.py:32-63 | the five fixed fields are inserted in the order title, price, rating, stock, description, once each |
| Extractor.ApplyRows | scraper.py:66-74 | the table loop adds at most one entry per row and removes none |
| Extractor.ApplyRow | scraper.py:68-74 | one iteration adds at most one entry and removes none, and adds one only for a row with both `th` and `td` |
| Extractor.ApplyRowsLookup | scraper.py:66-74 | after the table loop a key holds the stripped value of the last complete row whose normalised header equals it, and keys no row names keep their earlier value |
| Extractor.ApplyRowsKeepsOrder | scraper.py:66-74 | the table loop keeps every earlier key at its position and never duplicates a key |
| Extractor.ApplyRowsKeySet | scraper.py:66-74 | a key is present after the table loop exactly when it was before or some row with both `th` and `td` normalises to it; rows lacking a cell add nothing |
| Extractor.ApplyRowsPrefixKeys | scraper.py:66-74 | the table loop only appends keys: the keys after any first rows of the table are a prefix of the final keys, so a key repeated by later rows keeps the position of the row that first set it, and new keys follow table row order |
| Extractor.Extract | scraper.py:32-76 | every extracted record has distinct keys and begins with the five fixed keys in order |
| Extractor.GetBookData | scraper.py:23-83 | a record is returned exactly when the request answered, `raise_for_status` passed and extraction did not raise; that record is the extraction of the page |
| Extractor.FixedFieldValues | scraper.py:34-63 | unless a table row overrides it, each fixed field is "N/A" when its element (or the paragraph after the description marker) is missing and the element's stripped text (for rating, the first rating class) when present |
| Extractor.FieldsIndependent | scraper.py:34-63 | two pages with the same table agree on a fixed field whenever they agree on that field's element, whatever the other elements hold |
| Extractor.SampleBookPage | tests/test_scraper.py:82-118 | the unit-test page yields title, price, "N/A" rating, stripped stock, "N/A" description, then `upc`, in that order |
| Walker.Kept | scraper.py:126-127 | `if book_data:` keeps at most one record, exactly when the result is a non-empty dict, and then keeps that dict |
| Walker.DetailUrl | scraper.py:123 | a detail URL is the catalogue base followed by at most the `href`'s own characters |
| Walker.HarvestFrom | scraper.py:121-129 | the link loop fails at the first link without `href` and at no other; on success every link has an `href`, at most one record per link is collected and none is empty |
| Walker.HarvestIsPageRecords | scraper.py:121-129 | a page's contribution is the concatenation, in link order, of each link's non-empty detail result for the URL built from its `href` |
| Walker.WalkFrom | scraper.py:102-131 | the `while True` loop from page n: an exception names a page between n and the end of the catalogue, and every collected record is non-empty |
| Walker.Walk | scraper.py:100-131 | the walk from page 1: an exception names a page of the catalogue, and every returned record is non-empty |
| Walker.WalkIsPrefixRecords | scraper.py:102-131 | if pages 1..k-1 continue with an `href` on every link and page k does not continue, the walk fails on a transport error at page k and otherwise returns pages 1..k-1's contributions concatenated in page order; only status 404 or an empty link list stops it |
| Walker.WalkFailsAtMissingHref | scraper.py:102-131 | if pages 1..k-1 continue with an `href` on every link and page k continues, the first link of page k without an `href` makes the walk raise, naming page k and that link's position |
| Walker.WalkReadsNoFurther | scraper.py:104-118 | no page after the first stopping page is read: catalogues agreeing up to it give the same result |
| Walker.WalkLoop | scraper.py:100-131 | the imperative `while True` / `for` loop returns exactly the walk's result, including its exceptions |
| Walker.DetailUrlOfPlainHref | scraper.py:123 | an `href` without `../` is appended to the catalogue base unchanged |
| Walker.DetailUrlDropsLeadingMarkers | scraper.py:123 | any number of leading `../` markers before a marker-free rest is dropped |
| Walker.MarkerCanSurvive | scraper.py:123 | single-pass removal can leave a marker: `..././x` resolves to the base followed by `../x` |
| Walker.SingleBookCatalog | tests/test_scraper.py:28-72 | one link on page 1 and a 404 on page 2 give exactly the one record the detail step returns |
| Walker.Persist | scraper.py:133-141 | a write is attempted exactly when `is_save` is set; the file is rewritten exactly when saving is on and the write succeeds, and then holds one rendered line per record, in order |
| Walker.ScrapeBooks | scraper.py:87-144 | `scrape_books` raises exactly when the walk does, with the walk's error; otherwise it returns the walk's records, and the sink effect is that of the optional write of those records |
| Walker.SaveDoesNotChangeResult | scraper.py:133-144 | the returned list is the same whatever `is_save` is and whether or not the write fails |
| Walker.RealRecordsAreKept | scraper.py:124-127 | with the real extractor, the truthiness test drops only `None` results, never a record |
| Scheduler.SleepSeconds | run_scheduler.py:31-37 | the sleep is 10 s exactly at 18:55–18:59, 300 s exactly at 18:00–18:54, 3600 s exactly in every other hour |
| Scheduler.SleepShrinksTowardTrigger | run_scheduler.py:32-35 | within hour 18 the sleep never grows as the minute grows |
| Scheduler.NoSleepOvershoots | run_scheduler.py:31-37 | a sleep starting before 19:00 ends before 19:00:10 |
| Scheduler.StepStaysInWindow | run_scheduler.py:29-37 | from any poll before 19:00 of a given day, even on an earlier day, the next poll comes before 19:00:10 of that day |
| Scheduler.SleepsUntilTrigger | run_scheduler.py:23-37 | from any poll before 19:00:10 of a given day, the polls reach that day's [19:00:00, 19:00:10) window, and every earlier poll is before 19:00 |
| Scheduler.RunJob | run_scheduler.py:14-18 | a walk exception is caught and logged, never propagated; otherwise the run's records are the walk's, and a write is attempted exactly when the job saves |
| Scheduler.Startup | run_scheduler.py:21-23 | whatever was registered before, exactly one entry remains: daily at 19:00, running `job_with_save`, which saves |

## Left out

- HTTP transport. Responses are given values. The timeouts are not modelled: detail requests pass `timeout=5` (scraper.py:25) and list-page requests pass none (scraper.py:106), so a stalled list page can block the walk indefinitely. This asymmetry is kept in the code and noted here, not resolved.
- HTML parsing (BeautifulSoup selection, `find_next_sibling`, `.text`). A parsed page is given as `DetailPage` / `ListPage`; markup on which extraction raises is `Markup.Malformed`.
- Unicode case mapping. `lower()` is modelled on ASCII letters only; `strip()` uses Python's full whitespace set.
- `time.sleep(1)` between items, all `print` logging, and `time.ctime` timestamps have no effect on results.
- Python's `str(dict)` rendering. It is an opaque `render` parameter. The file content after a failed write is unknown (`Sink.WriteFailed`): the model does not tell a failing `open()`, which leaves the file as it was, from a failure during writing.
- The `schedule` library's bookkeeping. Its next-run computation, its running of overdue jobs, and the time spent inside `run_pending` and inside the job are not modelled. The polling lemmas assume each poll starts when the previous sleep ends.
- Local time. Time zones, daylight-saving changes and leap seconds are not modelled; a day is 86400 seconds.
- The `KeyboardInterrupt` shutdown path (run_scheduler.py:38-39), which is a process signal.
- Scheduler.SleepsUntilTrigger: this shows that a poll lands in the window. Whether `schedule` then runs the job on that poll depends on its next-run bookkeeping, which is left out.
