# books.toscrape.com loader and ML feature processor, in Dafny

This project models two sequential pieces of a small book-catalogue system.

**The loader** is `books_data/loader_data.py`. It does four things:

- It walks the listing pages of `https://books.toscrape.com/`: the seed page first, then `catalogue/page-2.html`, `page-3.html` and so on. On each page it appends the `product_pod` links to a module-level list. The walk stops at the first page without a `li.next` pager item, or at the first request that does not answer 200.
- It repairs every collected link. A link without `catalogue/` gets its leading `.` and `/` characters stripped and `catalogue/` put in front.
- It resolves the repaired link against the root with `urljoin`.
- It reads nine fields off each book page and writes one row per book into the `livros` table with `INSERT OR REPLACE`, keyed by the UPC. If any field cannot be read, the page raises and nothing is written.

**The ML processor** is `ml/data_processor.py`. It turns the stored rows into features:

- a category mapping, from the sorted distinct categories to their ranks;
- a review score decoded from the rating word, 0 by default;
- a budget/mid/premium price bucket;
- the title length and word count;
- a `target_popular` label;
- the dataset counts: the label split and the review-score distribution.

## Modules

- `Text`:
  - Python's `str.strip`, `lstrip(chars)`, `in` and `split()`;
  - `replace(pat, '')`;
  - ASCII digits and their values.
- `StrOrder`: Python's ordering of `str`, which `sorted` uses.
- `Scan`: `re.search(r'\d+\.\d+')`, `re.search(r'\d+')` and `int()` on the texts the loader reads.
- `Uri`: reference resolution per RFC 3986, the algorithm `urljoin` follows. It covers:
  - splitting a reference (RFC 3986 Appendix B);
  - resolution (RFC 3986 section 5.2.2);
  - merging paths (RFC 3986 section 5.2.3);
  - dot-segment removal (RFC 3986 section 5.2.4);
  - recomposition (RFC 3986 section 5.3).
- `Listing`: the listing site as a finite sequence of pages, and the walk over it as a function.
- `Links`: the link repair and its resolution against the root.
- `BookPage`: field extraction from the already located elements of a detail page.
- `Store`: the `livros` table as a map from UPC to row, and `INSERT OR REPLACE` as a map update.
- `Loader`: the script's state, its link list and its table, as a class. Its methods are the walk loop, the per-link loop and the book visit, each proved against the functions above.
- `Rows`: a stored row as the ML processor reads it.
- `Categories`: `_create_category_mapping`.
- `Features`: the per-row features, the training-record fields, the limit slice and the counts.
- `Processor`: the `MLDataProcessor` class, with its `category_mapping` field and the two dataset loops.

## Model

| member | source | states |
|---|---|---|
| Listing.Fetch | books_data/loader_data.py:46-52 | The site is finite: any request before the first or past the last page is answered 404 |
| Listing.FindNext | books_data/loader_data.py:102 | The index found is the first list item whose classes hold `next`; none is found exactly when no item holds it |
| Listing.HasNextPage | books_data/loader_data.py:100-108 | `verificar_paginacao`; its meaning is stated by `HasNextPageIffNextItem` |
| Listing.HasNextPageIffNextItem | books_data/loader_data.py:100-108 | `verificar_paginacao` is true exactly when some `li` of the page has class `next` |
| Listing.WalkFrom | books_data/loader_data.py:43-74 | The walk terminates, making at least one request and at most one past the last page |
| Listing.RequestedUrls | books_data/loader_data.py:64-67 | One address per request, as many as requests were made |
| Listing.RequestedUrlsAre | books_data/loader_data.py:64-67 | The first request goes to the seed; request `i+1` goes to `catalogue/page-(i+1).html` |
| Listing.PageUrlInjective | books_data/loader_data.py:37 | Different page numbers give different addresses |
| Listing.RequestedUrlsDistinct | books_data/loader_data.py:64-67 | No address is requested twice, so one fetch per page in increasing page order |
| Listing.WalkStopsAtFirstLastPage | books_data/loader_data.py:63-74 | Every page before the last one requested answered 200 with a next item. The last one failed or had no next item. The walk is completed exactly when that last page answered 200 |
| Listing.WalkLinksArePageLinks | books_data/loader_data.py:57-61 | The collected links are the concatenation, in page order, of the links of the requested pages that answered 200; a failed page adds none |
| Loader.Loader.constructor | books_data/loader_data.py:39 | The link list starts empty; the table keeps its earlier rows |
| Loader.Loader.CollectLinks | books_data/loader_data.py:43-74 | The list grows by exactly the walk's links, in order. The method reports whether the walk completed, and `requested` lists the addresses fetched in order |
| Loader.Loader.AppendLinks | books_data/loader_data.py:59-61 | A page's links are appended in document order and nothing else changes |
| Text.Strip | books_data/loader_data.py:84 | The stripped text starts and ends with non-whitespace and is empty exactly for an all-whitespace text |
| Text.StripTrimsEnds | books_data/loader_data.py:89 | `strip()` keeps a contiguous window of the text and removes only whitespace on either side |
| Text.LStrip | books_data/loader_data.py:119 | `lstrip(chars)` removes a prefix made only of `chars` and stops at a character outside them |
| Links.FixLink | books_data/loader_data.py:118-119 | The repaired link always holds `catalogue/`. It is the link itself exactly when the link already held `catalogue/`; otherwise it is `catalogue/` followed by the link with its leading `.`/`/` characters removed |
| Links.FixLinkIdempotent | books_data/loader_data.py:118-119 | The repaired link always holds `catalogue/`, so repairing twice is repairing once |
| Links.ParseSiteRoot | books_data/loader_data.py:36 | The root splits into scheme `https`, authority `books.toscrape.com` and path `/` |
| Links.CatalogueRefIsRelative | books_data/loader_data.py:119 | `catalogue/` followed by anything is a path-only reference, with no scheme and no authority |
| Links.NormalizeLink | books_data/loader_data.py:118-122 | The address the loop visits for a collected link; stated by `NormalizeStaysOnSite` and `NormalizePlainLink` |
| Links.NormalizeStaysOnSite | books_data/loader_data.py:118-122 | A repaired link that lacked `catalogue/` always resolves to an address under the root |
| Links.NormalizePlainLink | books_data/loader_data.py:118-122 | For a plain link (no `?`, `#`, dot segment, empty segment, tab, CR or LF) the visited address is the root, then `catalogue/`, then the stripped link |
| Links.PrefixedPlainJoin | books_data/loader_data.py:122 | Joining a plain relative path without empty segments, tabs, CRs or LFs to a root appends it |
| Uri.Parse | books_data/loader_data.py:122 | Every component found is free of the delimiters that end it |
| Uri.ParseRecompose | books_data/loader_data.py:122 | Recomposing the parsed components gives back the original string |
| Uri.RecomposeParse | books_data/loader_data.py:122 | Parsing a recomposed well-formed reference gives back its components |
| Uri.ParseIsWellFormed | books_data/loader_data.py:122 | Every parsed reference is well formed |
| Uri.Resolve | books_data/loader_data.py:122 | The target takes the reference's scheme, authority and query, or the base's where absent, and always the reference's fragment |
| Uri.Directory | books_data/loader_data.py:122 | The directory is the prefix of the path up to and including its last `/` |
| Uri.Merge | books_data/loader_data.py:122 | Against a base with an authority and an absolute path, the merged path is absolute |
| Uri.RemoveLastSegment | books_data/loader_data.py:122 | Removing the last segment keeps a prefix and drops exactly the text from the last `/` |
| Uri.DotRulesNeedDotSegment | books_data/loader_data.py:122 | The dot-removal rules fire only when the buffer starts with a `.` or `..` segment |
| Uri.DotFreeUnchanged | books_data/loader_data.py:122 | A path without dot segments passes through dot-segment removal unchanged |
| Uri.KeepsLeadingSlash | books_data/loader_data.py:122 | Dot-segment removal keeps an absolute path absolute |
| Uri.RelativeResolvesAbsolute | books_data/loader_data.py:122 | A path-only reference keeps the base's scheme and authority and gets an absolute path |
| Uri.DotFreeRelativeAppends | books_data/loader_data.py:122 | A relative path whose merge has no dot segments resolves to the merged path itself |
| Uri.ResolveUnderRoot | books_data/loader_data.py:122 | Resolving a path-only reference against a root stays under that root |
| Uri.ResolvePlainUnderRoot | books_data/loader_data.py:122 | A plain relative path is appended to the root |
| Uri.Clean | books_data/loader_data.py:122 | What `urlsplit` reads of a reference has no tab, CR or LF and does not start with a control character or space |
| Uri.CleanUnchanged | books_data/loader_data.py:122 | A reference with nothing to strip or delete is read as it is |
| Uri.CleanAfterPrefix | books_data/loader_data.py:122 | A clean prefix is kept; the rest only loses its tabs, CRs and LFs |
| Uri.Join | books_data/loader_data.py:122 | `urljoin(base, ref)`: the cleaned reference resolved against the base; stated by `JoinUnderRoot` and `JoinPlainUnderRoot` |
| Uri.JoinUnderRoot | books_data/loader_data.py:122 | `urljoin(root, ref)` for a `ref` that is path-only once cleaned starts with the root |
| Uri.JoinPlainUnderRoot | books_data/loader_data.py:122 | `urljoin(root, ref)` for a plain relative `ref` without empty segments, tabs, CRs, LFs or a leading control character or space is the root followed by `ref` |
| Scan.DigitRunEnd | books_data/loader_data.py:89 | The run found is all digits and maximal |
| Scan.SearchDecimal | books_data/loader_data.py:86 | A match returned starts at or after the search start and is a match of `\d+\.\d+` there |
| Scan.SearchDecimalIsLeftmost | books_data/loader_data.py:86 | The match is digits, a dot and digits, greedy, and leftmost. Nothing is found exactly when no substring matches |
| Scan.ParsePrice | books_data/loader_data.py:86 | A parsed price is never negative |
| Scan.PriceIsLeftmostDecimal | books_data/loader_data.py:86 | A price read is the value of the leftmost substring that is digits, a dot and digits, with the fraction digits taken to the end of their run |
| Scan.ParsePriceIffToken | books_data/loader_data.py:86 | A price is read exactly when some substring of the text is digits, a dot and digits |
| Scan.SearchDigits | books_data/loader_data.py:89 | The match is the first digit and its maximal run; nothing is found exactly when the text has no digit |
| Scan.SearchDigitsUnique | books_data/loader_data.py:89 | The first maximal digit run is the only thing the search can return |
| Scan.ParseStock | books_data/loader_data.py:89 | The stock read from the availability text; stated by `StockIsFirstDigitRun` and `ParseStockSearchesText` |
| Scan.ParseStockSearchesText | books_data/loader_data.py:89 | Stripping before the search does not change the stock read |
| Scan.StockIsFirstDigitRun | books_data/loader_data.py:89 | A stock read is the value of the first maximal digit run of the raw text; there is none exactly when the text has no digit |
| Scan.ParseInt | books_data/loader_data.py:94 | Python's `int()` on the review count; stated by `ParseIntOfNatToString` and `ParseIntNeedsDigit` |
| Scan.ParseIntOfNatToString | books_data/loader_data.py:94 | `int(str(n)) == n` |
| Scan.ParseIntNeedsDigit | books_data/loader_data.py:94 | `int()` of a text without a digit fails |
| BookPage.FirstFailing | books_data/loader_data.py:82-94 | The step reported fails and every earlier step passes; none is reported exactly when all pass |
| BookPage.ReadableIffAllSteps | books_data/loader_data.py:82-94 | A page is readable exactly when every extraction step can read its field |
| Text.RemoveAll | books_data/loader_data.py:83 | `replace(pat, '')`: never longer than the text; its use on `../` is stated by `BookPage.ImageUrlOfRelative` |
| BookPage.ImageUrl | books_data/loader_data.py:83 | The cover address; stated by `ImageUrlUnderRoot` and `ImageUrlOfRelative` |
| BookPage.ImageUrlUnderRoot | books_data/loader_data.py:83 | Every cover address starts with the root |
| BookPage.ImageUrlOfRelative | books_data/loader_data.py:83 | A `src` of `../` steps followed by a path without `../` gives the root followed by that path |
| BookPage.Assemble | books_data/loader_data.py:82-98 | The row built from a readable page; stated by `AssembledColumns`, `AssembledNumbers` and `ExtractBookOutcome` |
| BookPage.AssembledColumns | books_data/loader_data.py:82-94 | The cover address lies under the site root. The category is breadcrumb item 2, stripped, and the rating is class token 1, stored undecoded. The euro price is non-negative and the reais price is 6.35 times it |
| BookPage.AssembledNumbers | books_data/loader_data.py:86-89 | The euro price is the value of the leftmost decimal token of the price text; the stock is the value of the first digit run of the availability text |
| BookPage.ExtractBook | books_data/loader_data.py:76-94 | A row is produced exactly when every step can read its field |
| BookPage.ExtractBookOutcome | books_data/loader_data.py:82-94 | A readable page yields its assembled row. Any other page fails at a step that cannot read its field, and every earlier step has read its own |
| BookPage.ShortBreadcrumbFails | books_data/loader_data.py:84 | A breadcrumb with fewer than three items fails the page, at the category step or earlier |
| Store.Upsert | books_data/loader_data.py:96-98 | The keys gain the book's UPC, the row under it is the book, and every other row is unchanged |
| Store.InsertOrReplace | books_data/loader_data.py:26-29 | The insert succeeds exactly when the stock and review count fit the 32-bit `INTEGER` columns; it then upserts the book and keeps every row fitting |
| Store.UpsertKeepsKeys | books_data/loader_data.py:20 | After an upsert every row is filed under its own UPC, and only one row holds the book's UPC |
| Store.UpsertIdempotent | books_data/loader_data.py:96-98 | Repeating an upsert changes nothing |
| Store.LastWith | books_data/loader_data.py:96-98 | The book found is one of the books and holds the UPC; none is found exactly when no book holds it |
| Store.LastWithIsLast | books_data/loader_data.py:96-98 | The book found is the last one written under its UPC: no later book holds that UPC |
| Store.UpsertAll | books_data/loader_data.py:116-130 | The books upserted in order; stated by `UpsertAllKeys`, `UpsertAllRow` and `UpsertAllTwice` |
| Store.UpsertAllKeys | books_data/loader_data.py:116-130 | After a run of upserts the keys are the old keys plus the UPCs written |
| Store.UpsertAllRow | books_data/loader_data.py:116-130 | After a run of upserts a UPC's row is the last book written under it, or the old row |
| Store.UpsertAllTwice | books_data/loader_data.py:116-130 | Writing the same books again in the same order changes nothing |
| Loader.IngestOne | books_data/loader_data.py:116-130 | One pass of the main loop on the table; stated by `IngestOneKeepsFit`, `IngestIsUpsertAll` and `CollectBookAttributes` |
| Loader.IngestAll | books_data/loader_data.py:116-130 | The main loop on the table; stated by `IngestIsUpsertAll`, `IngestRows`, `IngestTwice` and `IngestAllKeepsFit` |
| Loader.IngestIsUpsertAll | books_data/loader_data.py:116-130 | Visiting the links in order upserts, in order, the books that could be extracted and whose integer columns fit; failed pages and failed inserts leave no trace |
| Loader.IngestOneKeepsFit | books_data/loader_data.py:96-98 | A visit never stores a row whose integer columns overflow |
| Loader.IngestAllKeepsFit | books_data/loader_data.py:116-130 | After the visits every row still fits the `INTEGER` columns |
| Loader.IngestRows | books_data/loader_data.py:116-130 | After the visits a UPC's row is the last book written under it, or the old row. Rows stay keyed by UPC and every row fits its columns |
| Loader.IngestTwice | books_data/loader_data.py:116-130 | Running the visits a second time over the same pages changes nothing |
| Loader.Loader.CollectBookAttributes | books_data/loader_data.py:76-98 | The book is upserted exactly when every step succeeds and its stock and review count fit 32 bits; otherwise the table is unchanged |
| Loader.Loader.VisitLink | books_data/loader_data.py:117-130 | The link is repaired, resolved against the root and its page visited; the table changes only by that page's row |
| Loader.Loader.VisitAll | books_data/loader_data.py:116-130 | Every collected link is visited in order; the table is the result of ingesting them all |
| Loader.Loader.Run | books_data/loader_data.py:110-130 | The walk from the root, then a visit to every collected link |
| StrOrder.Less | ml/data_processor.py:52 | Python's `<` on `str`; stated by `LessTransitive`, `LessTotal` and `LessAsymmetric` |
| StrOrder.LessTransitive | ml/data_processor.py:52 | The string order `sorted` uses is transitive |
| StrOrder.LessTotal | ml/data_processor.py:52 | Of two different strings one sorts first |
| StrOrder.LessAsymmetric | ml/data_processor.py:52 | No two strings each sort before the other |
| Categories.Insert | ml/data_processor.py:52 | Inserting keeps the list strictly sorted, adds exactly the new string, and grows it by one unless the string was there |
| Categories.Sorted | ml/data_processor.py:51-52 | The list is strictly ascending and holds exactly the non-empty categories present |
| Categories.SortedUnique | ml/data_processor.py:52 | Only one strictly sorted list holds a given set, so `Sorted` is `sorted(set(...))` |
| Categories.PresentSnoc | ml/data_processor.py:51 | One more row adds its category when it is truthy and nothing otherwise |
| Categories.CreateMapping | ml/data_processor.py:49-52 | `_create_category_mapping`; stated by `MappingKeys`, `MappingRank`, `MappingRange`, `MappingInjective` and `MappingOrder` |
| Categories.MappingKeys | ml/data_processor.py:49-52 | The mapping's keys are exactly the distinct non-empty categories |
| Categories.MappingRank | ml/data_processor.py:52 | Each category's code is its position in the sorted list, below the number of categories |
| Categories.MappingRange | ml/data_processor.py:52 | The codes are exactly `0..n-1`, where `n` is the number of distinct categories |
| Categories.MappingInjective | ml/data_processor.py:52 | Different categories get different codes |
| Categories.MappingOrder | ml/data_processor.py:52 | A category sorts before another exactly when its code is smaller |
| Categories.Encode | ml/data_processor.py:73 | `category_mapping.get(categoria, 0)`; stated by `MissingEncodesAsFirst` and `EncodeInRange` |
| Categories.MissingEncodesAsFirst | ml/data_processor.py:73 | A category outside the mapping is encoded as 0, the code of the least category |
| Categories.EncodeInRange | ml/data_processor.py:233 | Every encoded category is a rank or 0 |
| Features.ReviewScore | ml/data_processor.py:86 | The decoded score lies within 0..5 |
| Features.ReviewRoundTrip | ml/data_processor.py:14-16 | Each rating word decodes to its score, and a non-zero score comes only from its rating word; anything else, `None` included, is 0 |
| Features.Bucket | ml/data_processor.py:92-97 | The price bucket; stated by `BucketMonotone` and `BucketIsDeclaredRange` |
| Features.BucketMonotone | ml/data_processor.py:92-97 | A dearer book never lands in a cheaper bucket |
| Features.BucketIsDeclaredRange | ml/data_processor.py:17-21 | For a positive price the bucket is the declared range holding it, open below and closed above |
| Features.WordCount | ml/data_processor.py:70 | The word count is at most the title length and is 0 exactly for an empty or all-whitespace title |
| Text.Words | ml/data_processor.py:70 | `split()` gives non-empty whitespace-free words; there are none exactly when the text is all whitespace |
| Text.WordCountIsWordStarts | ml/data_processor.py:70 | The word count is the number of non-whitespace characters that start the text or follow whitespace |
| Text.WordsKeepAllNonSpace | ml/data_processor.py:70 | The words, concatenated, are the text without its whitespace |
| Features.ExtractFeatures | ml/data_processor.py:62-110 | A feature row is produced exactly when the UPC and the category are present |
| Features.FeatureColumns | ml/data_processor.py:68-97 | The title length is the title's, and the word count is within it and 0 exactly for a blank title. The score is within 0..5, the category code is a rank or 0, and the bucket is the euro price's |
| Features.MakeRecord | ml/data_processor.py:209-242 | A training record is produced exactly when the UPC and the category are present |
| Features.TargetPopular | ml/data_processor.py:218 | The popularity label; stated by `PopularIffRatedAndCheap` |
| Features.PopularIffRatedAndCheap | ml/data_processor.py:218 | `target_popular` holds exactly for rating `Four` or `Five` with a euro price at most the median |
| Features.CallSitesAgree | ml/data_processor.py:211-238 | Both endpoints skip the same rows and derive the same UPC, category, title length, word count, category code and score; the bucket test the training loop writes out at line 237 gives the same bucket as the one at lines 92-97 |
| Features.SliceEnd | ml/data_processor.py:119 | The slice end never passes the row count |
| Features.ApplyLimit | ml/data_processor.py:118-119 | The rows kept are a prefix of the rows, in order |
| Features.LimitKeeps | ml/data_processor.py:189-190 | A missing or zero limit keeps all rows; a positive one keeps `min(limit, n)`; a negative one drops that many from the end |
| Features.FeaturesOf | ml/data_processor.py:134-141 | The features loop on values; stated by `AcceptedCount`, `RecordCounts` and `GetFeatures` |
| Features.RecordsOf | ml/data_processor.py:208-246 | The training-records loop on values; stated by `RecordCounts`, `RecordScoresBounded` and `CallSitesAgree` |
| Features.AcceptedCount | ml/data_processor.py:134-141 | No more rows are accepted than were kept |
| Features.RecordCounts | ml/data_processor.py:161-162 | `total_records` is the number of accepted rows, the same in both endpoints |
| Features.RecordScoresBounded | ml/data_processor.py:215 | Every training record's score lies within 0..5 |
| Features.CountPopular | ml/data_processor.py:249 | `total_popular`; stated by `PopularSplit` |
| Features.PopularSplit | ml/data_processor.py:249-255 | `popular` is at most the record count, and `len - popular` is the number of records labelled not popular |
| Features.CountScore | ml/data_processor.py:264 | The count of records with one score; stated by `ReviewDistribution` and `DistributionCoversRecords` |
| Features.ReviewDistribution | ml/data_processor.py:263-266 | Six counts, one per score 0..5, each the number of records with that score |
| Features.DistributionCoversRecords | ml/data_processor.py:263-266 | The review distribution sums to the record count |
| Processor.MLDataProcessor.constructor | ml/data_processor.py:12-13 | A new processor has an empty category mapping |
| Processor.MLDataProcessor.GetFeatures | ml/data_processor.py:112-162 | The mapping is rebuilt from the kept rows; one feature per accepted row, in order; `total_records` counts them and is at most the rows kept |
| Processor.MLDataProcessor.GetTrainingData | ml/data_processor.py:183-267 | The mapping is rebuilt and one record is made per accepted row, in order. The popular and not-popular counts add up to the total. The review distribution counts each score and sums to the total |

## Notable behaviour of the code

- **Detail-page status:** `coleta_atributos_livro` does not check the status of a detail-page response; it parses whatever came back. A page that lacks a field raises and stores nothing, whatever its status.
- **Rating:** the loader stores the rating class token undecoded (`books_data/loader_data.py:90`). Only the ML processor decodes it, with 0 for an unknown word rather than an error.
- **Synopsis repair:** a failed synopsis re-decoding raises, and the page is skipped. The text is not passed through.
- **Integer columns:** `inventario` and `num_reviews` are 32-bit `INTEGER` columns (`books_data/loader_data.py:26,29`). A value outside that range makes the insert raise, and the `except` at lines 126-130 skips the book.
- **Run report:** `loader_data.py` keeps no counts of attempted, stored or failed pages. The per-visit `stored` flag of `CollectBookAttributes` is the only trace.
- **Pagination cap:** `coleta_de_links` has no page cap. Termination comes from the site being finite, as below.
- **Row fetch:** `_get_raw_data` opens a DuckDB connection (`database/connection.py:6`) but asks it for a cursor with psycopg2's `cursor_factory` (`ml/data_processor.py:43`). DuckDB's `cursor()` takes no such argument, and its rows are tuples, which `dict(row)` cannot convert. As written, both dataset endpoints raise before reaching their loops.

## Left out

- **HTTP and HTML:** `requests.get` and BeautifulSoup are not modelled.
  - A listing response is a `Page` record: its status, its product links and the class lists of its `li` items.
  - A detail page is a `DetailPage` record of the already located element texts.
  - A detail request that raised is an address missing from the `Web` map.
- **Finite site:** the site is a finite sequence of pages, and every request past the last page answers 404. The source's `while True` has no cap, so without this assumption the walk need not end.
- **Walker exit:** `coleta_de_links` returns `None` on both exits. The model returns `completed`, which tells the success exit from the failure exit, as the two log lines do.
- Loader.Loader.CollectLinks: `requested`, the list of fetched addresses, is a modelling aid with no counterpart variable in the source.
- **Logging:** `handsome_log` is not modelled, and neither is the `print` in the ML loops.
- **Synopsis re-decoding:** the latin-1 to UTF-8 re-decoding is the parameter `repair: string -> Option<string>`. `None` stands for the codec raising.
- **Database:** DuckDB, psycopg2 and all SQL are not modelled. The table is a map from UPC to row. `_get_raw_data`'s query, its filter and its `ORDER BY titulo` are replaced by the rows given to the processor's methods.
- **Floating point:**
  - prices are `real`;
  - the euro-to-real conversion is an exact `real` multiplication;
  - the z-score normalisation, `round`, `has_discount`, `mean`, `stdev` and `_normalize_prices` are not modelled;
  - the median is a parameter of `GetTrainingData`, not computed.
- Scan.DecimalValue: its contract only bounds the value from below by the integer part. The exact decimal value is in its body but is not stated.
- **`\d` and `int()`:** `\d` is restricted to ASCII digits, while Python's also matches other Unicode decimal digits. `int()` is modelled for ASCII digits with an optional sign and surrounding whitespace, without underscores.
- **`urljoin`:** it is modelled as strict RFC 3986 resolution of the reference as `urlsplit` reads it: leading C0 controls and spaces stripped, then every tab, CR and LF deleted. Python's `urljoin` departs from strict resolution in at least these ways, none of them modelled:
  - a reference with a scheme other than the base's, or one outside `uses_relative`, is returned as given;
  - empty path segments are dropped, so `a//b.html` becomes `a/b.html`;
  - an absolute reference to the same host is recomposed without removing its dot segments;
  - an empty `;`, `?` or `#` is dropped when the result is recomposed;
  - `urlsplit` raises `ValueError` on an authority with an unbalanced `[` or `]`, on an invalid bracketed host, and on a non-ASCII host that NFKC normalisation changes.
- Uri.Join: strict RFC 3986 resolution after the `urlsplit` cleaning of the reference. It keeps empty path segments, keeps an empty `?` or `#`, removes dot segments from an absolute reference, and never raises, where Python's `urljoin` does otherwise (list above). The base is not cleaned; the loader's base is always the site root, which has nothing to clean. The plain-link lemmas exclude empty segments for this reason.
- Loader.Loader.VisitLink: the address visited is `Uri.Join` of the repaired link. For a collected link with an empty path segment, an empty query or fragment, or an absolute `https://books.toscrape.com/...` address with dot segments, Python's `urljoin` gives a different address, and so possibly a different table. `urljoin` at `books_data/loader_data.py:122` sits outside the `try` of lines 126-130, so a link whose authority makes `urlsplit` raise `ValueError` ends the script; the model visits it like any other.
- Links.NormalizeLink: the root is a parameter. The loader always passes `https://books.toscrape.com/`, and the stated lemmas are about that root.
- Loader.Loader.VisitAll: the root is a parameter, for the same reason; `Run` passes the site's root. A `ValueError` from `urljoin` on one link ends Python's loop and the script, leaving the later links unvisited; the model visits every link.
- **`price_categories`:** this dictionary is never read by the code. It appears only as the reference ranges in `BucketIsDeclaredRange`.
- **Metadata and unmodelled processor parts:** `datetime.now()`, the `feature_columns` and `feature_descriptions` texts, and the `train_test_split_info` constants are not modelled. Neither are the FastAPI endpoints, authentication, and the API and statistics modules.
- **Exceptions in the ML loops:** the only ones modelled are the pydantic validation errors for a `None` UPC or category. The query excludes `NULL` categories and the UPC is the primary key, so a row fetched by that query would not be skipped.
- Processor.MLDataProcessor.GetFeatures: the rows are a parameter, as if `_get_raw_data` returned them. As written, `_get_raw_data` raises first (see "Row fetch" above), and that failure is not modelled.
- Processor.MLDataProcessor.GetTrainingData: the rows are a parameter, for the same reason as `GetFeatures`.
- Loader.Loader.Run: a listing request that raises (`books_data/loader_data.py:46`), or a `product_pod` without an `<a href>` (`books_data/loader_data.py:60`), ends the script before any detail page is visited. The model has no such path: every listing fetch answers with a status, and every product link is present. Nor does it have the abort of a `ValueError` from `urljoin` in the visit loop (see `Loader.Loader.VisitLink`).
- Listing.Fetch: it always answers with a status. A connection error or timeout of `requests.get` is not modelled.
- Store.Upsert: the map update itself takes any integers. The 32-bit limit of the `INTEGER` columns is checked by `Store.InsertOrReplace`, which the loader goes through.
