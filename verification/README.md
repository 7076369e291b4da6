# Product price scraper: a Dafny model of its data path

The system searches several Ukrainian online shops for a product and reports, per shop,
how many in-stock products matched, the lowest and highest price, and a link to the shop's
search page. It is used in two ways:

- from the command line (`scraper.py -v -n <name>`), which prints the report;
- through a chat bot (`telegram-bot.py`), which turns a message into a command-line name and
  starts the scraper. The reply text has a second implementation in `lib/generate_result.py`.

This project models the sequential data path from the chat message to the rendered text.
HTTP, HTML parsing and `asyncio` are replaced by abstract inputs, so every step is a pure
function. The modules follow the program's structure:

| module | file | what it models |
|---|---|---|
| `Wrappers` | `wrappers.dfy` | `Option`, and `Result` with the Python exceptions the code can raise (`IndexError`, `ValueError`, `TypeError`, `UnboundLocalError`) |
| `Chars`, `PyStr` | `chars.dfy`, `pystr.dfy` | `str.isspace`, `str.lower`, `replace`, `strip`, and `re.sub(r'\s+', ' ', …)` |
| `Numerals` | `numerals.dfy` | `int()` on a `str`, `str(n)`, `re.findall(r'\d+', …)[0]`, and `format(n, ',')` |
| `PyOrder`, `Sorting` | `pyorder.dfy`, `sorting.dfy` | Python's `<` on `int`s and on `str`s, `min`, `max`, and `sorted(…, key=…)` (stable; `TypeError` on mixed `int`/`str` keys) |
| `WebsiteScraper` | `websitescraper.dfy` | `Product`, the status branches of `fetch_data`, `extract_information`, and the pagination loop of `scrape` |
| `WebsiteData` | `websitedata.dfy` | the per-site dictionary, the two sorts, and the text of one site's block |
| `Scraper` | `scraper.dfy` | `aggregate_data` and `display_scraped_data` of `scraper.py`, plus the decoding and sorting in its `main` |
| `GenerateResult` | `generate_result.dfy` | `aggregate_data`, `format_scraped_data` and `generate_formatted_output` of `lib/generate_result.py` |
| `TelegramBot` | `telegram_bot.dfy` | the input guard and the query normalisation of `handle_response` |

Abstract inputs:

- **A site** is its name, contacts and query separator. It also carries two function
  parameters over an uninterpreted container type: `findContainers`, which stands for parsing a page
  and `find_all`, and `extract`, the site's extraction function.
- **Fetching page `p`** of a site is `pages[p - 1]`. Pages past the end give `None`, so the
  `while True` loop of `scrape` provably ends.
- **`fetch_data` for one URL** is given the server's successive responses.
- **The gathered results** are given as a list in site order. Each entry pairs the site with
  the URL its `generate_search_query_url` returned and the products its `scrape` returned.

Python behaviour that matters here is written out:

- `int()` accepts surrounding whitespace, a sign, and digits with single underscores. Its
  whitespace is that of `str.isspace()` without the information separators U+001C–U+001F,
  so one of those anywhere in the argument makes it raise `ValueError`.
- Comparing an `int` with a `str` raises `TypeError`.
- `{v:,}` on a `str` raises `ValueError`.
- A local variable read before assignment raises `UnboundLocalError`.

Behaviour of the code that the model keeps as it is:

- `fetch_data` returns the content only for status 200.
- It retries only on 403, and returns `None` for every other status.
- A kept container whose price has no digit makes the whole extraction raise `IndexError`.
- Extractor exceptions are not caught anywhere.
- `scrape` stops at the first page without content or without products.
- In `lib/generate_result.py`, a site whose prices do not all convert reports the previous
  site's bounds. If no earlier site set them, the reply fails with `UnboundLocalError`.

## Model

| member | source | states |
|---|---|---|
| WebsiteScraper.StepFor | websitescraper.py:78-86 | A response status gives the content exactly when it is 200, a retry of the same URL exactly when it is 403, and `None` for every other status |
| WebsiteScraper.FetchDataSpec | websitescraper.py:76-86 | Leading 403 responses are retried on the same URL and the first other response decides: status 200 gives its content, any other status gives `None`; there is no outcome while every response so far is a 403 |
| WebsiteScraper.NormalisePrice | websitescraper.py:119 | `IndexError` exactly when the raw price has no digit. Otherwise the text ends in ` грн.`, the part before it is well grouped (a comma before every third digit from the right), and without its commas it is the first maximal digit run with leading zeros dropped |
| WebsiteScraper.MakeProduct | websitescraper.py:114-121 | A kept container's product: in stock, name with every `"` replaced by `'` and nothing else changed, normalised price; it fails exactly when the price normalisation fails, with `IndexError` |
| WebsiteScraper.ExtractWithSpec | websitescraper.py:110-122 | For any product builder, the loop fails exactly when building some kept container's product fails, and with that failure. Otherwise it gives one product per kept container, each built from that container, in container order |
| WebsiteScraper.ExtractInformation | websitescraper.py:100-122 | The only exception extraction can raise is `IndexError` |
| WebsiteScraper.ExtractInformationSpec | websitescraper.py:110-122 | Extraction fails exactly when some kept container (truthy result, in stock) has a price with no digit. Otherwise the products correspond one to one, in order, to the kept containers, and there are no more of them than containers |
| WebsiteScraper.ExtractedProductsShape | websitescraper.py:114-121 | Every extracted product is in stock, has no `"` in its name, and has a price ending in the suffix's `.` |
| WebsiteScraper.EnginePriceNotInt | websitescraper.py:119 | A price rendered by extraction is never accepted by `int()` |
| WebsiteScraper.RequestsUpTo | websitescraper.py:137-138 | The first `n` requests ask for pages 1 to `n`, with the same query |
| WebsiteScraper.ScrapeFromSpec | websitescraper.py:136-161 | Loop invariant of `scrape` from page `p` on. If the pages before `p` all continued, the run either stops at the first page with no content or no products, or fails at the first failing page. It has then asked for consecutive pages with one query and gathered the products of the pages before the stopping page, in page order |
| WebsiteScraper.ScrapeSpec | websitescraper.py:124-163 | `scrape` asks for pages 1, 2, 3, … with the separator-joined query and stops at the first page with no content or no products. It returns the products of the earlier pages in page order (possibly none, never `None`), asking for at most one page past the last page with content. Otherwise it raises `IndexError` at the first failing page |
| WebsiteScraper.PageCases | websitescraper.py:141-152 | Each page either continues the loop, stops it, or fails it, and only one of these |
| WebsiteScraper.ScrapedPricesNotInt | websitescraper.py:119 | Every product `scrape` returns is in stock and has a price `int()` refuses |
| Numerals.FirstDigitRun | websitescraper.py:119 | `re.findall(r'\d+', s)[0]` raises `IndexError` exactly when `s` has no digit. Otherwise it is a non-empty digit run of `s` with no digit before it and no digit right after it |
| Numerals.ShowNatValue | websitescraper.py:119 | Reading the digits of `str(n)` back gives `n` |
| Numerals.ShowOfDigitsValue | websitescraper.py:119 | `str(int(d))` for a digit string `d` is `d` with its leading zeros dropped |
| Numerals.GroupUngroup | websitescraper.py:119 | Comma grouping only inserts commas: removing them gives the digits back |
| Numerals.GroupWellGrouped | websitescraper.py:119 | Comma grouping puts a comma before every third digit from the right and nowhere else |
| Numerals.GroupLength | websitescraper.py:119 | Comma grouping adds one comma for every full group of three digits after the leading group |
| Numerals.GroupedRoundTrip | scraper.py:123 | `format(n, ',')` loses nothing: reading the text back gives `n`, negative numbers included |
| Numerals.FormatGroupedShows | scraper.py:123 | `format(n, ',')` writes a minus sign exactly for a negative `n`, then well-formed groups whose digits, commas dropped, are the shortest numeral of the magnitude |
| Numerals.GroupedShowsUnique | scraper.py:123 | That shape fixes the text: any text with it is the one `format(n, ',')` writes |
| Numerals.WellGroupedIsGroup | websitescraper.py:119 | A well-grouped text is the comma grouping of its own digits |
| Numerals.ParseIntToString | scraper.py:48 | `int(str(n)) == n` for every integer `n` |
| Numerals.ParseInt | scraper.py:48 | `int()` succeeds only on a text that holds a digit |
| Numerals.ParseIntRejectsSeparator | scraper.py:48 | An information separator (U+001C–U+001F) anywhere in the text makes `int()` raise |
| Numerals.ParseIntTrims | scraper.py:48 | Any other whitespace before and after a text without whitespace is trimmed: `int()` reads the text itself |
| Numerals.ParseIntRejectsNonDigitEnd | scraper.py:48-51 | `int()` raises `ValueError` on a string whose last character is neither whitespace nor a digit |
| PyStr.ReplaceWithLength | websitescraper.py:137 | `replace(' ', sep)` replaces every space and nothing else: the length grows by `len(sep) - 1` per space |
| PyStr.ReplaceWithRemoves | websitescraper.py:137 | After `replace(' ', sep)`, a space remains only if `sep` contains one |
| PyStr.ReplaceWithInverse | websitescraper.py:137 | With a one-character separator absent from the product name, replacing it back by spaces restores the name |
| PyStr.Strip | telegram-bot.py:32 | `strip()` gives the part between the leading and the trailing whitespace. It starts and ends with a non-space character |
| PyStr.Collapse | telegram-bot.py:32 | `re.sub(r'\s+', ' ', s)` is never longer than `s`, is empty only when `s` is, and starts with whitespace exactly when `s` does |
| PyStr.CollapseKeepsText | telegram-bot.py:32 | Collapsing whitespace keeps every other character, in order, and adds none |
| PyStr.CollapseSpaces | telegram-bot.py:32 | After collapsing, the only whitespace left is single `' '` characters |
| PyStr.CollapseIdempotent | telegram-bot.py:32 | Collapsing twice is collapsing once |
| PyOrder.LessTransitive | scraper.py:55-56 | Python's `<` on two `int`s or two `str`s is transitive |
| PyOrder.LessTotal | scraper.py:55-56 | Two values of one kind are equal or one is `<` the other |
| PyOrder.Minimum | scraper.py:55 | `min(prices)` is one of the prices and no price is `<` it |
| PyOrder.Maximum | scraper.py:56 | `max(prices)` is one of the prices and it is `<` no price |
| PyOrder.MinimumNotAboveMaximum | scraper.py:55-56 | The minimum is never above the maximum |
| Sorting.PySorted | scraper.py:159 | `sorted` raises `TypeError` exactly when the keys mix `int`s and `str`s. Otherwise it gives an ascending rearrangement of its input, and elements with equal keys keep their relative order |
| Sorting.SortBySorted | scraper.py:159 | The insertion sort leaves no element whose key is `<` the key of an element before it |
| Sorting.SortByPermutes | scraper.py:159 | The insertion sort gives a rearrangement of its input |
| Sorting.SortByStable | scraper.py:163 | The insertion sort is stable: the elements sharing a key keep their order |
| WebsiteData.Prices | scraper.py:47-51 | One price per product. All are the `int()` values when every price converts, and all are the raw strings otherwise |
| WebsiteData.Details | scraper.py:72-77 | `details` has one entry per product, in product order, named after the product and priced as in `prices` |
| WebsiteData.NonEmptyMembers | scraper.py:44-45 | A site is kept exactly when its scrape returned products |
| WebsiteData.SortDetails | scraper.py:163 | Sorting a `details` list changes nothing else in the record, and gives a stable, ascending rearrangement of the list |
| WebsiteData.SortReport | scraper.py:158-163 | The two sorts raise `TypeError` exactly when the sites' minima mix `int`s and `str`s. Otherwise the result is a rearrangement of the input's sites, each with its `details` sorted, ascending by minimum; the sort is stable, so the sites sharing a minimum keep their input order |
| WebsiteData.SortAllDetailsSpec | scraper.py:162-163 | Sorting every `details` list keeps the order of the sites by minimum |
| WebsiteData.FormatComma | scraper.py:123 | `{v:,}` raises `ValueError` exactly on a `str`. On an `int` the text is a minus sign exactly for a negative number, then well-formed groups of three digits separated by commas, with the shortest numeral of the magnitude once the commas are dropped (so no leading zero). `Numerals.GroupedShowsUnique` shows that only one text has this shape. The text reads back as the number |
| WebsiteData.PriceLine | scraper.py:121-125 | The price line renders exactly when the minimum is an `int` and, if the maximum differs, the maximum is too; otherwise it raises `ValueError` |
| WebsiteData.PriceLineNumbers | scraper.py:121-125 | With equal bounds the line shows the minimum as `format(n, ',')` writes it: sign, well-formed groups, no leading zero. It reads back as the minimum. Otherwise it shows two such numbers, the minimum and the maximum, split by ` -- ` |
| WebsiteData.PriceLineShowsRange | scraper.py:122-125 | A price line shows ` -- ` exactly when the minimum and the maximum differ |
| WebsiteData.Block | scraper.py:117-130 | A site's block renders exactly when its price line does; otherwise it raises `ValueError` |
| WebsiteData.BlocksSucceed | scraper.py:115-130 | All blocks render exactly when each one does, and a failure is `ValueError` |
| WebsiteData.BlocksAppend | scraper.py:115-130 | The blocks of two lists of sites are the blocks of the first followed by those of the second |
| Scraper.SummariseSpec | scraper.py:47-79 | The record copies the site's name and contacts and has `products_qty` equal to the number of products. Its bounds are a least and a greatest price, which are `int`s exactly when every price converts. It has `details` exactly when they are asked for |
| Scraper.AggregateData | scraper.py:44-82 | One record per site with products |
| Scraper.AggregateSpec | scraper.py:44-82 | The records follow the sites with products in site order, each the summary of its site |
| Scraper.AggregateAppend | scraper.py:44-82 | Aggregating two lists of results gives the two aggregates one after the other |
| Scraper.AggregateMembers | scraper.py:44-45 | A site appears in the aggregate exactly when it is one of the results and has products |
| Scraper.AggregateTotal | scraper.py:111 | The total over the aggregate is the number of products scraped over all sites |
| Scraper.AggregatedSortable | scraper.py:72-77 | With details, every record carries a `details` list that is all `int`s or all `str`s, so sorting it cannot raise |
| Scraper.ScrapedSiteHasStrPrices | scraper.py:47-56 | A site whose products came from `scrape` gets `str` bounds: the string fallback is always taken |
| Scraper.DecodeName | scraper.py:150 | The decoded name has the argument's length and no `_` |
| Scraper.DisplaySites | scraper.py:115-130 | The only exception the site blocks can raise is `ValueError` |
| Scraper.DisplaySitesSpec | scraper.py:115-130 | The report ends normally exactly when every block renders, and then prints every block in order. Otherwise it prints the blocks before the first site with a `str` bound, then that site's name and count lines, and raises `ValueError` |
| Scraper.SortedAggregate | scraper.py:156-163 | The sorts in `main` raise `TypeError` exactly when the minima mix kinds. Otherwise the records are a rearrangement of the aggregate's, each with its `details` sorted, ascending by minimum and stable among equal minima |
| Scraper.DisplayScrapedData | scraper.py:104-130 | The report starts with a blank line and ends normally exactly when every site's block renders. It then shows the total line and every block in order; otherwise it ends with `ValueError` |
| Scraper.RunReport | scraper.py:156-169 | The run raises `TypeError`, having printed nothing, exactly when the sites' minima mix kinds; the only other exception is the `ValueError` of `{v:,}` |
| Scraper.SortedTotal | scraper.py:111 | The total does not depend on the order of the sites |
| Scraper.IntPricesRender | scraper.py:156-169 | When every price converts, the sort succeeds and every block renders |
| Scraper.ReportOfIntPrices | scraper.py:111-130 | When every price converts, the report completes. It prints the total of all scraped products, then one block per site in order of minimum price |
| Scraper.ReportOfScrapedSites | scraper.py:121-125 | With sites whose products come from `scrape`, as soon as one site has products the report raises `ValueError` |
| GenerateResult.SortedPrices | lib/generate_result.py:65 | The sorted `int` prices: an ascending rearrangement of the prices |
| GenerateResult.SortedBounds | lib/generate_result.py:64-68 | The bounds are assigned exactly when every price converts |
| GenerateResult.SortedEnds | lib/generate_result.py:65-68 | The first and the last element of a sorted rearrangement are `min` and `max` of the list |
| GenerateResult.SortedBoundsAreExtremes | lib/generate_result.py:67-68 | `prices[0]` and `prices[-1]` are the minimum and the maximum that the command-line aggregation computes |
| GenerateResult.AggregateFromSucceeds | lib/generate_result.py:61-86 | The loop raises exactly when the first site with products has a price `int()` refuses and no bounds were set before it. Then the exception is `UnboundLocalError` |
| GenerateResult.AggregateFromShape | lib/generate_result.py:61-102 | One record per site with products, in site order. Each has `int` bounds and equals the command-line record apart from them, and equals it fully when all the site's prices convert |
| GenerateResult.AggregateFromStale | lib/generate_result.py:64-86 | A site whose prices do not all convert reports the bounds of the site with products before it; for the first such site, the bounds set before the loop, which must exist |
| GenerateResult.AgreesWithCommandLine | lib/generate_result.py:42-104 | When every price converts, the reply's aggregate is exactly the command-line aggregate with details |
| GenerateResult.AggregateSortable | lib/generate_result.py:93-97 | Every record of a successful aggregate carries a `details` list that sorts |
| GenerateResult.AggregateFrom | lib/generate_result.py:61-102 | The only exception the loop raises is `UnboundLocalError`, and every record it builds has `int` bounds |
| GenerateResult.FormatMatchesDisplay | lib/generate_result.py:107-139 | The reply text renders exactly when the command-line report completes. It is then the report with its leading blank line replaced by the bold title line |
| GenerateResult.FormatScrapedData | lib/generate_result.py:107-139 | The reply text renders exactly when every site's block does, and otherwise raises `ValueError` |
| GenerateResult.GenerateFormattedOutput | lib/generate_result.py:157-167 | The reply fails exactly when aggregation does, and then with `UnboundLocalError`: the sort and the formatting cannot fail after a successful aggregation |
| GenerateResult.ReplyMatchesReport | lib/generate_result.py:142-167 | When every price converts, the reply is the command-line report under the title line |
| GenerateResult.ReplyOfScrapedSites | lib/generate_result.py:64-86 | With sites whose products come from `scrape`, as soon as one site has products the reply fails with `UnboundLocalError` |
| TelegramBot.Accepts | telegram-bot.py:31 | The guard accepts exactly the texts of two or more characters, at least one of them not whitespace |
| TelegramBot.HandleResponse | telegram-bot.py:31-32 | A search starts exactly when the guard accepts the text, and then with the normalised word |
| TelegramBot.Normalize | telegram-bot.py:32 | The word is never longer than the text |
| TelegramBot.NormalizeNoSpace | telegram-bot.py:32 | The normalised word has no whitespace and no `-` |
| TelegramBot.NormalizeLower | telegram-bot.py:32 | The normalised word is lower case |
| TelegramBot.NormalizeIdempotent | telegram-bot.py:32 | Normalising a normalised word changes nothing |
| TelegramBot.NormalizeEmpty | telegram-bot.py:31-32 | The word is empty exactly when the text is all whitespace, so an accepted text never gives an empty word |
| TelegramBot.DecodeEncode | telegram-bot.py:32 | Decoding an encoded lower-case string as the scraper does turns its `_` and `-` into spaces |
| TelegramBot.SearchedText | telegram-bot.py:32-37 | The scraper searches for the cleaned text, with its `_` and `-` turned into spaces |
| TelegramBot.SearchedRoundTrip | telegram-bot.py:32-37 | For a text without `_` or `-`, the scraper searches for the text with whitespace runs collapsed, the ends trimmed and the letters lowered |

## Left out

- HTTP: `requests.get`, the random user agent, and the sleeps before a retry and between pages.
  `fetch_data` is given the server's responses; a run of 403s with no other answer after it is
  the `StillRetrying` outcome.
- WebsiteScraper.FetchDataSpec: the retry is a recursive call, so about a thousand 403s in a
  row end the run with Python's `RecursionError`. The model leaves the retry unbounded, because
  the exact count depends on the call depth at which `fetch_data` is entered.
- The progress lines that `fetch_data` and `scrape` print (websitescraper.py:81, 85, 142, 146,
  151 and 158). They go to the same standard output as the report, and the bot's reply reads
  that output, but the modelled report text leaves them out.
- HTML parsing: BeautifulSoup and `find_all` are the `findContainers` parameter, and each site's
  extraction function is the `extract` parameter.
- Extraction functions that raise. An extractor returns a value or `None`, so an exception inside
  one is not modelled.
- `build_url`: a request is modelled as its arguments, the page number and the query.
- `generate_search_query_url`: it is not defined in `websitescraper.py`. Its result is an input
  of each gathered result.
- `lib/websites_list.py`: per-site configuration made of BeautifulSoup lookups and regular
  expressions, and it imports a module (`lib.websites_scraper`) that is not part of this model.
- Concurrency: `asyncio.gather` and `to_thread`. The gathered results are a list in site order;
  an exception in one site's scrape ending the whole gather is not modelled.
- Logging, the JSON export, the argument-parser checks of `main`, and the elapsed-time line
  that both outputs end with.
- The `-v` flag: the command-line run is modelled with it set. The report is modelled as the
  report's own text printed before the run ends, plus the exception that ended it.
- Chat-bot plumbing: handlers, the `searching` flag, the subprocess call, reading its output,
  the group-chat removal of the bot's user name, `lib/bot_usage.py`, `test.py` and `main.py`.
  The handoff of the word to the scraper is modelled by composing the normalisation with the
  scraper's decoding.
- The float route of `{…:,.0f}`. The model renders the integer exactly, which agrees with the
  float route only for prices below 2^53.
- Chars.Lower: `lower()` is modelled only for the capitals `A`–`Z`, `А`–`Я`, `Ѐ`–`Џ` and `Ґ`.
  Every other character is left unchanged, although Python also lowers other capitals, such as
  Latin-1 `À`–`Þ` and the Cyrillic capitals from U+0460 on. Digits are ASCII only.
- Scraper.DecodeName: its contract states only the length and the absence of `_`. The
  character-by-character content is given by the definition, and `TelegramBot.DecodeEncode`
  states it for the words the bot produces.
- WebsiteScraper.ExtractInformation: its contract states only which exception can escape.
  `WebsiteScraper.ExtractInformationSpec` states the rest.
- Scraper.DisplaySites: its contract states only which exception can escape.
  `Scraper.DisplaySitesSpec` states the text.
