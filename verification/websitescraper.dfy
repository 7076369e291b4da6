/** One site's scraping engine: per-page extraction of in-stock products, price normalisation,
    the pagination loop, and the status classification of a page request. HTTP, HTML parsing,
    sleeping and printing are replaced by the abstract inputs described at each member. */
module WebsiteScraper {
  import opened Wrappers
  import opened Chars
  import opened PyStr
  import opened Numerals
  import opened Seqs

  /** A product kept from a results page; `price` is the rendered price text. */
  datatype Product = Product(name: string, price: string, stockStatus: bool)

  /** The dictionary a site's extraction function returns for one container. */
  datatype Info = Info(name: string, price: string, stockStatus: bool)

  /** The per-site values the aggregators read. */
  datatype SiteInfo = SiteInfo(
    name: string,
    searchQuerySeparator: string,
    socialNetwork: string,
    telVodafone: string,
    telKyivstar: string)

  /** A configured site. Containers are uninterpreted values of type `C`: `findContainers` stands for
      parsing the page and `find_all` with the site's container class, and `extract` for the
      site's extraction function, `None` standing for a falsy result (`None` or `{}`). */
  datatype Site<!C> = Site(
    info: SiteInfo,
    findContainers: seq<bv8> -> seq<C>,
    extract: C -> Option<Info>)

  /** The currency suffix every normalised price carries. */
  const PriceSuffix: string := " грн."

  // ---------------------------------------------------------------- fetching

  /** What `fetch_data` does with a response status. */
  datatype FetchStep = ReturnContent | RetrySameUrl | ReturnNone

  function StepFor(status: int): (r: FetchStep)
    ensures r == ReturnContent <==> status == 200
    ensures r == RetrySameUrl <==> status == 403
    ensures r == ReturnNone <==> status != 200 && status != 403
  {
    if status == 200 then ReturnContent
    else if status == 403 then RetrySameUrl
    else ReturnNone
  }

  datatype Response = Response(status: int, content: seq<bv8>)

  /** The outcome of `fetch_data(url)`: the content, `None`, or no outcome yet because every
      answer given so far was a 403 (the source goes on retrying until Python's recursion limit
      raises `RecursionError`, which is not modelled). */
  datatype Fetched = Content(body: seq<bv8>) | NoContent | StillRetrying

  /** `fetch_data(url)` given the server's successive answers to that same URL. */
  function FetchData(answers: seq<Response>): Fetched
  {
    if |answers| == 0 then StillRetrying
    else match StepFor(answers[0].status)
      case ReturnContent => Content(answers[0].content)
      case ReturnNone => NoContent
      case RetrySameUrl => FetchData(answers[1..])
  }

  /** Leading 403 answers are retried; the first other answer decides: a 200 gives its content,
      any other status gives `None`. */
  lemma {:induction false} FetchDataSpec(answers: seq<Response>)
    ensures FetchData(answers).StillRetrying? <==> forall i :: 0 <= i < |answers| ==> answers[i].status == 403
    ensures FetchData(answers).Content? <==> exists i :: FirstDecisive(answers, i) && answers[i].status == 200
    ensures forall i :: FirstDecisive(answers, i) && answers[i].status == 200 ==>
              FetchData(answers) == Content(answers[i].content)
    ensures FetchData(answers).NoContent? <==> exists i :: FirstDecisive(answers, i) && answers[i].status != 200
  {
    if |answers| > 0 {
      var tail := answers[1..];
      if answers[0].status == 403 {
        FetchDataSpec(tail);
        forall i | FirstDecisive(answers, i) ensures i >= 1 && FirstDecisive(tail, i - 1) {
        }
        forall i | FirstDecisive(tail, i) ensures FirstDecisive(answers, i + 1) {
        }
        assert forall i :: 1 <= i < |answers| ==> answers[i] == tail[i - 1];
      } else {
        assert FirstDecisive(answers, 0);
        forall i | FirstDecisive(answers, i) ensures i == 0 {
        }
      }
    }
  }

  /** Answer `i` is the first that is not a 403. */
  predicate FirstDecisive(answers: seq<Response>, i: int)
  {
    0 <= i < |answers| && answers[i].status != 403
    && forall k :: 0 <= k < i ==> answers[k].status == 403
  }

  // ---------------------------------------------------------------- extraction

  /** The price normalisation of `extract_information`: the first run of digits read as an
      integer, rendered with comma thousands grouping and the currency suffix; a price with no
      digit raises `IndexError`. */
  function NormalisePrice(raw: string): (r: Result<string>)
    ensures r.Failure? <==> forall i :: 0 <= i < |raw| ==> !IsDigit(raw[i])
    ensures r.Failure? ==> r.error == IndexError
    ensures r.Success? ==> |r.value| > |PriceSuffix| && r.value[|r.value| - |PriceSuffix|..] == PriceSuffix
    ensures r.Success? ==> exists d, i :: FirstRunAt(raw, i, d) && |d| > 0 && AllDigits(d)
                             && PriceDigits(r.value) == DropLeadingZeros(d)
                             && WellGrouped(r.value[..|r.value| - |PriceSuffix|])
  {
    var run :- FirstDigitRun(raw);
    var v := DigitsValue(run);
    var g := FormatGrouped(v);
    var r := g + PriceSuffix;
    assert r[..|r| - |PriceSuffix|] == g;
    GroupUngroup(ShowNat(v));
    GroupWellGrouped(ShowNat(v));
    ShowOfDigitsValue(run);
    var i :| FirstRunAt(raw, i, run);
    Success(r)
  }

  /** The digits of a rendered price: the text before the suffix without its commas. */
  function PriceDigits(price: string): string
    requires |price| >= |PriceSuffix|
  {
    Without(price[..|price| - |PriceSuffix|], ',')
  }

  /** A container yields a product only when the extraction result is truthy and in stock. */
  predicate Keeps(info: Option<Info>)
  {
    info.Some? && info.value.stockStatus
  }

  /** The extraction results of the kept containers, in container order. */
  function Kept<C>(extract: C -> Option<Info>, cs: seq<C>): (r: seq<Info>)
    ensures |r| <= |cs|
  {
    if |cs| == 0 then []
    else (if Keeps(extract(cs[0])) then [extract(cs[0]).value] else []) + Kept(extract, cs[1..])
  }

  /** The product built from a kept extraction result. */
  function MakeProduct(info: Info): (r: Result<Product>)
    ensures r.Success? <==> NormalisePrice(info.price).Success?
    ensures r.Failure? ==> r.error == IndexError
    ensures r.Success? ==> r.value.stockStatus
    ensures r.Success? ==> r.value.price == NormalisePrice(info.price).value
    ensures r.Success? ==> r.value.name == ReplaceChar(info.name, '"', '\'')
  {
    var price :- NormalisePrice(info.price);
    Success(Product(ReplaceChar(info.name, '"', '\''), price, true))
  }

  /** The loop of `extract_information`, with the product builder `mk` as a parameter. */
  function ExtractWith<C>(extract: C -> Option<Info>, mk: Info -> Result<Product>, cs: seq<C>): Result<seq<Product>>
  {
    if |cs| == 0 then Success([])
    else if !Keeps(extract(cs[0])) then ExtractWith(extract, mk, cs[1..])
    else
      var p :- mk(extract(cs[0]).value);
      var rest :- ExtractWith(extract, mk, cs[1..]);
      Success([p] + rest)
  }

  /** The loop fails exactly when building some kept container's product fails, and then with
      that failure; otherwise it builds one product per kept container, in container order. */
  lemma {:induction false} ExtractWithSpec<C>(extract: C -> Option<Info>, mk: Info -> Result<Product>, cs: seq<C>)
    ensures var r := ExtractWith(extract, mk, cs); var k := Kept(extract, cs);
      && (r.Failure? <==> exists i :: 0 <= i < |k| && mk(k[i]).Failure?)
      && (r.Failure? ==> exists i :: 0 <= i < |k| && mk(k[i]) == Failure(r.error))
      && (r.Success? ==> |r.value| == |k|)
      && (r.Success? ==> forall i :: 0 <= i < |r.value| ==> mk(k[i]) == Success(r.value[i]))
  {
    if |cs| > 0 {
      ExtractWithSpec(extract, mk, cs[1..]);
      var rest := ExtractWith(extract, mk, cs[1..]);
      var kRest := Kept(extract, cs[1..]);
      var k := Kept(extract, cs);
      if Keeps(extract(cs[0])) {
        assert k == [extract(cs[0]).value] + kRest;
        assert forall i :: 1 <= i < |k| ==> k[i] == kRest[i - 1];
        if mk(k[0]).Success? && rest.Failure? {
          var i :| 0 <= i < |kRest| && mk(kRest[i]) == Failure(rest.error);
          assert k[i + 1] == kRest[i];
        }
      } else {
        assert k == kRest;
      }
    }
  }

  /** `extract_information`: one product per kept container, in container order; the first kept
      container whose price has no digit makes the whole page fail with `IndexError`. */
  function ExtractInformation<C>(extract: C -> Option<Info>, cs: seq<C>): (r: Result<seq<Product>>)
    ensures r.Failure? ==> r.error == IndexError
  {
    ExtractWithSpec(extract, MakeProduct, cs);
    ExtractWith(extract, MakeProduct, cs)
  }

  /** The page fails exactly when some kept container's price has no digit; otherwise there is
      one product per kept container, built from it, in container order. */
  lemma ExtractInformationSpec<C>(extract: C -> Option<Info>, cs: seq<C>)
    ensures var r := ExtractInformation(extract, cs); var k := Kept(extract, cs);
      && (r.Failure? <==> exists i :: 0 <= i < |k| && MakeProduct(k[i]).Failure?)
      && (r.Success? ==> |r.value| == |k| <= |cs|)
      && (r.Success? ==> forall i :: 0 <= i < |r.value| ==> MakeProduct(k[i]) == Success(r.value[i]))
  {
    ExtractWithSpec(extract, MakeProduct, cs);
  }

  /** Every emitted product is in stock, has no `"` in its name, and carries a rendered price. */
  lemma ExtractedProductsShape<C>(extract: C -> Option<Info>, cs: seq<C>)
    requires ExtractInformation(extract, cs).Success?
    ensures forall p :: p in ExtractInformation(extract, cs).value ==>
              p.stockStatus && '"' !in p.name && EnginePrice(p.price)
  {
    var ps := ExtractInformation(extract, cs).value;
    var k := Kept(extract, cs);
    ExtractInformationSpec(extract, cs);
    forall i | 0 <= i < |ps| ensures ps[i].stockStatus && '"' !in ps[i].name && EnginePrice(ps[i].price) {
      MadeProductShape(k[i], ps[i]);
    }
  }

  lemma MadeProductShape(info: Info, p: Product)
    requires MakeProduct(info) == Success(p)
    ensures p.stockStatus && '"' !in p.name && EnginePrice(p.price)
  {
    var price := NormalisePrice(info.price).value;
    assert price[|price| - 1] == PriceSuffix[|PriceSuffix| - 1];
  }

  /** A price as `extract_information` renders it: it ends in the suffix's final `.`. */
  predicate EnginePrice(price: string)
  {
    |price| > 0 && price[|price| - 1] == '.'
  }

  /** No rendered price is a valid `int()` argument. */
  lemma EnginePriceNotInt(price: string)
    requires EnginePrice(price)
    ensures ParseInt(price).None?
  {
    ParseIntRejectsNonDigitEnd(price);
  }

  // ---------------------------------------------------------------- pagination

  /** A request of the pagination loop: the arguments of `build_url`. */
  datatype Request = Request(page: nat, query: string)

  /** What `scrape` returns, together with the requests it made, in order. */
  datatype Run = Run(products: seq<Product>, requests: seq<Request>)

  /** The query put into every URL: the product with each space replaced by the separator. */
  function SearchQuery(product: string, separator: string): (q: string)
    ensures ' ' !in separator ==> ' ' !in q
  {
    ReplaceWithRemoves(product, ' ', separator);
    ReplaceWith(product, ' ', separator)
  }

  /** The result of `fetch_data` for page `p`: `pages[p - 1]`, and `None` past the last page. */
  function PageContent(pages: seq<Option<seq<bv8>>>, p: nat): Option<seq<bv8>>
  {
    if 1 <= p <= |pages| then pages[p - 1] else None
  }

  /** `not content` is false: some bytes came back. */
  predicate HasContent(pages: seq<Option<seq<bv8>>>, p: nat)
  {
    PageContent(pages, p).Some? && |PageContent(pages, p).value| > 0
  }

  /** The extraction result of page `p`, which has content. */
  function PageProducts<C>(site: Site<C>, pages: seq<Option<seq<bv8>>>, p: nat): Result<seq<Product>>
    requires HasContent(pages, p)
  {
    ExtractInformation(site.extract, site.findContainers(PageContent(pages, p).value))
  }

  /** Page `p` yields products, so the loop goes on to page `p + 1`. */
  predicate Continues<C>(site: Site<C>, pages: seq<Option<seq<bv8>>>, p: nat)
  {
    HasContent(pages, p) && PageProducts(site, pages, p).Success?
    && |PageProducts(site, pages, p).value| > 0
  }

  /** Page `p` ends the loop: no content, or no products on it. */
  predicate StopsAt<C>(site: Site<C>, pages: seq<Option<seq<bv8>>>, p: nat)
  {
    !HasContent(pages, p) || PageProducts(site, pages, p) == Success([])
  }

  /** Page `p` raises while extracting. */
  predicate FailsAt<C>(site: Site<C>, pages: seq<Option<seq<bv8>>>, p: nat)
  {
    HasContent(pages, p) && PageProducts(site, pages, p).Failure?
  }

  /** The products of pages `1..n`, in page order. */
  function ProductsUpTo<C>(site: Site<C>, pages: seq<Option<seq<bv8>>>, n: nat): seq<Product>
    requires forall p :: 1 <= p <= n ==> Continues(site, pages, p)
  {
    if n == 0 then []
    else
      assert Continues(site, pages, n);
      ProductsUpTo(site, pages, n - 1) + PageProducts(site, pages, n).value
  }

  /** The requests for pages `1..n`. */
  function RequestsUpTo(query: string, n: nat): (r: seq<Request>)
    ensures |r| == n
    ensures forall i :: 0 <= i < n ==> r[i] == Request(i + 1, query)
  {
    if n == 0 then [] else RequestsUpTo(query, n - 1) + [Request(n, query)]
  }

  /** The `while True` loop of `scrape` from page `p` on, with the products gathered so far. */
  function ScrapeFrom<C>(site: Site<C>, query: string, pages: seq<Option<seq<bv8>>>, p: nat,
                         acc: seq<Product>, requests: seq<Request>): Result<Run>
    requires p >= 1
    decreases |pages| + 1 - p
  {
    var requests' := requests + [Request(p, query)];
    if !HasContent(pages, p) then Success(Run(acc, requests'))
    else match PageProducts(site, pages, p)
      case Failure(e) => Failure(e)
      case Success(ps) =>
        if |ps| == 0 then Success(Run(acc, requests'))
        else ScrapeFrom(site, query, pages, p + 1, acc + ps, requests')
  }

  /** `scrape(product)` against a site whose pages `1..|pages|` give the listed `fetch_data`
      results and whose later pages give `None`. */
  function Scrape<C>(site: Site<C>, product: string, pages: seq<Option<seq<bv8>>>): Result<Run>
  {
    ScrapeFrom(site, SearchQuery(product, site.info.searchQuerySeparator), pages, 1, [], [])
  }

  lemma {:induction false} ScrapeFromSpec<C>(site: Site<C>, query: string, pages: seq<Option<seq<bv8>>>,
                                             p: nat, acc: seq<Product>, requests: seq<Request>)
    requires p >= 1
    requires forall k :: 1 <= k < p ==> Continues(site, pages, k)
    requires acc == ProductsUpTo(site, pages, p - 1)
    requires requests == RequestsUpTo(query, p - 1)
    ensures var r := ScrapeFrom(site, query, pages, p, acc, requests);
      && (r.Success? ==>
           && p <= |r.value.requests| <= |pages| + 1
           && r.value.requests == RequestsUpTo(query, |r.value.requests|)
           && (forall k :: 1 <= k < |r.value.requests| ==> Continues(site, pages, k))
           && StopsAt(site, pages, |r.value.requests|)
           && r.value.products == ProductsUpTo(site, pages, |r.value.requests| - 1))
      && (r.Failure? ==>
           && r.error == IndexError
           && exists n :: p <= n <= |pages| && FailsAt(site, pages, n)
                && forall k :: 1 <= k < n ==> Continues(site, pages, k))
    decreases |pages| + 1 - p
  {
    var requests' := requests + [Request(p, query)];
    assert requests' == RequestsUpTo(query, p);
    if p > 1 {
      assert Continues(site, pages, p - 1);
    }
    if HasContent(pages, p) {
      match PageProducts(site, pages, p)
      case Failure(e) =>
        assert FailsAt(site, pages, p);
      case Success(ps) =>
        if |ps| > 0 {
          assert Continues(site, pages, p);
          ScrapeFromSpec(site, query, pages, p + 1, acc + ps, requests');
        }
    }
  }

  /** `scrape` asks for pages 1, 2, 3, ... with the same query, stops at the first page with no
      content or no products, and returns the products of the pages before it in page order; or it
      raises `IndexError` on the first page whose extraction fails. It never asks beyond one page
      past the last page that has content. */
  lemma ScrapeSpec<C>(site: Site<C>, product: string, pages: seq<Option<seq<bv8>>>)
    ensures var q := SearchQuery(product, site.info.searchQuerySeparator);
      var r := Scrape(site, product, pages);
      && (r.Success? ==>
           && 1 <= |r.value.requests| <= |pages| + 1
           && (forall i :: 0 <= i < |r.value.requests| ==> r.value.requests[i] == Request(i + 1, q))
           && (forall k :: 1 <= k < |r.value.requests| ==> Continues(site, pages, k))
           && StopsAt(site, pages, |r.value.requests|)
           && r.value.products == ProductsUpTo(site, pages, |r.value.requests| - 1))
      && (r.Failure? ==>
           && r.error == IndexError
           && exists n :: 1 <= n <= |pages| && FailsAt(site, pages, n)
                && forall k :: 1 <= k < n ==> Continues(site, pages, k))
  {
    var q := SearchQuery(product, site.info.searchQuerySeparator);
    ScrapeFromSpec(site, q, pages, 1, [], []);
  }

  /** Each page falls in exactly one of the three cases, so `ScrapeSpec` pins the outcome down. */
  lemma PageCases<C>(site: Site<C>, pages: seq<Option<seq<bv8>>>, p: nat)
    ensures Continues(site, pages, p) || StopsAt(site, pages, p) || FailsAt(site, pages, p)
    ensures !(Continues(site, pages, p) && StopsAt(site, pages, p))
    ensures !(Continues(site, pages, p) && FailsAt(site, pages, p))
    ensures !(StopsAt(site, pages, p) && FailsAt(site, pages, p))
  {
  }

  /** Every product `scrape` returns comes from `extract_information`, so has its shape. */
  lemma {:induction false} ProductsUpToShape<C>(site: Site<C>, pages: seq<Option<seq<bv8>>>, n: nat)
    requires forall p :: 1 <= p <= n ==> Continues(site, pages, p)
    ensures forall x :: x in ProductsUpTo(site, pages, n) ==>
              x.stockStatus && '"' !in x.name && EnginePrice(x.price)
  {
    if n > 0 {
      assert Continues(site, pages, n);
      ProductsUpToShape(site, pages, n - 1);
      ExtractedProductsShape(site.extract, site.findContainers(PageContent(pages, n).value));
    }
  }

  /** Consequently no price `scrape` returns is accepted by `int()`. */
  lemma ScrapedPricesNotInt<C>(site: Site<C>, product: string, pages: seq<Option<seq<bv8>>>)
    requires Scrape(site, product, pages).Success?
    ensures forall x :: x in Scrape(site, product, pages).value.products ==>
              x.stockStatus && ParseInt(x.price).None?
  {
    ScrapeSpec(site, product, pages);
    var r := Scrape(site, product, pages).value;
    ProductsUpToShape(site, pages, |r.requests| - 1);
    forall x | x in r.products ensures x.stockStatus && ParseInt(x.price).None? {
      EnginePriceNotInt(x.price);
    }
  }
}
