/** The command-line tool: one dictionary per site with products (prices as `int`s when every
    price converts, as the raw strings otherwise), the sorts, the decoding of `--name`, and the
    report printed with `-v`. */
module Scraper {
  import opened Wrappers
  import opened Chars
  import opened PyStr
  import opened Numerals
  import opened PyOrder
  import opened Sorting
  import opened Seqs
  import opened WebsiteScraper
  import opened WebsiteData

  /** The dictionary built for one gathered result with products. */
  function Summarise(g: Gathered, includeDetails: bool): (r: SiteData)
    requires |g.products| > 0
  {
    var prices := Prices(g.products);
    SiteData(
      g.site.name,
      SearchQueryUrl(g),
      Minimum(prices),
      Maximum(prices),
      |g.products|,
      g.site.socialNetwork,
      g.site.telVodafone,
      g.site.telKyivstar,
      if includeDetails then Some(Details(g.products)) else None)
  }

  /** The site's name, contacts and product count are copied; the bounds are the smallest and
      largest price, `int`s exactly when every price converts; `details` is present exactly when
      asked for. */
  lemma SummariseSpec(g: Gathered, includeDetails: bool)
    requires |g.products| > 0
    ensures var r := Summarise(g, includeDetails);
      && r.website == g.site.name && r.productsQty == |g.products|
      && r.searchQueryUrl == SearchQueryUrl(g)
      && r.socialNetwork == g.site.socialNetwork
      && r.telVodafone == g.site.telVodafone && r.telKyivstar == g.site.telKyivstar
      && r.priceUahMin in Prices(g.products) && r.priceUahMax in Prices(g.products)
      && (forall i :: 0 <= i < |g.products| ==>
            !Less(Prices(g.products)[i], r.priceUahMin) && !Less(r.priceUahMax, Prices(g.products)[i]))
      && (r.priceUahMin.Num? <==> AllPricesInt(g.products))
      && (r.priceUahMax.Num? <==> AllPricesInt(g.products))
      && (r.details.Some? <==> includeDetails)
      && (r.details.Some? ==> r.details.value == Details(g.products))
  {
  }

  /** `Summarise` as a function value, defined on the results with products. */
  function Summary(includeDetails: bool): Gathered --> SiteData
  {
    (g: Gathered) requires |g.products| > 0 => Summarise(g, includeDetails)
  }

  /** `aggregate_data`: a dictionary for every gathered result with products, in gathered order. */
  function AggregateData(results: seq<Gathered>, includeDetails: bool): (r: seq<SiteData>)
    ensures |r| == |NonEmpty(results)|
    ensures includeDetails ==> forall i :: 0 <= i < |r| ==> Sortable(r[i])
  {
    SummariesSortable(NonEmpty(results));
    MapWhere(NonEmpty(results), Summary(includeDetails))
  }

  /** The aggregate holds, position by position, the summary of each site with products. */
  lemma AggregateSpec(results: seq<Gathered>, includeDetails: bool)
    ensures var r := AggregateData(results, includeDetails);
      forall i :: 0 <= i < |r| ==> r[i] == Summarise(NonEmpty(results)[i], includeDetails)
  {
  }

  lemma AggregateAppend(a: seq<Gathered>, b: seq<Gathered>, includeDetails: bool)
    ensures AggregateData(a + b, includeDetails) == AggregateData(a, includeDetails) + AggregateData(b, includeDetails)
  {
    NonEmptyAppend(a, b);
    MapWhereAppend(NonEmpty(a), NonEmpty(b), Summary(includeDetails));
  }

  /** A site appears in the aggregate exactly when its scrape returned products. */
  lemma AggregateMembers(results: seq<Gathered>, includeDetails: bool, g: Gathered)
    ensures (exists i :: 0 <= i < |AggregateData(results, includeDetails)| && NonEmpty(results)[i] == g)
            <==> g in results && |g.products| > 0
  {
    NonEmptyMembers(results, g);
  }

  /** The number of products over all sites is the number of products scraped. */
  lemma {:induction false} AggregateTotal(results: seq<Gathered>, includeDetails: bool)
    ensures Total(AggregateData(results, includeDetails)) == Sum(ProductCounts(results))
    decreases |results|
  {
    if |results| > 0 {
      AggregateTotal(results[..|results| - 1], includeDetails);
      AggregateTotalLast(results, includeDetails);
      ProductCountsLast(results);
    }
  }

  lemma AggregateTotalLast(results: seq<Gathered>, includeDetails: bool)
    requires |results| > 0
    ensures var init, x := results[..|results| - 1], results[|results| - 1];
      Total(AggregateData(results, includeDetails)) == Total(AggregateData(init, includeDetails)) + |x.products|
  {
    var init, x := results[..|results| - 1], results[|results| - 1];
    assert results == init + [x];
    var a, b := AggregateData(init, includeDetails), AggregateData([x], includeDetails);
    AggregateAppend(init, [x], includeDetails);
    TotalAppend(a, b);
    AggregateOne(x, includeDetails);
  }

  lemma ProductCountsLast(results: seq<Gathered>)
    requires |results| > 0
    ensures Sum(ProductCounts(results)) == Sum(ProductCounts(results[..|results| - 1])) + |results[|results| - 1].products|
  {
    var pc := ProductCounts(results);
    assert pc[..|pc| - 1] == ProductCounts(results[..|results| - 1]);
  }

  lemma TotalAppend(a: seq<SiteData>, b: seq<SiteData>)
    ensures Total(a + b) == Total(a) + Total(b)
  {
    assert Qtys(a + b) == Qtys(a) + Qtys(b);
    SumAppend(Qtys(a), Qtys(b));
  }

  lemma AggregateOne(x: Gathered, includeDetails: bool)
    ensures Total(AggregateData([x], includeDetails)) == |x.products|
  {
    var b := AggregateData([x], includeDetails);
    if |x.products| > 0 {
      assert NonEmpty([x]) == [x] by {
        assert [x][1..] == [];
      }
      assert |b| == 1;
      assert b[0].productsQty == |x.products|;
      assert Qtys(b) == [|x.products|];
      assert Qtys(b)[..0] == [];
      assert Sum(Qtys(b)) == Sum([]) + |x.products|;
    } else {
      assert NonEmpty([x]) == [] by {
        assert [x][1..] == [];
      }
      assert Qtys(b) == [];
    }
  }

  /** Every dictionary carries `details` whose prices are all `int` or all `str`, so the sorts
      of the main function never meet a missing key or a mixed `details` list. */
  lemma AggregatedSortable(results: seq<Gathered>)
    ensures forall i :: 0 <= i < |AggregateData(results, true)| ==> Sortable(AggregateData(results, true)[i])
  {
    forall i | 0 <= i < |AggregateData(results, true)| ensures Sortable(AggregateData(results, true)[i]) {
      SummarySortable(NonEmpty(results)[i]);
    }
  }

  lemma SummariesSortable(gs: seq<Gathered>)
    requires forall i :: 0 <= i < |gs| ==> |gs[i].products| > 0
    ensures forall i :: 0 <= i < |gs| ==> Sortable(MapWhere(gs, Summary(true))[i])
  {
    forall i | 0 <= i < |gs| ensures Sortable(MapWhere(gs, Summary(true))[i]) {
      SummarySortable(gs[i]);
    }
  }

  lemma SummarySortable(g: Gathered)
    requires |g.products| > 0
    ensures Sortable(Summarise(g, true))
  {
    var ps := g.products;
    assert Summarise(g, true).details == Some(Details(ps));
    assert forall k :: 0 <= k < |ps| ==> DetailKey(Details(ps)[k]) == Prices(ps)[k];
  }

  /** A site whose scrape succeeded contributes `str` prices: every scraped price keeps the
      currency suffix, which `int()` refuses. */
  lemma ScrapedSiteHasStrPrices<C>(site: Site<C>, product: string, pages: seq<Option<seq<bv8>>>,
                                   g: Gathered, includeDetails: bool)
    requires Scrape(site, product, pages).Success?
    requires g.products == Scrape(site, product, pages).value.products && |g.products| > 0
    ensures Summarise(g, includeDetails).priceUahMin.Str?
    ensures Summarise(g, includeDetails).priceUahMax.Str?
  {
    ScrapedPricesNotInt(site, product, pages);
    SummariseSpec(g, includeDetails);
    assert g.products[0] in g.products;
  }

  // ---------------------------------------------------------------- command line

  /** `args.name.replace('_', ' ').lower()`: the product name the sites are searched for. */
  function DecodeName(arg: string): (r: string)
    ensures |r| == |arg|
    ensures '_' !in r
  {
    var spaced := ReplaceChar(arg, '_', ' ');
    LowerStrKeepsClass(spaced);
    LowerStr(spaced)
  }

  /** The report's text as printed when the run ends, and the exception that ended it, if any.
      The progress lines that `scrape` and `fetch_data` print are not part of it. */
  datatype Output = Output(text: string, raised: Option<PyError>)

  /** The total line and the blank line before the site blocks. */
  function DisplayHeader(total: nat): string
  {
    "\n" + TotalLine(total) + "\n"
  }

  /** The site blocks, printed one line at a time: a `str` price stops the report right after the
      site's count line, since `{v:,}` raises before its line is printed. */
  function DisplaySites(sites: seq<SiteData>): (r: Output)
    ensures r.raised.None? || r.raised == Some(ValueError)
  {
    if |sites| == 0 then Output("", None)
    else
      match Block(sites[0])
      case Failure(e) => Output(BlockHead(sites[0]), Some(e))
      case Success(b) =>
        var rest := DisplaySites(sites[1..]);
        Output(b + rest.text, rest.raised)
  }

  /** `display_scraped_data`: the header with the total, then the site blocks. It ends normally
      exactly when every block renders, and then shows all of them. */
  function DisplayScrapedData(sites: seq<SiteData>): (r: Output)
    ensures |r.text| > 0 && r.text[0] == '\n'
    ensures r.raised.None? <==> Blocks(sites).Success?
    ensures r.raised.Some? ==> r.raised == Some(ValueError)
    ensures Blocks(sites).Success? ==> r.text == DisplayHeader(Total(sites)) + Blocks(sites).value
  {
    DisplaySitesSpec(sites);
    var body := DisplaySites(sites);
    Output(DisplayHeader(Total(sites)) + body.text, body.raised)
  }

  /** The report ends normally exactly when every block renders, and then shows every block in
      order; otherwise it shows the blocks before the first site with a `str` price, that site's
      name and count lines, and ends with `ValueError`. */
  lemma {:induction false} DisplaySitesSpec(sites: seq<SiteData>)
    ensures DisplaySites(sites).raised.None? <==> Blocks(sites).Success?
    ensures Blocks(sites).Success? ==> DisplaySites(sites).text == Blocks(sites).value
    ensures DisplaySites(sites).raised.Some? ==>
              exists k :: FirstFailure(sites, k) && Blocks(sites[..k]).Success? &&
                DisplaySites(sites).text == Blocks(sites[..k]).value + BlockHead(sites[k])
  {
    if |sites| == 0 {
      BlocksEmpty();
    } else {
      var x, rest := sites[0], sites[1..];
      assert sites == [x] + rest;
      DisplaySitesSpec(rest);
      BlocksCons(x, rest);
      if Block(x).Failure? {
        assert FirstFailure(sites, 0);
        assert sites[..0] == [];
        BlocksEmpty();
        assert DisplaySites(sites).text == Blocks(sites[..0]).value + BlockHead(sites[0]);
      } else if DisplaySites(rest).raised.Some? {
        var k :| FirstFailure(rest, k) && Blocks(rest[..k]).Success? &&
                 DisplaySites(rest).text == Blocks(rest[..k]).value + BlockHead(rest[k]);
        FirstFailureCons(x, rest, k);
        PrefixCons(x, rest, k);
        BlocksCons(x, rest[..k]);
        var b, bs, h := Block(x).value, Blocks(rest[..k]).value, BlockHead(rest[k]);
        assert DisplaySites(sites).text == b + (bs + h);
        ConcatAssoc(b, bs, h);
        assert sites[k + 1] == rest[k];
      }
    }
  }

  lemma PrefixCons<T>(x: T, rest: seq<T>, k: int)
    requires 0 <= k <= |rest|
    ensures ([x] + rest)[..k + 1] == [x] + rest[..k]
  {
  }

  lemma FirstFailureCons(x: SiteData, rest: seq<SiteData>, k: int)
    requires Block(x).Success? && FirstFailure(rest, k)
    ensures FirstFailure([x] + rest, k + 1)
  {
    var sites := [x] + rest;
    forall j | 0 <= j < k + 1 ensures Block(sites[j]).Success? {
      if j > 0 {
        assert sites[j] == rest[j - 1];
      }
    }
    assert sites[k + 1] == rest[k];
  }

  /** Site `k` is the first whose block does not render. */
  predicate FirstFailure(sites: seq<SiteData>, k: int)
  {
    0 <= k < |sites| && Block(sites[k]).Failure? &&
    forall j :: 0 <= j < k ==> Block(sites[j]).Success?
  }

  /** The aggregate of `main` (with details) after both sorts. */
  function SortedAggregate(results: seq<Gathered>): (r: Result<seq<SiteData>>)
    ensures r.Success? <==> KeysHomogeneous(AggregateData(results, true), MinKey)
    ensures r.Failure? ==> r.error == TypeError
    ensures r.Success? ==> SortedBy(r.value, MinKey)
    ensures r.Success? ==> multiset(Summaries(r.value)) == multiset(Summaries(AggregateData(results, true)))
    ensures r.Success? ==> multiset(r.value) == multiset(SortAllDetails(AggregateData(results, true)))
    ensures r.Success? ==>
              forall k :: WithKey(r.value, MinKey, k) == SortAllDetails(WithKey(AggregateData(results, true), MinKey, k))
  {
    AggregatedSortable(results);
    SortReport(AggregateData(results, true))
  }

  /** `main` with `-v`: aggregate with details, sort, print. A `TypeError` of the sort ends the
      run before anything is printed; otherwise only `{v:,}` can raise, with `ValueError`. */
  function RunReport(results: seq<Gathered>): (r: Output)
    ensures r.raised == Some(TypeError) <==> !KeysHomogeneous(AggregateData(results, true), MinKey)
    ensures r.raised == Some(TypeError) ==> r.text == ""
    ensures r.raised.None? || r.raised == Some(TypeError) || r.raised == Some(ValueError)
  {
    match SortedAggregate(results)
    case Failure(e) => Output("", Some(e))
    case Success(sorted) => DisplayScrapedData(sorted)
  }

  /** When every site's prices are `int`s the report completes: the total counts every scraped
      product, and each site's block follows in order of the lowest price. */
  lemma ReportOfIntPrices(results: seq<Gathered>)
    requires forall g :: g in results ==> AllPricesInt(g.products)
    ensures SortedAggregate(results).Success?
    ensures RunReport(results).raised.None? && Blocks(SortedAggregate(results).value).Success?
    ensures RunReport(results).text ==
              DisplayHeader(Sum(ProductCounts(results))) + Blocks(SortedAggregate(results).value).value
  {
    IntPricesRender(results);
    var sorted := SortedAggregate(results).value;
    DisplaySitesSpec(sorted);
    SortedTotal(AggregateData(results, true), sorted);
    AggregateTotal(results, true);
    var out := DisplayScrapedData(sorted);
    assert RunReport(results) == out;
    assert out.text == DisplayHeader(Total(sorted)) + DisplaySites(sorted).text;
  }

  /** With `int` prices only, the sort succeeds and every block renders. */
  lemma IntPricesRender(results: seq<Gathered>)
    requires forall g :: g in results ==> AllPricesInt(g.products)
    ensures SortedAggregate(results).Success?
    ensures Blocks(SortedAggregate(results).value).Success?
  {
    var sites := AggregateData(results, true);
    AggregatedSortable(results);
    IntPricesNumeric(results, true);
    SortedNumericSitesRender(sites);
    BlocksSucceed(SortReport(sites).value);
  }

  lemma SortedNumericSitesRender(sites: seq<SiteData>)
    requires forall i :: 0 <= i < |sites| ==> Sortable(sites[i])
    requires forall i :: 0 <= i < |sites| ==> sites[i].priceUahMin.Num? && sites[i].priceUahMax.Num?
    ensures SortReport(sites).Success?
    ensures forall i :: 0 <= i < |SortReport(sites).value| ==> Block(SortReport(sites).value[i]).Success?
  {
    var sorted := SortReport(sites).value;
    forall i | 0 <= i < |sorted| ensures Block(sorted[i]).Success? {
      var j :| 0 <= j < |sites| && sorted[i] == SortDetails(sites[j]);
      NumericSiteRenders(sorted[i]);
    }
  }

  lemma IntPricesNumeric(results: seq<Gathered>, includeDetails: bool)
    requires forall g :: g in results ==> AllPricesInt(g.products)
    ensures forall i :: 0 <= i < |AggregateData(results, includeDetails)| ==>
              AggregateData(results, includeDetails)[i].priceUahMin.Num? &&
              AggregateData(results, includeDetails)[i].priceUahMax.Num?
  {
    var sites := AggregateData(results, includeDetails);
    forall i | 0 <= i < |sites| ensures sites[i].priceUahMin.Num? && sites[i].priceUahMax.Num? {
      var g := NonEmpty(results)[i];
      NonEmptyMembers(results, g);
      SummariseSpec(g, includeDetails);
    }
  }

  lemma SortedTotal(sites: seq<SiteData>, sorted: seq<SiteData>)
    requires multiset(Summaries(sorted)) == multiset(Summaries(sites))
    ensures Total(sorted) == Total(sites)
  {
    MapPermutes(Summaries(sorted), Summaries(sites), Qty);
    assert MapSeq(Summaries(sorted), Qty) == Qtys(sorted);
    assert MapSeq(Summaries(sites), Qty) == Qtys(sites);
    SumPermutes(Qtys(sorted), Qtys(sites));
  }

  function Qty(s: SiteData): nat
  {
    s.productsQty
  }

  /** Every record aggregated from scraped sites has `str` bounds. */
  lemma ScrapedAggregateStr<C>(results: seq<Gathered>, sites: seq<Site<C>>, product: string,
                               pages: seq<seq<Option<seq<bv8>>>>)
    requires |sites| == |results| == |pages|
    requires forall i :: 0 <= i < |results| ==>
               (Scrape(sites[i], product, pages[i]).Success? &&
                results[i].products == Scrape(sites[i], product, pages[i]).value.products)
    ensures var agg := AggregateData(results, true);
      forall i :: 0 <= i < |agg| ==> agg[i].priceUahMin.Str? && agg[i].priceUahMax.Str?
  {
    var agg := AggregateData(results, true);
    forall i | 0 <= i < |agg| ensures agg[i].priceUahMin.Str? && agg[i].priceUahMax.Str? {
      var g := NonEmpty(results)[i];
      NonEmptyMembers(results, g);
      var k :| 0 <= k < |results| && results[k] == g;
      ScrapedSiteHasStrPrices(sites[k], product, pages[k], g, true);
    }
  }

  /** With the sites as scraped, every price keeps its currency suffix: as soon as one site has
      products, the report stops with `ValueError` after the first site's count line. */
  lemma ReportOfScrapedSites<C>(results: seq<Gathered>, sites: seq<Site<C>>, product: string,
                                pages: seq<seq<Option<seq<bv8>>>>)
    requires |sites| == |results| == |pages|
    requires forall i :: 0 <= i < |results| ==>
               (Scrape(sites[i], product, pages[i]).Success? &&
                results[i].products == Scrape(sites[i], product, pages[i]).value.products)
    requires exists i :: 0 <= i < |results| && |results[i].products| > 0
    ensures RunReport(results).raised == Some(ValueError)
  {
    var agg := AggregateData(results, true);
    AggregatedSortable(results);
    ScrapedAggregateStr(results, sites, product, pages);
    var i0 :| 0 <= i0 < |results| && |results[i0].products| > 0;
    NonEmptyMembers(results, results[i0]);
    assert |agg| > 0;
    var sorted := SortReport(agg).value;
    assert |sorted| > 0;
    var j :| 0 <= j < |agg| && sorted[0] == SortDetails(agg[j]);
    assert Block(sorted[0]).Failure?;
    DisplaySitesSpec(sorted);
    BlocksSucceed(sorted);
  }
}
