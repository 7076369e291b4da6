/** The aggregation used for chat replies: like the command-line one, but the minimum and maximum
    come from sorting the `int` prices, and a site whose prices do not all convert never assigns
    them, so it reports the bounds left over from the previous site with products, or raises
    `UnboundLocalError` when there is none. The reply text shares the site blocks of the
    command-line report. */
module GenerateResult {
  import opened Wrappers
  import opened PyStr
  import opened Numerals
  import opened PyOrder
  import opened Sorting
  import opened Seqs
  import opened WebsiteScraper
  import opened WebsiteData
  import Scraper

  /** The sort key of a plain list of prices. */
  function Self(v: PyVal): PyVal
  {
    v
  }

  /** `sorted([int(product.price) for product in products])`: a sorted copy of the `int` prices. */
  function SortedPrices(g: Gathered): (r: seq<PyVal>)
    requires |g.products| > 0 && AllPricesInt(g.products)
    ensures |r| == |g.products| && SortedBy(r, Self)
    ensures multiset(r) == multiset(Prices(g.products))
    ensures forall i :: 0 <= i < |r| ==> r[i].Num?
  {
    var prices := Prices(g.products);
    SortNumbers(prices);
    PySorted(prices, Self).value
  }

  /** Sorting a list of `int`s succeeds and gives a list of `int`s of the same length. */
  lemma SortNumbers(s: seq<PyVal>)
    requires forall i :: 0 <= i < |s| ==> s[i].Num?
    ensures PySorted(s, Self).Success?
    ensures |PySorted(s, Self).value| == |s|
    ensures forall i :: 0 <= i < |s| ==> PySorted(s, Self).value[i].Num?
  {
    assert KeysHomogeneous(s, Self);
    var r := PySorted(s, Self).value;
    assert |r| == |s| by {
      assert |multiset(r)| == |multiset(s)|;
    }
    forall i | 0 <= i < |r| ensures r[i].Num? {
      assert r[i] in multiset(s);
    }
  }

  /** `prices[0]` and `prices[-1]` of the sorted list, when every price converts; otherwise the
      conversion raised and neither is assigned. */
  function SortedBounds(g: Gathered): (r: Option<(int, int)>)
    requires |g.products| > 0
    ensures r.Some? <==> AllPricesInt(g.products)
  {
    if AllPricesInt(g.products) then
      var sorted := SortedPrices(g);
      Some((sorted[0].n, sorted[|sorted| - 1].n))
    else None
  }

  /** The ends of the sorted prices are the smallest and the largest price, the values `min` and
      `max` give in the command-line aggregation. */
  lemma SortedBoundsAreExtremes(g: Gathered)
    requires |g.products| > 0 && AllPricesInt(g.products)
    ensures Num(SortedBounds(g).value.0) == Scraper.Summarise(g, true).priceUahMin
    ensures Num(SortedBounds(g).value.1) == Scraper.Summarise(g, true).priceUahMax
  {
    var prices := Prices(g.products);
    var sorted := SortedPrices(g);
    SortedEnds(prices, sorted);
    assert SortedBounds(g).value == (sorted[0].n, sorted[|sorted| - 1].n);
    var s := Scraper.Summarise(g, true);
    assert s.priceUahMin == Minimum(prices) && s.priceUahMax == Maximum(prices);
  }

  /** The first and last elements of a sorted permutation are the `min` and the `max`. */
  lemma SortedEnds(s: seq<PyVal>, sorted: seq<PyVal>)
    requires |s| > 0 && Homogeneous(s)
    requires multiset(sorted) == multiset(s) && SortedBy(sorted, Self)
    ensures |sorted| > 0
    ensures sorted[0] == Minimum(s) && sorted[|sorted| - 1] == Maximum(s)
  {
    SortedFirst(s, sorted);
    SortedLast(s, sorted);
  }

  lemma SortedFirst(s: seq<PyVal>, sorted: seq<PyVal>)
    requires |s| > 0 && Homogeneous(s)
    requires multiset(sorted) == multiset(s) && SortedBy(sorted, Self)
    ensures |sorted| > 0 && sorted[0] == Minimum(s)
  {
    var mn := Minimum(s);
    var c := IndexOf(s, mn);
    var i := IndexOf(sorted, mn);
    var lo := sorted[0];
    var a := IndexOf(s, lo);
    if i > 0 {
      assert !Less(Self(sorted[i]), Self(sorted[0]));
    }
    assert !Less(mn, lo);
    assert !Less(s[a], mn);
    assert SameKind(lo, mn) by {
      assert s[a].Num? == s[c].Num?;
    }
    LessTotal(lo, mn);
  }

  lemma SortedLast(s: seq<PyVal>, sorted: seq<PyVal>)
    requires |s| > 0 && Homogeneous(s)
    requires multiset(sorted) == multiset(s) && SortedBy(sorted, Self)
    ensures |sorted| > 0 && sorted[|sorted| - 1] == Maximum(s)
  {
    var mx := Maximum(s);
    var d := IndexOf(s, mx);
    var j := IndexOf(sorted, mx);
    var last := |sorted| - 1;
    var hi := sorted[last];
    var b := IndexOf(s, hi);
    if j < last {
      assert !Less(Self(sorted[last]), Self(sorted[j]));
    }
    assert !Less(hi, mx);
    assert !Less(mx, s[b]);
    assert SameKind(hi, mx) by {
      assert s[b].Num? == s[d].Num?;
    }
    LessTotal(hi, mx);
  }

  /** A site record with the given minimum and maximum. */
  function WithBounds(s: SiteData, b: (int, int)): (r: SiteData)
    ensures r.priceUahMin == Num(b.0) && r.priceUahMax == Num(b.1)
    ensures Unbounded(r) == Unbounded(s)
  {
    s.(priceUahMin := Num(b.0), priceUahMax := Num(b.1))
  }

  /** A site record with its bounds blanked out, for comparing the other fields. */
  function Unbounded(s: SiteData): SiteData
  {
    s.(priceUahMin := Num(0), priceUahMax := Num(0))
  }

  /** The loop of `aggregate_data` over the gathered results; `last` holds the minimum and
      maximum the loop assigned most recently, `None` before the first assignment. */
  function AggregateFrom(results: seq<Gathered>, last: Option<(int, int)>): (r: Result<seq<SiteData>>)
    ensures r.Failure? ==> r.error == UnboundLocalError
    ensures r.Success? ==> forall i :: 0 <= i < |r.value| ==> NumericBounds(r.value[i])
    decreases |results|
  {
    if |results| == 0 then Success([])
    else if |results[0].products| == 0 then AggregateFrom(results[1..], last)
    else
      var g := results[0];
      var bounds := if AllPricesInt(g.products) then SortedBounds(g) else last;
      if bounds.None? then Failure(UnboundLocalError)
      else
        var rest :- AggregateFrom(results[1..], bounds);
        var x := WithBounds(Scraper.Summarise(g, true), bounds.value);
        NumericCons(x, rest);
        Success([x] + rest)
  }

  predicate NumericBounds(s: SiteData)
  {
    s.priceUahMin.Num? && s.priceUahMax.Num?
  }

  lemma NumericCons(x: SiteData, rest: seq<SiteData>)
    requires NumericBounds(x)
    requires forall i :: 0 <= i < |rest| ==> NumericBounds(rest[i])
    ensures forall i :: 0 <= i < |[x] + rest| ==> NumericBounds(([x] + rest)[i])
  {
  }

  /** `aggregate_data`. */
  function AggregateData(results: seq<Gathered>): Result<seq<SiteData>>
  {
    AggregateFrom(results, None)
  }

  /** The loop raises exactly when the first site with products has a price `int()` refuses and
      no earlier site assigned the bounds. */
  lemma {:induction false} AggregateFromSucceeds(results: seq<Gathered>, last: Option<(int, int)>)
    ensures AggregateFrom(results, last).Success? <==>
              last.Some? || |NonEmpty(results)| == 0 || AllPricesInt(NonEmpty(results)[0].products)
    ensures AggregateFrom(results, last).Failure? ==> AggregateFrom(results, last).error == UnboundLocalError
    decreases |results|
  {
    if |results| > 0 {
      var g := results[0];
      if |g.products| == 0 {
        AggregateFromSucceeds(results[1..], last);
      } else {
        var bounds := if AllPricesInt(g.products) then SortedBounds(g) else last;
        AggregateFromSucceeds(results[1..], bounds);
      }
    }
  }

  /** `x` is the record of site `g`, with `int` bounds, which are `g`'s own when all of `g`'s
      prices convert. */
  predicate Agrees(x: SiteData, g: Gathered)
  {
    |g.products| > 0 &&
    x.priceUahMin.Num? && x.priceUahMax.Num? &&
    Unbounded(x) == Unbounded(Scraper.Summarise(g, true)) &&
    (AllPricesInt(g.products) ==> x == Scraper.Summarise(g, true))
  }

  lemma AgreesFirst(g: Gathered, last: Option<(int, int)>)
    requires |g.products| > 0
    requires AllPricesInt(g.products) || last.Some?
    ensures var bounds := if AllPricesInt(g.products) then SortedBounds(g) else last;
      Agrees(WithBounds(Scraper.Summarise(g, true), bounds.value), g)
  {
    if AllPricesInt(g.products) {
      SortedBoundsAreExtremes(g);
    }
  }

  /** A relation that holds position by position still does after putting a related pair in
      front. */
  lemma ConsPointwise<X, Y>(rel: (X, Y) -> bool, x: X, y: Y, xs: seq<X>, ys: seq<Y>)
    requires rel(x, y) && |xs| == |ys|
    requires forall i :: 0 <= i < |xs| ==> rel(xs[i], ys[i])
    ensures forall i :: 0 <= i < |xs| + 1 ==> rel(([x] + xs)[i], ([y] + ys)[i])
  {
    forall i | 0 <= i < |xs| + 1 ensures rel(([x] + xs)[i], ([y] + ys)[i]) {
      if i > 0 {
        assert ([x] + xs)[i] == xs[i - 1] && ([y] + ys)[i] == ys[i - 1];
      }
    }
  }

  /** One record per site with products, in gathered order; each agrees with the command-line
      record apart from its bounds, which are always `int`s, and equals it when all of the site's
      prices convert. */
  lemma {:induction false} AggregateFromShape(results: seq<Gathered>, last: Option<(int, int)>)
    requires AggregateFrom(results, last).Success?
    ensures |AggregateFrom(results, last).value| == |NonEmpty(results)|
    ensures forall i :: 0 <= i < |NonEmpty(results)| ==> Agrees(AggregateFrom(results, last).value[i], NonEmpty(results)[i])
    decreases |results|
  {
    if |results| > 0 {
      var g := results[0];
      NonEmptyCons(results);
      if |g.products| == 0 {
        AggregateFromShape(results[1..], last);
      } else {
        var bounds := if AllPricesInt(g.products) then SortedBounds(g) else last;
        AggregateFromCons(results, last);
        var x := WithBounds(Scraper.Summarise(g, true), bounds.value);
        var rest := AggregateFrom(results[1..], bounds).value;
        AggregateFromShape(results[1..], bounds);
        AgreesFirst(g, last);
        ConsPointwise(Agrees, x, g, rest, NonEmpty(results[1..]));
      }
    }
  }

  /** One loop step for a site with products: the bounds are set, and its record heads the rest. */
  lemma AggregateFromCons(results: seq<Gathered>, last: Option<(int, int)>)
    requires |results| > 0 && |results[0].products| > 0 && AggregateFrom(results, last).Success?
    ensures var g := results[0];
      var bounds := if AllPricesInt(g.products) then SortedBounds(g) else last;
      && bounds.Some? && AggregateFrom(results[1..], bounds).Success?
      && AggregateFrom(results, last).value ==
           [WithBounds(Scraper.Summarise(g, true), bounds.value)] + AggregateFrom(results[1..], bounds).value
  {
    var g := results[0];
    var bounds := if AllPricesInt(g.products) then SortedBounds(g) else last;
    assert bounds.Some?;
    var rest := AggregateFrom(results[1..], bounds);
    assert rest.Success?;
    assert AggregateFrom(results, last) == Success([WithBounds(Scraper.Summarise(g, true), bounds.value)] + rest.value);
  }

  /** The minimum and maximum of every record. */
  function BoundsOf(r: seq<SiteData>): (b: seq<(PyVal, PyVal)>)
    ensures |b| == |r|
    ensures forall i :: 0 <= i < |r| ==> b[i] == (r[i].priceUahMin, r[i].priceUahMax)
  {
    seq(|r|, i requires 0 <= i < |r| => (r[i].priceUahMin, r[i].priceUahMax))
  }

  /** For every site, whether all its prices convert. */
  function IntFlags(kept: seq<Gathered>): (f: seq<bool>)
    ensures |f| == |kept|
    ensures forall i :: 0 <= i < |kept| ==> f[i] == IntSite(kept[i])
  {
    MapSeq(kept, IntSite)
  }

  predicate IntSite(g: Gathered)
  {
    AllPricesInt(g.products)
  }

  lemma BoundsOfCons(x: SiteData, rest: seq<SiteData>)
    ensures BoundsOf([x] + rest) == [(x.priceUahMin, x.priceUahMax)] + BoundsOf(rest)
  {
  }

  lemma IntFlagsCons(g: Gathered, rest: seq<Gathered>)
    ensures IntFlags([g] + rest) == [IntSite(g)] + IntFlags(rest)
  {
    MapAppend([g], rest, IntSite);
  }

  /** Every entry whose flag is off repeats the entry before it, the first one repeating `b0`. */
  predicate Carries(b0: (PyVal, PyVal), bs: seq<(PyVal, PyVal)>, flags: seq<bool>)
  {
    |bs| == |flags| &&
    (forall i :: 0 < i < |bs| && !flags[i] ==> bs[i] == bs[i - 1]) &&
    (|bs| > 0 && !flags[0] ==> bs[0] == b0)
  }

  lemma ConsCarries(b0: (PyVal, PyVal), x: (PyVal, PyVal), bs: seq<(PyVal, PyVal)>, f: bool, flags: seq<bool>)
    requires Carries(x, bs, flags)
    requires !f ==> x == b0
    ensures Carries(b0, [x] + bs, [f] + flags)
  {
    var xs, fs := [x] + bs, [f] + flags;
    forall i | 0 < i < |xs| && !fs[i] ensures xs[i] == xs[i - 1] {
      assert xs[i] == bs[i - 1] && fs[i] == flags[i - 1];
      if i > 1 {
        assert xs[i - 1] == bs[i - 2];
      }
    }
  }

  /** The stale bounds: a site whose prices do not all convert reports the minimum and maximum
      of the site before it, or the bounds carried in when it comes first. */
  lemma {:induction false} AggregateFromStale(results: seq<Gathered>, last: Option<(int, int)>)
    requires AggregateFrom(results, last).Success?
    ensures var b := BoundsOf(AggregateFrom(results, last).value);
      var f := IntFlags(NonEmpty(results));
      |b| == |f| && (|b| > 0 && !f[0] ==> last.Some?) &&
      Carries(if last.Some? then (Num(last.value.0), Num(last.value.1)) else (Num(0), Num(0)), b, f)
    decreases |results|
  {
    if |results| > 0 {
      var g := results[0];
      if |g.products| == 0 {
        AggregateFromStale(results[1..], last);
      } else {
        var bounds := if AllPricesInt(g.products) then SortedBounds(g) else last;
        AggregateFromCons(results, last);
        AggregateFromStale(results[1..], bounds);
        var x := WithBounds(Scraper.Summarise(g, true), bounds.value);
        var rest := AggregateFrom(results[1..], bounds).value;
        NonEmptyCons(results);
        BoundsOfCons(x, rest);
        IntFlagsCons(g, NonEmpty(results[1..]));
        var b0 := if last.Some? then (Num(last.value.0), Num(last.value.1)) else (Num(0), Num(0));
        ConsCarries(b0, (x.priceUahMin, x.priceUahMax), BoundsOf(rest), IntSite(g),
                    IntFlags(NonEmpty(results[1..])));
      }
    }
  }

  /** With every site's prices converting, the loop builds exactly the command-line aggregate. */
  lemma AgreesWithCommandLine(results: seq<Gathered>, last: Option<(int, int)>)
    requires forall g :: g in results ==> AllPricesInt(g.products)
    ensures AggregateFrom(results, last) == Success(Scraper.AggregateData(results, true))
  {
    AllIntSucceeds(results, last);
    AggregateFromShape(results, last);
    AgreeingIsAggregate(AggregateFrom(results, last).value, results);
  }

  lemma AllIntSucceeds(results: seq<Gathered>, last: Option<(int, int)>)
    requires forall g :: g in results ==> AllPricesInt(g.products)
    ensures AggregateFrom(results, last).Success?
  {
    AggregateFromSucceeds(results, last);
    var kept := NonEmpty(results);
    if |kept| > 0 {
      NonEmptyMembers(results, kept[0]);
    }
  }

  /** Records that agree one by one with the sites with products, all of whose prices convert,
      are the command-line aggregate. */
  lemma AgreeingIsAggregate(r: seq<SiteData>, results: seq<Gathered>)
    requires forall g :: g in results ==> AllPricesInt(g.products)
    requires |r| == |NonEmpty(results)|
    requires forall i :: 0 <= i < |r| ==> Agrees(r[i], NonEmpty(results)[i])
    ensures r == Scraper.AggregateData(results, true)
  {
    var kept, a := NonEmpty(results), Scraper.AggregateData(results, true);
    forall i | 0 <= i < |r| ensures r[i] == a[i] {
      NonEmptyMembers(results, kept[i]);
      AgreesInt(r[i], kept[i]);
    }
  }

  /** A record that agrees with a site whose prices all convert is that site's command-line record. */
  lemma AgreesInt(x: SiteData, g: Gathered)
    requires Agrees(x, g) && AllPricesInt(g.products)
    ensures x == Scraper.Summarise(g, true)
  {
  }

  /** Every record carries a `details` list that sorts. */
  lemma AggregateSortable(results: seq<Gathered>)
    requires AggregateData(results).Success?
    ensures forall i :: 0 <= i < |AggregateData(results).value| ==> Sortable(AggregateData(results).value[i])
  {
    AggregateFromShape(results, None);
    var r, kept := AggregateData(results).value, NonEmpty(results);
    forall i | 0 <= i < |r| ensures Sortable(r[i]) {
      Scraper.SummarySortable(kept[i]);
      assert r[i].details == Unbounded(r[i]).details;
    }
  }

  // ---------------------------------------------------------------- reply text

  /** The bold product name that opens the reply. */
  function TitleLine(productName: string): string
  {
    "<b>" + productName + "</b>\n"
  }

  /** `format_scraped_data`: the title, the total, then one block per site; `{v:,}` on a `str`
      bound raises `ValueError`. */
  function FormatScrapedData(sites: seq<SiteData>, productName: string): (r: Result<string>)
    ensures r.Success? <==> forall i :: 0 <= i < |sites| ==> Block(sites[i]).Success?
    ensures r.Failure? ==> r.error == ValueError
  {
    BlocksSucceed(sites);
    var blocks :- Blocks(sites);
    Success(TitleLine(productName) + (TotalLine(Total(sites)) + "\n" + blocks))
  }

  /** The reply and the command-line report agree: both complete exactly when every block renders,
      and the reply is the report with its leading blank line replaced by the title line. */
  lemma FormatMatchesDisplay(sites: seq<SiteData>, productName: string)
    ensures FormatScrapedData(sites, productName).Success? <==> Scraper.DisplayScrapedData(sites).raised.None?
    ensures FormatScrapedData(sites, productName).Success? ==>
              FormatScrapedData(sites, productName).value ==
              TitleLine(productName) + Scraper.DisplayScrapedData(sites).text[1..]
  {
    Scraper.DisplaySitesSpec(sites);
    if Blocks(sites).Success? {
      FormatText(sites, productName);
    }
  }

  lemma FormatText(sites: seq<SiteData>, productName: string)
    requires Blocks(sites).Success?
    requires Scraper.DisplaySites(sites).text == Blocks(sites).value
    ensures FormatScrapedData(sites, productName).value ==
              TitleLine(productName) + Scraper.DisplayScrapedData(sites).text[1..]
  {
    ReplaceLeadingLine(TitleLine(productName), "\n", TotalLine(Total(sites)), Blocks(sites).value);
  }

  lemma ReplaceLeadingLine<T>(title: seq<T>, nl: seq<T>, a: seq<T>, b: seq<T>)
    requires |nl| == 1
    ensures title + ((a + nl) + b) == title + (((nl + a) + nl) + b)[1..]
  {
    assert ((nl + a) + nl) + b == nl + ((a + nl) + b);
  }

  /** `generate_formatted_output` without the elapsed-time line: aggregate, sort the sites and
      their details, format. Only the unassigned bounds can make it fail: once aggregation
      succeeds every bound is an `int`, so the sort and the `{v:,}` formatting both succeed. */
  function GenerateFormattedOutput(results: seq<Gathered>, productName: string): (r: Result<string>)
    ensures r.Success? <==> AggregateData(results).Success?
    ensures r.Failure? ==> r.error == UnboundLocalError
  {
    var sites :- AggregateData(results);
    AggregateSortable(results);
    Scraper.SortedNumericSitesRender(sites);
    var sorted := SortReport(sites).value;
    FormatScrapedData(sorted, productName)
  }

  /** With every price converting, the reply is the command-line report under the title line. */
  lemma ReplyMatchesReport(results: seq<Gathered>, productName: string)
    requires forall g :: g in results ==> AllPricesInt(g.products)
    ensures GenerateFormattedOutput(results, productName).Success?
    ensures Scraper.RunReport(results).raised.None? && |Scraper.RunReport(results).text| > 0
    ensures GenerateFormattedOutput(results, productName).value ==
              TitleLine(productName) + Scraper.RunReport(results).text[1..]
  {
    var sites := Scraper.AggregateData(results, true);
    assert AggregateData(results) == Success(sites) by {
      AgreesWithCommandLine(results, None);
    }
    Scraper.IntPricesRender(results);
    var sorted := Scraper.SortedAggregate(results).value;
    assert GenerateFormattedOutput(results, productName) == FormatScrapedData(sorted, productName) by {
      Scraper.AggregatedSortable(results);
      assert SortReport(sites) == Success(sorted);
    }
    assert Scraper.RunReport(results) == Scraper.DisplayScrapedData(sorted);
    FormatMatchesDisplay(sorted, productName);
  }

  /** With the sites as scraped, every price keeps its currency suffix: as soon as one site has
      products, the reply fails with `UnboundLocalError`. */
  lemma ReplyOfScrapedSites<C>(results: seq<Gathered>, sites: seq<Site<C>>, product: string,
                               pages: seq<seq<Option<seq<bv8>>>>, productName: string)
    requires |sites| == |results| == |pages|
    requires forall i :: 0 <= i < |results| ==>
               (Scrape(sites[i], product, pages[i]).Success? &&
                results[i].products == Scrape(sites[i], product, pages[i]).value.products)
    requires exists i :: 0 <= i < |results| && |results[i].products| > 0
    ensures GenerateFormattedOutput(results, productName) == Failure(UnboundLocalError)
  {
    var kept := NonEmpty(results);
    var i0 :| 0 <= i0 < |results| && |results[i0].products| > 0;
    NonEmptyMembers(results, results[i0]);
    assert |kept| > 0;
    NonEmptyMembers(results, kept[0]);
    var k :| 0 <= k < |results| && results[k] == kept[0];
    ScrapedPricesNotInt(sites[k], product, pages[k]);
    assert kept[0].products[0] in kept[0].products;
    AggregateFromSucceeds(results, None);
  }
}
