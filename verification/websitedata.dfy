/** The per-site dictionary both aggregators build after `asyncio.gather`, the two sorts applied
    to the list of them, and the rendering of one site's block, which the CLI report and the bot
    message share. */
module WebsiteData {
  import opened Wrappers
  import opened Chars
  import opened PyStr
  import opened Numerals
  import opened PyOrder
  import opened Sorting
  import opened Seqs
  import opened WebsiteScraper

  /** One pair of the gathered results: the site, the URL its `generate_search_query_url` gave for
      the product (that method is not part of this model, so the URL is an input), and what its
      `scrape` returned. */
  datatype Gathered = Gathered(site: SiteInfo, generatedUrl: string, products: seq<Product>)

  /** An entry of `details`. */
  datatype Detail = Detail(product: string, priceUah: PyVal)

  /** The `website_data` dictionary; `details` is `None` when the key is absent. */
  datatype SiteData = SiteData(
    website: string,
    searchQueryUrl: string,
    priceUahMin: PyVal,
    priceUahMax: PyVal,
    productsQty: nat,
    socialNetwork: string,
    telVodafone: string,
    telKyivstar: string,
    details: Option<seq<Detail>>)

  /** Every product's price is accepted by `int()`. */
  predicate AllPricesInt(ps: seq<Product>)
  {
    forall i :: 0 <= i < |ps| ==> ParseInt(ps[i].price).Some?
  }

  /** `int(price)` of every product, when every price converts. */
  function IntPrices(ps: seq<Product>): (r: seq<PyVal>)
    requires AllPricesInt(ps)
    ensures |r| == |ps|
    ensures forall i :: 0 <= i < |ps| ==> r[i].Num? && ParseInt(ps[i].price) == Some(r[i].n)
  {
    seq(|ps|, i requires 0 <= i < |ps| => Num(ParseInt(ps[i].price).value))
  }

  /** The `prices` list: `int(price)` for every product if all convert, else every raw string. */
  function Prices(ps: seq<Product>): (r: seq<PyVal>)
    ensures |r| == |ps|
    ensures Homogeneous(r)
    ensures AllPricesInt(ps) ==> forall i :: 0 <= i < |ps| ==> r[i].Num? && ParseInt(ps[i].price) == Some(r[i].n)
    ensures !AllPricesInt(ps) ==> forall i :: 0 <= i < |ps| ==> r[i] == Str(ps[i].price)
  {
    if AllPricesInt(ps) then IntPrices(ps)
    else seq(|ps|, i requires 0 <= i < |ps| => Str(ps[i].price))
  }

  /** The `details` list: one entry per product, in product order, priced as in `Prices`. */
  function Details(ps: seq<Product>): (r: seq<Detail>)
    ensures |r| == |ps|
    ensures forall i :: 0 <= i < |r| ==> r[i] == Detail(ps[i].name, Prices(ps)[i])
  {
    var prices := Prices(ps);
    seq(|ps|, i requires 0 <= i < |ps| => Detail(ps[i].name, prices[i]))
  }

  /** The `search_query_url` entry: the generated URL with its spaces replaced by the separator. */
  function SearchQueryUrl(g: Gathered): string
  {
    ReplaceWith(g.generatedUrl, ' ', g.site.searchQuerySeparator)
  }

  /** The gathered results with products, in gathered order (`if products:`). */
  function NonEmpty(results: seq<Gathered>): (r: seq<Gathered>)
    ensures |r| <= |results|
    ensures forall i :: 0 <= i < |r| ==> |r[i].products| > 0
  {
    if |results| == 0 then []
    else (if |results[0].products| > 0 then [results[0]] else []) + NonEmpty(results[1..])
  }

  /** `NonEmpty` keeps exactly the results with products, and keeps them in order. */
  lemma {:induction false} NonEmptyMembers(results: seq<Gathered>, g: Gathered)
    ensures g in NonEmpty(results) <==> g in results && |g.products| > 0
  {
    if |results| > 0 {
      NonEmptyMembers(results[1..], g);
      assert results == [results[0]] + results[1..];
    }
  }

  /** One step of the filter: the first result is kept exactly when it has products. */
  lemma NonEmptyCons(results: seq<Gathered>)
    requires |results| > 0
    ensures |results[0].products| > 0 ==> NonEmpty(results) == [results[0]] + NonEmpty(results[1..])
    ensures |results[0].products| == 0 ==> NonEmpty(results) == NonEmpty(results[1..])
  {
  }

  lemma NonEmptyAppendLength(a: seq<Gathered>, b: seq<Gathered>)
    ensures |NonEmpty(a + b)| == |NonEmpty(a)| + |NonEmpty(b)|
  {
    NonEmptyAppend(a, b);
  }

  /** Position `i` of the sites with products of `a + b`, read in `a` or in `b`. */
  lemma NonEmptyAppendAt(a: seq<Gathered>, b: seq<Gathered>, i: int)
    requires 0 <= i < |NonEmpty(a)| + |NonEmpty(b)|
    ensures |NonEmpty(a + b)| == |NonEmpty(a)| + |NonEmpty(b)|
    ensures i < |NonEmpty(a)| ==> NonEmpty(a + b)[i] == NonEmpty(a)[i]
    ensures i >= |NonEmpty(a)| ==> NonEmpty(a + b)[i] == NonEmpty(b)[i - |NonEmpty(a)|]
  {
    NonEmptyAppend(a, b);
    ConcatAt(NonEmpty(a + b), NonEmpty(a), NonEmpty(b), i);
  }

  lemma {:induction false} NonEmptyAppend(a: seq<Gathered>, b: seq<Gathered>)
    ensures NonEmpty(a + b) == NonEmpty(a) + NonEmpty(b)
  {
    if |a| == 0 {
      assert a + b == b;
    } else {
      assert (a + b)[1..] == a[1..] + b;
      NonEmptyAppend(a[1..], b);
    }
  }

  function Qtys(sites: seq<SiteData>): (r: seq<nat>)
    ensures |r| == |sites|
    ensures forall i :: 0 <= i < |r| ==> r[i] == sites[i].productsQty
  {
    seq(|sites|, i requires 0 <= i < |sites| => sites[i].productsQty)
  }

  /** `sum(website["products_qty"] for website in ...)`. */
  function Total(sites: seq<SiteData>): nat
  {
    Sum(Qtys(sites))
  }

  function ProductCounts(results: seq<Gathered>): (r: seq<nat>)
    ensures |r| == |results|
    ensures forall i :: 0 <= i < |r| ==> r[i] == |results[i].products|
  {
    seq(|results|, i requires 0 <= i < |results| => |results[i].products|)
  }

  // ---------------------------------------------------------------- sorting

  function MinKey(s: SiteData): PyVal
  {
    s.priceUahMin
  }

  function DetailKey(d: Detail): PyVal
  {
    d.priceUah
  }

  /** `details` is present and its prices can be compared with one another. */
  predicate Sortable(s: SiteData)
  {
    s.details.Some? && KeysHomogeneous(s.details.value, DetailKey)
  }

  /** `entry['details'] = sorted(entry['details'], key=lambda x: x['price_uah'])`. */
  function SortDetails(s: SiteData): (r: SiteData)
    requires Sortable(s)
    ensures r.(details := None) == s.(details := None)
    ensures r.details.Some? && SortedBy(r.details.value, DetailKey)
    ensures multiset(r.details.value) == multiset(s.details.value)
    ensures forall k :: WithKey(r.details.value, DetailKey, k) == WithKey(s.details.value, DetailKey, k)
  {
    var ds := PySorted(s.details.value, DetailKey).value;
    s.(details := Some(ds))
  }

  /** The two sorts of the main functions: the sites by `price_uah_min`, then every `details`
      list by `price_uah`. Both are stable; the first raises `TypeError` when some sites have
      `int` minima and others `str` minima. */
  function SortReport(sites: seq<SiteData>): (r: Result<seq<SiteData>>)
    requires forall i :: 0 <= i < |sites| ==> Sortable(sites[i])
    ensures r.Success? <==> KeysHomogeneous(sites, MinKey)
    ensures r.Failure? ==> r.error == TypeError
    ensures r.Success? ==> |r.value| == |sites| && SortedBy(r.value, MinKey)
    ensures r.Success? ==> forall i :: 0 <= i < |r.value| ==>
              exists j :: 0 <= j < |sites| && r.value[i] == SortDetails(sites[j])
    ensures r.Success? ==> multiset(Summaries(r.value)) == multiset(Summaries(sites))
    ensures r.Success? ==> multiset(r.value) == multiset(SortAllDetails(sites))
    ensures r.Success? ==> forall k :: WithKey(r.value, MinKey, k) == SortAllDetails(WithKey(sites, MinKey, k))
  {
    var sorted :- PySorted(sites, MinKey);
    SortedSitesSortable(sites, sorted);
    var r := SortAllDetails(sorted);
    SortAllDetailsSpec(sites, sorted);
    SiteSortRearranges(sites, sorted);
    Success(r)
  }

  /** A rearrangement of sortable sites has as many sites, all sortable. */
  lemma SortedSitesSortable(sites: seq<SiteData>, sorted: seq<SiteData>)
    requires forall i :: 0 <= i < |sites| ==> Sortable(sites[i])
    requires multiset(sorted) == multiset(sites)
    ensures |sorted| == |sites|
    ensures forall i :: 0 <= i < |sorted| ==> Sortable(sorted[i])
  {
    assert |multiset(sorted)| == |multiset(sites)|;
    forall i | 0 <= i < |sorted| ensures Sortable(sorted[i]) {
      assert sorted[i] in multiset(sites);
    }
  }

  /** The `for entry in sorted_result` loop that sorts each `details` list. */
  function SortAllDetails(sorted: seq<SiteData>): (r: seq<SiteData>)
    requires forall i :: 0 <= i < |sorted| ==> Sortable(sorted[i])
    ensures |r| == |sorted|
    ensures forall i :: 0 <= i < |r| ==> r[i] == SortDetails(sorted[i])
  {
    seq(|sorted|, i requires 0 <= i < |sorted| => SortDetails(sorted[i]))
  }

  /** Sorting the `details` lists keeps the order of the sites and everything but the lists. */
  lemma SortAllDetailsSpec(sites: seq<SiteData>, sorted: seq<SiteData>)
    requires forall i :: 0 <= i < |sites| ==> Sortable(sites[i])
    requires forall i :: 0 <= i < |sorted| ==> Sortable(sorted[i])
    requires multiset(sorted) == multiset(sites) && SortedBy(sorted, MinKey)
    ensures SortedBy(SortAllDetails(sorted), MinKey)
    ensures forall i :: 0 <= i < |sorted| ==>
              exists j :: 0 <= j < |sites| && SortAllDetails(sorted)[i] == SortDetails(sites[j])
    ensures multiset(Summaries(SortAllDetails(sorted))) == multiset(Summaries(sites))
  {
    var r := SortAllDetails(sorted);
    assert forall i :: 0 <= i < |r| ==> MinKey(r[i]) == MinKey(sorted[i]);
    forall i | 0 <= i < |r| ensures exists j :: 0 <= j < |sites| && r[i] == SortDetails(sites[j]) {
      assert sorted[i] in multiset(sites);
      var j :| 0 <= j < |sites| && sites[j] == sorted[i];
    }
    SummariesPermute(sorted, sites);
    assert Summaries(r) == Summaries(sorted);
  }

  /** After a stable rearrangement of the sites, sorting their `details` gives the input's sites,
      `details` sorted, in a stable order. */
  lemma SiteSortRearranges(sites: seq<SiteData>, sorted: seq<SiteData>)
    requires forall i :: 0 <= i < |sites| ==> Sortable(sites[i])
    requires forall i :: 0 <= i < |sorted| ==> Sortable(sorted[i])
    requires multiset(sorted) == multiset(sites)
    requires forall k :: WithKey(sorted, MinKey, k) == WithKey(sites, MinKey, k)
    ensures multiset(SortAllDetails(sorted)) == multiset(SortAllDetails(sites))
    ensures forall k :: WithKey(SortAllDetails(sorted), MinKey, k) == SortAllDetails(WithKey(sites, MinKey, k))
  {
    SortAllDetailsPermutes(sorted, sites);
    forall k ensures WithKey(SortAllDetails(sorted), MinKey, k) == SortAllDetails(WithKey(sites, MinKey, k)) {
      SortAllDetailsWithKey(sorted, k);
    }
  }

  /** `SortDetails` on every site that has sortable details; the loop over the sites is a map of it. */
  function SortDetailsWhere(s: SiteData): SiteData
  {
    if Sortable(s) then SortDetails(s) else s
  }

  lemma SortAllDetailsIsMap(sites: seq<SiteData>)
    requires forall i :: 0 <= i < |sites| ==> Sortable(sites[i])
    ensures SortAllDetails(sites) == MapSeq(sites, SortDetailsWhere)
  {
  }

  /** Sorting the `details` of two rearrangements of one list of sites gives two rearrangements. */
  lemma SortAllDetailsPermutes(a: seq<SiteData>, b: seq<SiteData>)
    requires forall i :: 0 <= i < |a| ==> Sortable(a[i])
    requires forall i :: 0 <= i < |b| ==> Sortable(b[i])
    requires multiset(a) == multiset(b)
    ensures multiset(SortAllDetails(a)) == multiset(SortAllDetails(b))
  {
    SortAllDetailsIsMap(a);
    SortAllDetailsIsMap(b);
    MapPermutes(a, b, SortDetailsWhere);
  }

  /** Sorting the `details` keeps every minimum, so it commutes with picking the sites of one minimum. */
  lemma SortAllDetailsWithKey(sites: seq<SiteData>, k: PyVal)
    requires forall i :: 0 <= i < |sites| ==> Sortable(sites[i])
    ensures WithKey(SortAllDetails(sites), MinKey, k) == SortAllDetails(WithKey(sites, MinKey, k))
  {
    forall x ensures MinKey(SortDetailsWhere(x)) == MinKey(x) {
      if Sortable(x) {
        assert SortDetails(x).(details := None) == x.(details := None);
      }
    }
    SortAllDetailsIsMap(sites);
    SortAllDetailsIsMap(WithKey(sites, MinKey, k));
    WithKeyMap(sites, MinKey, SortDetailsWhere, k);
  }

  /** The site records without their `details`. */
  function Summaries(sites: seq<SiteData>): (r: seq<SiteData>)
    ensures |r| == |sites|
    ensures forall i :: 0 <= i < |r| ==> r[i] == sites[i].(details := None)
  {
    seq(|sites|, i requires 0 <= i < |sites| => sites[i].(details := None))
  }

  lemma SummariesPermute(a: seq<SiteData>, b: seq<SiteData>)
    requires multiset(a) == multiset(b)
    ensures multiset(Summaries(a)) == multiset(Summaries(b))
  {
    MapPermutes(a, b, DropDetails);
    assert Summaries(a) == MapSeq(a, DropDetails);
    assert Summaries(b) == MapSeq(b, DropDetails);
  }

  function DropDetails(s: SiteData): SiteData
  {
    s.(details := None)
  }

  // ---------------------------------------------------------------- rendering

  /** `f"{v:,}"`: comma grouping for an `int`; a `str` raises `ValueError`. */
  function FormatComma(v: PyVal): (r: Result<string>)
    ensures r.Success? <==> v.Num?
    ensures r.Failure? ==> r.error == ValueError
    ensures r.Success? ==> GroupedShows(r.value, v.n) && ReadGrouped(r.value) == Some(v.n)
  {
    match v
    case Num(n) =>
      GroupedRoundTrip(n);
      FormatGroupedShows(n);
      Success(FormatGrouped(n))
    case Str(_) => Failure(ValueError)
  }

  const PricePrefix: string := "◽ Ціна: "
  const PriceEnd: string := " грн.\n"
  const RangeMark: string := " -- "

  /** The price line of a site: a single price when minimum and maximum are equal, else a range. */
  function PriceLine(lo: PyVal, hi: PyVal): (r: Result<string>)
    ensures r.Success? <==> lo.Num? && (lo != hi ==> hi.Num?)
    ensures r.Failure? ==> r.error == ValueError
  {
    if lo == hi then
      var a :- FormatComma(lo);
      Success(PricePrefix + a + PriceEnd)
    else
      var a :- FormatComma(lo);
      var b :- FormatComma(hi);
      Success(PricePrefix + a + RangeMark + b + PriceEnd)
  }

  predicate ContainsAt(s: string, i: int, t: string)
  {
    0 <= i && i + |t| <= |s| && s[i..i + |t|] == t
  }

  /** A price line shows a range exactly when the minimum and the maximum differ. */
  lemma PriceLineShowsRange(lo: int, hi: int)
    ensures var line := PriceLine(Num(lo), Num(hi)).value;
      (exists i :: ContainsAt(line, i, RangeMark)) <==> lo != hi
  {
    if lo == hi {
      SingleLineNoRange(lo);
    } else {
      RangeLineHasRange(lo, hi);
    }
  }

  /** The line shows the comma-grouped minimum alone when the bounds agree, and otherwise the
      grouped minimum, the range mark and the grouped maximum; neither number holds `--`, so the
      mark is where the line splits. */
  lemma PriceLineNumbers(lo: int, hi: int)
    ensures lo == hi ==>
              exists g ::
                && PriceLine(Num(lo), Num(hi)).value == PricePrefix + g + PriceEnd
                && GroupedShows(g, lo) && ReadGrouped(g) == Some(lo)
    ensures lo != hi ==>
              exists a, b ::
                && PriceLine(Num(lo), Num(hi)).value == PricePrefix + a + RangeMark + b + PriceEnd
                && GroupedShows(a, lo) && ReadGrouped(a) == Some(lo)
                && GroupedShows(b, hi) && ReadGrouped(b) == Some(hi)
                && NoDoubleDash(a) && NoDoubleDash(b)
  {
    var a, b := FormatGrouped(lo), FormatGrouped(hi);
    GroupedRoundTrip(lo);
    GroupedRoundTrip(hi);
    FormatGroupedShows(lo);
    FormatGroupedShows(hi);
    FormatGroupedDashes(lo);
    FormatGroupedDashes(hi);
  }

  lemma SingleLineNoRange(n: int)
    ensures forall i :: !ContainsAt(PriceLine(Num(n), Num(n)).value, i, RangeMark)
  {
    var a := FormatGrouped(n);
    assert PriceLine(Num(n), Num(n)) == Success(PricePrefix + a + PriceEnd);
    FormatGroupedDashes(n);
    SingleLineNoDoubleDash(a);
    NoDoubleDashNoMark(PricePrefix + a + PriceEnd);
  }

  /** A line without `--` cannot hold the range mark, which has one in its middle. */
  lemma NoDoubleDashNoMark(line: string)
    requires NoDoubleDash(line)
    ensures forall i :: !ContainsAt(line, i, RangeMark)
  {
    forall i ensures !ContainsAt(line, i, RangeMark) {
      if 0 <= i && i + 4 <= |line| {
        assert line[i..i + 4][1] == line[i + 1] && line[i..i + 4][2] == line[i + 2];
      }
    }
  }

  lemma RangeLineHasRange(lo: int, hi: int)
    requires lo != hi
    ensures exists i :: ContainsAt(PriceLine(Num(lo), Num(hi)).value, i, RangeMark)
  {
    var a := FormatGrouped(lo);
    var b := FormatGrouped(hi);
    var line := PricePrefix + a + RangeMark + b + PriceEnd;
    assert PriceLine(Num(lo), Num(hi)).value == line;
    MarkAt(PricePrefix + a, RangeMark, b, PriceEnd);
  }

  lemma MarkAt(x: string, m: string, y: string, z: string)
    ensures ContainsAt(x + m + y + z, |x|, m)
  {
    var s := x + m + y + z;
    assert s[|x|..|x| + |m|] == m;
  }

  /** No two `-` stand next to each other in `s`. */
  predicate NoDoubleDash(s: string)
  {
    forall k :: 0 <= k < |s| - 1 ==> !(s[k] == '-' && s[k + 1] == '-')
  }

  lemma ConcatNoDoubleDash(x: string, y: string)
    requires NoDoubleDash(x) && NoDoubleDash(y)
    requires |x| == 0 || |y| == 0 || x[|x| - 1] != '-' || y[0] != '-'
    ensures NoDoubleDash(x + y)
  {
    var s := x + y;
    forall k | 0 <= k < |s| - 1 ensures !(s[k] == '-' && s[k + 1] == '-') {
      if k + 1 < |x| {
        assert s[k] == x[k] && s[k + 1] == x[k + 1];
      } else if k + 1 == |x| {
        assert s[k] == x[k] && s[k + 1] == y[0];
      } else {
        assert s[k] == y[k - |x|] && s[k + 1] == y[k + 1 - |x|];
      }
    }
  }

  /** A grouped number never holds `--`: its only `-` is a leading sign followed by a digit. */
  lemma FormatGroupedDashes(n: int)
    ensures NoDoubleDash(FormatGrouped(n))
  {
    var m: nat := if n < 0 then -n else n;
    var g := Group(ShowNat(m));
    GroupedDigits(ShowNat(m));
    assert NoDoubleDash(g) by {
      assert forall k :: 0 <= k < |g| ==> g[k] != '-';
    }
    if n < 0 {
      ConcatNoDoubleDash("-", g);
    }
  }

  lemma SingleLineNoDoubleDash(a: string)
    requires NoDoubleDash(a)
    ensures NoDoubleDash(PricePrefix + a + PriceEnd)
  {
    assert NoDoubleDash(PricePrefix) by {
      assert forall k :: 0 <= k < |PricePrefix| ==> PricePrefix[k] != '-';
    }
    assert NoDoubleDash(PriceEnd) by {
      assert forall k :: 0 <= k < |PriceEnd| ==> PriceEnd[k] != '-';
    }
    ConcatNoDoubleDash(PricePrefix, a);
    ConcatNoDoubleDash(PricePrefix + a, PriceEnd);
  }

  /** The line with the number of products found over all sites. */
  function TotalLine(total: nat): string
  {
    "Знайдено товарів: " + IntToString(total) + "\n"
  }

  /** The lines of one site's block before the price line. */
  function BlockHead(s: SiteData): string
  {
    "<b>" + s.website + "</b>\n" + "◽ К-сть: " + IntToString(s.productsQty) + " шт.\n"
  }

  /** The link line and the blank line that close a site's block. */
  function BlockTail(s: SiteData): string
  {
    "<a href='" + s.searchQueryUrl + "'>перейти→</a>\n" + "\n"
  }

  /** One site's block: name, count, price line, link, blank line. */
  function Block(s: SiteData): (r: Result<string>)
    ensures r.Success? <==> PriceLine(s.priceUahMin, s.priceUahMax).Success?
    ensures r.Failure? ==> r.error == ValueError
  {
    var line :- PriceLine(s.priceUahMin, s.priceUahMax);
    Success(BlockHead(s) + line + BlockTail(s))
  }

  /** The texts of `rs` joined in order; the earliest failure in order stops the join. */
  function JoinAll(rs: seq<Result<string>>): (r: Result<string>)
  {
    if |rs| == 0 then Success("")
    else
      var init :- JoinAll(rs[..|rs| - 1]);
      var last :- rs[|rs| - 1];
      Success(init + last)
  }

  lemma {:induction false} JoinAllSucceeds(rs: seq<Result<string>>)
    ensures JoinAll(rs).Success? <==> forall i :: 0 <= i < |rs| ==> rs[i].Success?
    ensures JoinAll(rs).Failure? ==> exists i :: 0 <= i < |rs| && rs[i] == Failure(JoinAll(rs).error)
  {
    if |rs| > 0 {
      var init := rs[..|rs| - 1];
      JoinAllSucceeds(init);
      assert forall i :: 0 <= i < |init| ==> init[i] == rs[i];
      if JoinAll(init).Failure? {
        var i :| 0 <= i < |init| && init[i] == Failure(JoinAll(init).error);
        assert rs[i] == Failure(JoinAll(rs).error);
      }
    }
  }

  lemma {:induction false} JoinAllAppend(a: seq<Result<string>>, b: seq<Result<string>>)
    requires JoinAll(a).Success? && JoinAll(b).Success?
    ensures JoinAll(a + b) == Success(JoinAll(a).value + JoinAll(b).value)
    decreases |b|
  {
    if |b| == 0 {
      assert a + b == a;
      assert JoinAll(a).value + JoinAll(b).value == JoinAll(a).value;
    } else {
      var b' := b[..|b| - 1];
      var ab := a + b;
      assert ab[..|ab| - 1] == a + b';
      assert ab[|ab| - 1] == b[|b| - 1];
      var x, y, z := JoinAll(a).value, JoinAll(b').value, b[|b| - 1].value;
      JoinAllAppend(a, b');
      assert JoinAll(ab) == Success((x + y) + z);
      assert JoinAll(b) == Success(y + z);
      assert (x + y) + z == x + (y + z);
    }
  }

  lemma JoinAllCons(x: Result<string>, rest: seq<Result<string>>)
    ensures JoinAll([x] + rest).Success? <==> x.Success? && JoinAll(rest).Success?
    ensures JoinAll([x] + rest).Success? ==> JoinAll([x] + rest).value == x.value + JoinAll(rest).value
  {
    var rs := [x] + rest;
    JoinAllSucceeds(rs);
    JoinAllSucceeds(rest);
    assert rs[0] == x;
    assert forall i :: 0 <= i < |rest| ==> rest[i] == rs[i + 1];
    if JoinAll(rs).Success? {
      assert x.Success? && JoinAll(rest).Success?;
      assert JoinAll([x]) == x by {
        assert [x][..0] == [];
        assert JoinAll([x]) == Success("" + x.value);
        assert "" + x.value == x.value;
      }
      JoinAllAppend([x], rest);
    }
  }

  /** The blocks of all sites, in the given order. */
  function Blocks(sites: seq<SiteData>): (r: Result<string>)
  {
    JoinAll(MapSeq(sites, Block))
  }

  /** Rendering fails exactly when some site's price is a `str`, and then with `ValueError`. */
  lemma BlocksSucceed(sites: seq<SiteData>)
    ensures Blocks(sites).Success? <==> forall i :: 0 <= i < |sites| ==> Block(sites[i]).Success?
    ensures Blocks(sites).Failure? ==> Blocks(sites).error == ValueError
  {
    JoinAllSucceeds(MapSeq(sites, Block));
  }

  /** Blocks of a concatenation are the concatenated blocks: one block per site, in site order. */
  lemma BlocksAppend(a: seq<SiteData>, b: seq<SiteData>)
    requires Blocks(a).Success? && Blocks(b).Success?
    ensures Blocks(a + b) == Success(Blocks(a).value + Blocks(b).value)
  {
    MapAppend(a, b, Block);
    JoinAllAppend(MapSeq(a, Block), MapSeq(b, Block));
  }

  /** The blocks of `[x] + rest`: the block of `x`, then the blocks of `rest`. */
  lemma BlocksCons(x: SiteData, rest: seq<SiteData>)
    ensures Blocks([x] + rest).Success? <==> Block(x).Success? && Blocks(rest).Success?
    ensures Blocks([x] + rest).Success? ==> Blocks([x] + rest).value == Block(x).value + Blocks(rest).value
  {
    assert MapSeq([x] + rest, Block) == [Block(x)] + MapSeq(rest, Block);
    JoinAllCons(Block(x), MapSeq(rest, Block));
  }

  lemma BlocksEmpty()
    ensures Blocks([]) == Success("")
  {
    assert MapSeq([], Block) == [];
  }

  /** A site whose prices are `int`s always renders. */
  lemma NumericSiteRenders(s: SiteData)
    requires s.priceUahMin.Num? && s.priceUahMax.Num?
    ensures Block(s).Success?
  {
  }
}
