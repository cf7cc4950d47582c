/** The catalogue's listing pages and the walk over them that collects the
    product links: the seed page first, then `page-2.html`, `page-3.html`
    and so on, until a page without a "next" pager item or a failed
    request. */
module Listing {
  import opened Wrappers
  import opened Text

  /** The site's root, also the seed of the walk. */
  const SiteRoot: string := "https://books.toscrape.com/"

  const PagePrefix: string := SiteRoot + "catalogue/page-"
  const PageSuffix: string := ".html"

  /** The address of listing page `n`. */
  function PageUrl(n: nat): string {
    PagePrefix + NatToString(n) + PageSuffix
  }

  lemma PageUrlHasPrefix(n: nat)
    ensures StartsWith(PageUrl(n), PagePrefix)
  {
    assert PageUrl(n)[..|PagePrefix|] == PagePrefix;
  }

  /** Different page numbers have different addresses. */
  lemma PageUrlInjective(a: nat, b: nat)
    requires PageUrl(a) == PageUrl(b)
    ensures a == b
  {
    var sa := NatToString(a);
    var sb := NatToString(b);
    assert |sa| == |sb|;
    assert PageUrl(a)[|PagePrefix|..|PagePrefix| + |sa|] == sa;
    assert PageUrl(b)[|PagePrefix|..|PagePrefix| + |sb|] == sb;
  }

  /** What a listing request answers: its HTTP status, the `href` of the
      link in each `product_pod` article, in document order, and the class
      list of each `li` element, in document order. */
  datatype Page = Page(status: int, productLinks: seq<string>, listItemClasses: seq<seq<string>>)

  /** The answer to a request beyond the last page. */
  const NotFound: Page := Page(404, [], [])

  /** The `n`-th listing request (from 1) is answered by `pages[n - 1]`;
      there is a last page, and every later request is answered 404. */
  datatype Site = Site(pages: seq<Page>)

  function Fetch(site: Site, n: nat): (p: Page)
    ensures (n < 1 || n > |site.pages|) ==> p == NotFound
  {
    if 1 <= n <= |site.pages| then site.pages[n - 1] else NotFound
  }

  /** `soup.find('li', class_='next')`: the first list item, from `i` on,
      whose class list holds `next`. */
  function FindNext(items: seq<seq<string>>, i: nat): (r: Option<nat>)
    requires i <= |items|
    ensures r.Some? ==> i <= r.value < |items| && "next" in items[r.value]
    ensures r.Some? ==> forall k :: i <= k < r.value ==> "next" !in items[k]
    ensures r.None? <==> forall k :: i <= k < |items| ==> "next" !in items[k]
    decreases |items| - i
  {
    if i == |items| then None
    else if "next" in items[i] then Some(i)
    else FindNext(items, i + 1)
  }

  /** `verificar_paginacao`: whether the page has a "next" pager item. */
  function HasNextPage(p: Page): bool {
    FindNext(p.listItemClasses, 0).Some?
  }

  /** A page has a next page exactly when one of its list items is of
      class `next`. */
  lemma HasNextPageIffNextItem(p: Page)
    ensures HasNextPage(p) <==> exists k :: 0 <= k < |p.listItemClasses| && "next" in p.listItemClasses[k]
  {
  }

  /** The address of the `n`-th listing request of a walk from `seed`. */
  function ListingUrl(seed: string, n: nat): string {
    if n <= 1 then seed else PageUrl(n)
  }

  /** The outcome of a walk: how many listing requests it made, the links
      collected, in order, and whether it ended at a last page (`true`) or
      on a failed request (`false`). */
  datatype Walk = Walk(requests: nat, links: seq<string>, completed: bool)

  /** The walk from the `n`-th listing request on. A failed request ends it
      and adds no links; a page without a "next" item adds its links and
      ends it; any other page adds its links and the walk goes on. Since
      every request past the last page fails, the walk ends, after at most
      one request beyond it. */
  function WalkFrom(site: Site, n: nat): (w: Walk)
    requires n >= 1
    ensures 1 <= w.requests
    ensures n + w.requests <= |site.pages| + 2 || w.requests == 1
    decreases |site.pages| + 1 - n
  {
    var p := Fetch(site, n);
    if p.status != 200 then Walk(1, [], false)
    else if HasNextPage(p) then
      var rest := WalkFrom(site, n + 1);
      Walk(1 + rest.requests, p.productLinks + rest.links, rest.completed)
    else Walk(1, p.productLinks, true)
  }

  /** The addresses of the first `k` listing requests of a walk from
      `seed`, in order. */
  function RequestedUrls(seed: string, k: nat): (urls: seq<string>)
    ensures |urls| == k
  {
    if k == 0 then [] else RequestedUrls(seed, k - 1) + [ListingUrl(seed, k)]
  }

  /** The seed first, then `page-2.html`, `page-3.html`, … */
  lemma {:induction false} RequestedUrlsAre(seed: string, k: nat)
    ensures k >= 1 ==> RequestedUrls(seed, k)[0] == seed
    ensures forall i :: 1 <= i < k ==> RequestedUrls(seed, k)[i] == PageUrl(i + 1)
  {
    if k > 0 {
      RequestedUrlsAre(seed, k - 1);
    }
  }

  /** No page is requested twice (the seed being the site's root, not a
      numbered page). */
  lemma RequestedUrlsDistinct(seed: string, k: nat, i: nat, j: nat)
    requires !StartsWith(seed, PagePrefix)
    requires i < j < k
    ensures RequestedUrls(seed, k)[i] != RequestedUrls(seed, k)[j]
  {
    RequestedUrlsAre(seed, k);
    if i == 0 {
      PageUrlHasPrefix(j + 1);
    } else if PageUrl(i + 1) == PageUrl(j + 1) {
      PageUrlInjective(i + 1, j + 1);
    }
  }

  /** The links of the pages from `n` up to (not including) `m` that
      answered 200, each page's links in document order. */
  function LinksOfPages(site: Site, n: nat, m: nat): seq<string>
    decreases m - n
  {
    if n >= m then []
    else
      var p := Fetch(site, n);
      (if p.status == 200 then p.productLinks else []) + LinksOfPages(site, n + 1, m)
  }

  /** The walk stops exactly at the first page that fails or has no "next"
      item: every page requested before it answered 200 with a "next" item,
      and it is completed exactly when that last page answered 200. */
  lemma {:induction false} WalkStopsAtFirstLastPage(site: Site, n: nat)
    requires n >= 1
    ensures forall j :: n <= j < n + WalkFrom(site, n).requests - 1 ==>
              Fetch(site, j).status == 200 && HasNextPage(Fetch(site, j))
    ensures var last := Fetch(site, n + WalkFrom(site, n).requests - 1);
            (last.status != 200 || !HasNextPage(last))
            && (WalkFrom(site, n).completed <==> last.status == 200)
    decreases |site.pages| + 1 - n
  {
    var p := Fetch(site, n);
    if p.status == 200 && HasNextPage(p) {
      WalkStopsAtFirstLastPage(site, n + 1);
    }
  }

  /** The links collected are those of the requested pages that answered
      200, concatenated in page order; a failed page adds none. */
  lemma {:induction false} WalkLinksArePageLinks(site: Site, n: nat)
    requires n >= 1
    ensures WalkFrom(site, n).links == LinksOfPages(site, n, n + WalkFrom(site, n).requests)
    decreases |site.pages| + 1 - n
  {
    var p := Fetch(site, n);
    var w := WalkFrom(site, n);
    if p.status == 200 && HasNextPage(p) {
      WalkLinksArePageLinks(site, n + 1);
    } else {
      assert LinksOfPages(site, n + 1, n + 1) == [];
    }
  }
}
