/** The loader script: it walks the listing pages collecting product links
    into a list, then visits each repaired link and writes the book it
    describes into the table. */
module Loader {
  import opened Wrappers
  import opened Text
  import opened Listing
  import opened Uri
  import opened Links
  import opened BookPage
  import opened Store

  /** What the book pages answer: the page each address serves. An address
      missing here is one whose request raised. */
  type Web = map<string, DetailPage>

  /** Whether the visit to `url` writes a row: the request answered, every
      extraction step succeeded and the insert accepted the book. */
  predicate Writes(url: string, web: Web, repair: string -> Option<string>) {
    url in web && ExtractBook(url, web[url], repair).Ok? && FitsColumns(ExtractBook(url, web[url], repair).value)
  }

  /** The table after visiting `url`: the extracted book upserted, or the
      table unchanged when the request, an extraction step or the insert
      raised. */
  function IngestOne(t: Table, url: string, web: Web, repair: string -> Option<string>): Table {
    if Writes(url, web, repair) then Upsert(t, ExtractBook(url, web[url], repair).value) else t
  }

  lemma IngestExtracted(t: Table, url: string, web: Web, repair: string -> Option<string>, e: Result<Book, Step>)
    requires url in web && e == ExtractBook(url, web[url], repair)
    ensures Writes(url, web, repair) <==> e.Ok? && FitsColumns(e.value)
    ensures IngestOne(t, url, web, repair) == if e.Ok? && FitsColumns(e.value) then Upsert(t, e.value) else t
  {
  }

  /** The books the visits to the repaired `links` write, in order. */
  function Extracted(root: string, links: seq<string>, web: Web, repair: string -> Option<string>): seq<Book>
    decreases |links|
  {
    if links == [] then []
    else
      var url := NormalizeLink(root, links[|links| - 1]);
      Extracted(root, links[..|links| - 1], web, repair)
        + if Writes(url, web, repair) then [ExtractBook(url, web[url], repair).value] else []
  }

  /** The table after visiting every link of `links` in order. */
  function IngestAll(t: Table, root: string, links: seq<string>, web: Web, repair: string -> Option<string>): Table
    decreases |links|
  {
    if links == [] then t
    else IngestOne(IngestAll(t, root, links[..|links| - 1], web, repair), NormalizeLink(root, links[|links| - 1]), web, repair)
  }

  /** A visit writes only books that fit their columns. */
  lemma IngestOneKeepsFit(t: Table, url: string, web: Web, repair: string -> Option<string>)
    requires AllFit(t)
    ensures AllFit(IngestOne(t, url, web, repair))
  {
    if Writes(url, web, repair) {
      var b := ExtractBook(url, web[url], repair).value;
      assert InsertOrReplace(t, b).Some?;
    }
  }

  lemma {:induction false} IngestAllKeepsFit(t: Table, root: string, links: seq<string>, web: Web, repair: string -> Option<string>)
    requires AllFit(t)
    ensures AllFit(IngestAll(t, root, links, web, repair))
    decreases |links|
  {
    if links != [] {
      IngestAllKeepsFit(t, root, links[..|links| - 1], web, repair);
      IngestOneKeepsFit(IngestAll(t, root, links[..|links| - 1], web, repair), NormalizeLink(root, links[|links| - 1]), web, repair);
    }
  }

  lemma {:induction false} UpsertAllSnoc(t: Table, bs: seq<Book>, b: Book)
    ensures UpsertAll(t, bs + [b]) == Upsert(UpsertAll(t, bs), b)
    decreases |bs|
  {
    if bs == [] {
      assert bs + [b] == [b];
    } else {
      assert (bs + [b])[1..] == bs[1..] + [b];
      UpsertAllSnoc(Upsert(t, bs[0]), bs[1..], b);
    }
  }

  /** Visiting the links one by one is upserting, in order, the books that
      could be extracted; the others leave no trace. */
  lemma {:induction false} IngestIsUpsertAll(t: Table, root: string, links: seq<string>, web: Web, repair: string -> Option<string>)
    ensures IngestAll(t, root, links, web, repair) == UpsertAll(t, Extracted(root, links, web, repair))
    decreases |links|
  {
    if links != [] {
      var init := links[..|links| - 1];
      var url := NormalizeLink(root, links[|links| - 1]);
      IngestIsUpsertAll(t, root, init, web, repair);
      if Writes(url, web, repair) {
        UpsertAllSnoc(t, Extracted(root, init, web, repair), ExtractBook(url, web[url], repair).value);
      } else {
        assert Extracted(root, links, web, repair) == Extracted(root, init, web, repair);
      }
    }
  }

  /** After the visits, a UPC's row is the last book written under it, or
      the old row when none was; every row stays filed under its UPC and
      fits its columns. */
  lemma IngestRows(t: Table, root: string, links: seq<string>, web: Web, repair: string -> Option<string>, upc: string)
    requires KeyedByUpc(t) && AllFit(t)
    requires upc in t || LastWith(Extracted(root, links, web, repair), upc).Some?
    ensures KeyedByUpc(IngestAll(t, root, links, web, repair))
    ensures AllFit(IngestAll(t, root, links, web, repair))
    ensures upc in IngestAll(t, root, links, web, repair)
    ensures var last := LastWith(Extracted(root, links, web, repair), upc);
            IngestAll(t, root, links, web, repair)[upc] == if last.Some? then last.value else t[upc]
  {
    IngestIsUpsertAll(t, root, links, web, repair);
    UpsertAllKeepsKeys(t, Extracted(root, links, web, repair));
    IngestAllKeepsFit(t, root, links, web, repair);
    UpsertAllRow(t, Extracted(root, links, web, repair), upc);
  }

  /** Running the visits a second time over the same pages changes
      nothing. */
  lemma IngestTwice(t: Table, root: string, links: seq<string>, web: Web, repair: string -> Option<string>)
    ensures IngestAll(IngestAll(t, root, links, web, repair), root, links, web, repair) == IngestAll(t, root, links, web, repair)
  {
    IngestIsUpsertAll(t, root, links, web, repair);
    IngestIsUpsertAll(IngestAll(t, root, links, web, repair), root, links, web, repair);
    UpsertAllTwice(t, Extracted(root, links, web, repair));
  }

  lemma IngestAllStep(t: Table, root: string, links: seq<string>, i: nat, web: Web, repair: string -> Option<string>)
    requires i < |links|
    ensures IngestAll(t, root, links[..i + 1], web, repair)
              == IngestOne(IngestAll(t, root, links[..i], web, repair), NormalizeLink(root, links[i]), web, repair)
  {
    var prefix := links[..i + 1];
    assert prefix[..|prefix| - 1] == links[..i];
    assert prefix[|prefix| - 1] == links[i];
    IngestAllSnoc(t, root, prefix, web, repair);
  }

  lemma IngestAllSnoc(t: Table, root: string, links: seq<string>, web: Web, repair: string -> Option<string>)
    requires links != []
    ensures IngestAll(t, root, links, web, repair)
              == IngestOne(IngestAll(t, root, links[..|links| - 1], web, repair), NormalizeLink(root, links[|links| - 1]), web, repair)
  {
  }

  lemma Reassociate(a: seq<string>, b: seq<string>, c: seq<string>, d: seq<string>, e: seq<string>)
    requires a + b == c + (d + e)
    ensures a + b == (c + d) + e
  {
  }

  /** One request of the walk: a failed one ends it with no links, a page
      without "next" ends it with its links, any other page adds its links
      to the rest of the walk. */
  lemma WalkStep(site: Site, n: nat)
    requires n >= 1
    ensures var p := Fetch(site, n);
            WalkFrom(site, n)
              == if p.status != 200 then Walk(1, [], false)
                 else if HasNextPage(p) then
                   Walk(1 + WalkFrom(site, n + 1).requests, p.productLinks + WalkFrom(site, n + 1).links,
                        WalkFrom(site, n + 1).completed)
                 else Walk(1, p.productLinks, true)
  {
  }

  /** The script's state: the list `livros_links` and the table `livros`. */
  class Loader {
    var links: seq<string>
    var table: Table

    /** The list starts empty; the table keeps the rows of earlier runs. */
    constructor(t: Table)
      ensures links == [] && table == t
    {
      links := [];
      table := t;
    }

    /** `coleta_de_links(seed)`: the walk over the listing pages. The
        `n`-th request goes to the seed, then to `page-n.html`; a failed
        request ends the walk (`completed` false) keeping the links already
        collected; a page without a "next" item ends it after adding its
        links (`completed` true). `requested` lists the addresses fetched,
        in order. */
    method CollectLinks(site: Site, seed: string) returns (completed: bool, requested: seq<string>)
      modifies this`links
      ensures links == old(links) + WalkFrom(site, 1).links
      ensures completed == WalkFrom(site, 1).completed
      ensures requested == RequestedUrls(seed, WalkFrom(site, 1).requests)
    {
      ghost var walk := WalkFrom(site, 1);
      ghost var here := walk;
      var page := 1;
      var url := seed;
      requested := [];
      while true
        invariant 1 <= page <= |site.pages| + 1
        invariant url == ListingUrl(seed, page)
        invariant requested == RequestedUrls(seed, page - 1)
        invariant here == WalkFrom(site, page)
        invariant old(links) + walk.links == links + here.links
        invariant walk.requests == page - 1 + here.requests
        invariant walk.completed == here.completed
        decreases |site.pages| + 1 - page
      {
        var response := Fetch(site, page);
        requested := requested + [url];
        if response.status != 200 {
          assert here == Walk(1, [], false) by {
            WalkStep(site, page);
          }
          return false, requested;
        }
        ghost var rest := WalkFrom(site, page + 1);
        assert here == if HasNextPage(response)
                                       then Walk(1 + rest.requests, response.productLinks + rest.links, rest.completed)
                                       else Walk(1, response.productLinks, true) by {
          WalkStep(site, page);
        }
        ghost var before := links;
        AppendLinks(response.productLinks);
        if HasNextPage(response) {
          Reassociate(old(links), walk.links, before, response.productLinks, rest.links);
          page := page + 1;
          url := PageUrl(page);
          here := rest;
        } else {
          assert old(links) + walk.links == links;
          return true, requested;
        }
      }
    }

    /** `for book in books: livros_links.append(...)`: the page's links
        appended in document order. */
    method AppendLinks(pageLinks: seq<string>)
      modifies this`links
      ensures links == old(links) + pageLinks
    {
      var i := 0;
      while i < |pageLinks|
        invariant 0 <= i <= |pageLinks|
        invariant links == old(links) + pageLinks[..i]
      {
        links := links + [pageLinks[i]];
        i := i + 1;
      }
      assert pageLinks[..i] == pageLinks;
    }

    /** `coleta_atributos_livro(url)` with the caller's `except`: the book
        is upserted when every step succeeds and its integer columns fit;
        otherwise nothing is written. `stored` says which. */
    method CollectBookAttributes(url: string, web: Web, repair: string -> Option<string>) returns (stored: bool)
      modifies this`table
      ensures table == IngestOne(old(table), url, web, repair)
      ensures stored <==> url in web && ExtractBook(url, web[url], repair).Ok?
                          && FitsColumns(ExtractBook(url, web[url], repair).value)
    {
      stored := false;
      if url in web {
        var extracted := ExtractBook(url, web[url], repair);
        IngestExtracted(table, url, web, repair, extracted);
        if extracted.Ok? {
          var written := InsertOrReplace(table, extracted.value);
          if written.Some? {
            table := written.value;
            stored := true;
          }
        }
      }
    }

    /** One pass of the main loop: the link repaired, resolved against the
        root, and its page visited. */
    method VisitLink(root: string, link: string, web: Web, repair: string -> Option<string>)
      modifies this`table
      ensures table == IngestOne(old(table), NormalizeLink(root, link), web, repair)
    {
      var fixed := link;
      if !Contains(fixed, Catalogue) {
        fixed := Catalogue + LStrip(fixed, DotSlash);
      }
      assert fixed == FixLink(link);
      var url := Join(root, fixed);
      var stored := CollectBookAttributes(url, web, repair);
    }

    /** `for link in livros_links`: every collected link visited in
        order. */
    method VisitAll(root: string, web: Web, repair: string -> Option<string>)
      modifies this`table
      ensures table == IngestAll(old(table), root, links, web, repair)
    {
      var i := 0;
      while i < |links|
        invariant 0 <= i <= |links|
        invariant table == IngestAll(old(table), root, links[..i], web, repair)
      {
        VisitLink(root, links[i], web, repair);
        IngestAllStep(old(table), root, links, i, web, repair);
        i := i + 1;
      }
      assert links[..i] == links;
    }

    /** The script: the walk from the root, then a visit to every collected
        link. */
    method Run(site: Site, web: Web, repair: string -> Option<string>) returns (completed: bool)
      modifies this
      ensures links == old(links) + WalkFrom(site, 1).links
      ensures completed == WalkFrom(site, 1).completed
      ensures table == IngestAll(old(table), SiteRoot, links, web, repair)
    {
      var requested;
      completed, requested := CollectLinks(site, SiteRoot);
      VisitAll(SiteRoot, web, repair);
    }
  }
}
