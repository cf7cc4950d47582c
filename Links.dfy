/** The repair of a collected product link and its resolution against the
    site's root, as the loader's main loop does before it visits the book
    page. */
module Links {
  import opened Wrappers
  import opened Text
  import opened Uri
  import opened Listing

  const Catalogue: string := "catalogue/"
  const DotSlash: set<char> := {'.', '/'}

  /** A link without `catalogue/` in it gets its leading `.` and `/`
      characters stripped and `catalogue/` put in front. */
  function FixLink(link: string): (r: string)
    ensures Contains(r, Catalogue)
    ensures r == link <==> Contains(link, Catalogue)
    ensures r != link ==> StartsWith(r, Catalogue) && r[|Catalogue|..] == LStrip(link, DotSlash)
  {
    if Contains(link, Catalogue) then link
    else
      ContainsPrefix(Catalogue + LStrip(link, DotSlash), Catalogue);
      Catalogue + LStrip(link, DotSlash)
  }

  lemma ContainsPrefix(s: string, p: string)
    requires StartsWith(s, p)
    ensures Contains(s, p)
  {
  }

  /** The repaired link always holds `catalogue/`, so repairing twice is
      repairing once. */
  lemma FixLinkIdempotent(link: string)
    ensures Contains(FixLink(link), Catalogue)
    ensures FixLink(FixLink(link)) == FixLink(link)
  {
    if !Contains(link, Catalogue) {
      var r := FixLink(link);
      assert r[..|Catalogue|] == Catalogue;
      ContainsPrefix(r, Catalogue);
    }
  }

  /** `urljoin(root, link)` after the repair; the loader's root is
      `SiteRoot`. */
  function NormalizeLink(root: string, link: string): string {
    Join(root, FixLink(link))
  }

  /** The site's root, split into its components. */
  const SiteBase: Uri := Uri(Some("https"), Some("books.toscrape.com"), "/", None, None)

  /** Scheme and authority of the site, recomposed. */
  const Origin: string := "https://books.toscrape.com"

  lemma SiteBaseWellFormed()
    ensures WellFormed(SiteBase)
  {
    assert NoneOf("books.toscrape.com", AuthorityStop);
    assert NoneOf("https", SchemeStop);
    assert NoneOf("/", PathStop);
  }

  lemma RecomposeOnSite(p: string, q: Option<string>, f: Option<string>)
    ensures Recompose(Uri(SiteBase.scheme, SiteBase.authority, p, q, f))
            == Origin + p + QueryPart(q) + FragmentPart(f)
  {
    assert SchemePart(SiteBase.scheme) + AuthorityPart(SiteBase.authority) == Origin;
  }

  lemma RootIsOriginSlash(y: string)
    ensures Origin + ("/" + y) == SiteRoot + y
  {
    assert SiteRoot == Origin + "/";
  }

  lemma RecomposeSiteBase()
    ensures Recompose(SiteBase) == SiteRoot
  {
    assert "https" + ":" + "//" + "books.toscrape.com" + "/" == SiteRoot;
  }

  /** `url_principal` splits into the components of `SiteBase`. */
  lemma ParseSiteRoot()
    ensures Parse(SiteRoot) == SiteBase
  {
    SiteBaseWellFormed();
    RecomposeSiteBase();
    RecomposeParse(SiteBase);
  }

  lemma SiteRootIsRoot()
    ensures IsRoot(Parse(SiteRoot))
  {
    ParseSiteRoot();
  }

  /** `catalogue/` followed by anything is a path-only reference: no scheme
      (the first `/` comes before any `:`) and no authority. */
  lemma CatalogueRefIsRelative(x: string)
    ensures Parse(Catalogue + x).scheme.None?
    ensures Parse(Catalogue + x).authority.None?
  {
    var s := Catalogue + x;
    SpanIs(s, SchemeStop, 9);
  }

  lemma CataloguePlain()
    ensures Catalogue != [] && Catalogue[0] != '/' && NoneOf(Catalogue, PathStop)
    ensures !ControlOrSpace(Catalogue[0]) && NoneOf(Catalogue, Unsafe)
  {
  }

  /** A repaired link that lacked `catalogue/` always resolves to an address
      on the site. */
  lemma NormalizeStaysOnSite(link: string)
    requires !Contains(link, Catalogue)
    ensures StartsWith(NormalizeLink(SiteRoot, link), SiteRoot)
  {
    var x := LStrip(link, DotSlash);
    CataloguePlain();
    CleanAfterPrefix(Catalogue, x);
    CatalogueRefIsRelative(Without(x, Unsafe));
    SiteRootIsRoot();
    JoinUnderRoot(SiteRoot, FixLink(link));
  }

  /** For the links the catalogue lists (relative, no query, fragment or
      dot segment once repaired) the loader visits the root followed by the
      repaired link. Links with an empty segment are left out: Python's
      `urljoin` collapses `//` inside a path, strict resolution keeps it.
      So are links with a tab, CR or LF, which `urljoin` deletes. */
  lemma NormalizePlainLink(link: string)
    requires !Contains(link, Catalogue)
    requires NoneOf(LStrip(link, DotSlash), PathStop) && NoneOf(LStrip(link, DotSlash), Unsafe)
    requires !Contains(Catalogue + LStrip(link, DotSlash), "//")
    requires DotFree("/" + Catalogue + LStrip(link, DotSlash))
    ensures NormalizeLink(SiteRoot, link) == SiteRoot + Catalogue + LStrip(link, DotSlash)
  {
    var x := LStrip(link, DotSlash);
    CatalogueRefIsRelative(x);
    CataloguePlain();
    SiteRootIsRoot();
    PrefixedPlainJoin(SiteRoot, Catalogue, x);
  }

  /** `root` followed by a plain prefix `c` and a plain rest `x`. */
  lemma PrefixedPlainJoin(root: string, c: string, x: string)
    requires IsRoot(Parse(root))
    requires c != [] && c[0] != '/' && NoneOf(c, PathStop) && NoneOf(x, PathStop)
    requires !ControlOrSpace(c[0]) && NoneOf(c, Unsafe) && NoneOf(x, Unsafe)
    requires !Contains(c + x, "//")
    requires Parse(c + x).scheme.None? && Parse(c + x).authority.None?
    requires DotFree("/" + c + x)
    ensures Join(root, c + x) == root + c + x
  {
    NoneOfConcat(c, x, PathStop);
    NoneOfConcat(c, x, Unsafe);
    SlashBefore(c, x);
    JoinPlainUnderRoot(root, c + x);
    Associate(root, c, x);
  }

  lemma SlashBefore(c: string, x: string)
    requires c != [] && c[0] != '/'
    ensures "/" + (c + x) == "/" + c + x
    ensures (c + x) != [] && (c + x)[0] == c[0]
  {
  }

  lemma Associate(a: string, b: string, c: string)
    ensures a + (b + c) == a + b + c
  {
  }
}
