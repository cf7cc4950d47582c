/** The fields of a book read off its detail page, in the order the loader
    reads them; the first one that cannot be read ends the extraction and
    nothing is stored for that page. */
module BookPage {
  import opened Wrappers
  import opened Text
  import opened Scan
  import opened Listing
  import opened Store

  /** Euros to reais. */
  const EuroToReal: real := 6.35

  /** `src` of book cover images climbs out of `catalogue/` with `../`. */
  const UpDir: string := "../"

  /** The elements of a detail page the extraction reads, each `None` when
      the page lacks it:
      - `heading`: the text of the first `h1`;
      - `imageSrc`: the `src` of the first `img`;
      - `breadcrumb`: the texts of the `li` items of `ul.breadcrumb`;
      - `priceText`: the text of `p.price_color`;
      - `availabilityText`: the text of `p.instock.availability`;
      - `ratingClasses`: the class list of `p.star-rating`;
      - `description`: the `content` of `meta[name=description]`;
      - `upcText`: the text of the cell after the `UPC` header;
      - `reviewsText`: the text of the cell after `Number of reviews`. */
  datatype DetailPage = DetailPage(
    heading: Option<string>,
    imageSrc: Option<string>,
    breadcrumb: Option<seq<string>>,
    priceText: Option<string>,
    availabilityText: Option<string>,
    ratingClasses: Option<seq<string>>,
    description: Option<string>,
    upcText: Option<string>,
    reviewsText: Option<string>)

  /** The extraction steps, in the order the loader runs them. */
  datatype Step = Title | Image | Category | Price | Stock | Rating | Synopsis | Upc | Reviews

  function Order(s: Step): nat {
    match s
    case Title => 0
    case Image => 1
    case Category => 2
    case Price => 3
    case Stock => 4
    case Rating => 5
    case Synopsis => 6
    case Upc => 7
    case Reviews => 8
  }

  /** Whether each step can read its field: the element is there, the
      breadcrumb has an item at index 2, the rating has a second class, the
      texts parse as numbers, and the synopsis survives the re-decoding
      `repair`. */
  predicate TitleOk(page: DetailPage) { page.heading.Some? }
  predicate ImageOk(page: DetailPage) { page.imageSrc.Some? }
  predicate CategoryOk(page: DetailPage) { page.breadcrumb.Some? && |page.breadcrumb.value| >= 3 }
  predicate PriceOk(page: DetailPage) { page.priceText.Some? && ParsePrice(page.priceText.value).Some? }
  predicate StockOk(page: DetailPage) {
    page.availabilityText.Some? && ParseStock(page.availabilityText.value).Some?
  }
  predicate RatingOk(page: DetailPage) { page.ratingClasses.Some? && |page.ratingClasses.value| >= 2 }
  predicate SynopsisOk(page: DetailPage, repair: string -> Option<string>) {
    page.description.Some? && repair(Strip(page.description.value)).Some?
  }
  predicate UpcOk(page: DetailPage) { page.upcText.Some? }
  predicate ReviewsOk(page: DetailPage) { page.reviewsText.Some? && ParseInt(page.reviewsText.value).Some? }

  /** The outcome of each step on one page. */
  datatype Checks = Checks(
    title: bool, image: bool, category: bool, price: bool, stock: bool,
    rating: bool, synopsis: bool, upc: bool, reviews: bool)

  function Check(page: DetailPage, repair: string -> Option<string>): Checks {
    Checks(TitleOk(page), ImageOk(page), CategoryOk(page), PriceOk(page), StockOk(page),
           RatingOk(page), SynopsisOk(page, repair), UpcOk(page), ReviewsOk(page))
  }

  predicate Passes(c: Checks, s: Step) {
    match s
    case Title => c.title
    case Image => c.image
    case Category => c.category
    case Price => c.price
    case Stock => c.stock
    case Rating => c.rating
    case Synopsis => c.synopsis
    case Upc => c.upc
    case Reviews => c.reviews
  }

  predicate AllPass(c: Checks) {
    c.title && c.image && c.category && c.price && c.stock && c.rating && c.synopsis && c.upc && c.reviews
  }

  lemma AllPassIffEveryStep(c: Checks)
    ensures AllPass(c) <==> forall s :: Passes(c, s)
  {
    if !AllPass(c) {
      var s := if !c.title then Title else if !c.image then Image else if !c.category then Category
        else if !c.price then Price else if !c.stock then Stock else if !c.rating then Rating
        else if !c.synopsis then Synopsis else if !c.upc then Upc else Reviews;
      assert !Passes(c, s);
    }
  }

  /** The first step that fails, in the loader's order: every step before
      it passes. */
  function FirstFailing(c: Checks): (r: Option<Step>)
    ensures r.None? <==> AllPass(c)
    ensures r.Some? ==> !Passes(c, r.value)
    ensures r.Some? ==> forall s :: Order(s) < Order(r.value) ==> Passes(c, s)
  {
    if !c.title then Some(Title)
    else if !c.image then Some(Image)
    else if !c.category then Some(Category)
    else if !c.price then Some(Price)
    else if !c.stock then Some(Stock)
    else if !c.rating then Some(Rating)
    else if !c.synopsis then Some(Synopsis)
    else if !c.upc then Some(Upc)
    else if !c.reviews then Some(Reviews)
    else None
  }

  predicate StepOk(page: DetailPage, repair: string -> Option<string>, s: Step) {
    Passes(Check(page, repair), s)
  }

  /** The cover's address: the root followed by `src` with every `../`
      deleted. */
  function ImageUrl(src: string): string {
    SiteRoot + RemoveAll(src, UpDir)
  }

  /** Every cover address lies under the root. */
  lemma ImageUrlUnderRoot(src: string)
    ensures StartsWith(ImageUrl(src), SiteRoot)
  {
    assert ImageUrl(src)[..|SiteRoot|] == SiteRoot;
  }

  /** A `src` made of `../` steps and a path without `../` names that path
      under the root. */
  lemma ImageUrlOfRelative(k: nat, path: string)
    requires !Contains(path, UpDir)
    ensures ImageUrl(Repeat(UpDir, k) + path) == SiteRoot + path
  {
    RemoveAllLeadingCopies(UpDir, k, path);
  }

  /** Every step can read its field. */
  predicate Readable(page: DetailPage, repair: string -> Option<string>) {
    AllPass(Check(page, repair))
  }

  lemma ReadableIffAllSteps(page: DetailPage, repair: string -> Option<string>)
    ensures Readable(page, repair) <==> forall s :: StepOk(page, repair, s)
  {
    var c := Check(page, repair);
    AllPassIffEveryStep(c);
    forall s
      ensures StepOk(page, repair, s) == Passes(c, s)
    {
    }
  }

  /** The row a readable page yields, each column what its step read. */
  function Assemble(link: string, page: DetailPage, repair: string -> Option<string>): Book
    requires Readable(page, repair)
  {
    var priceEur := ParsePrice(page.priceText.value).value;
    Book(page.upcText.value, page.heading.value, ImageUrl(page.imageSrc.value),
         Strip(page.breadcrumb.value[2]), priceEur, priceEur * EuroToReal,
         ParseStock(page.availabilityText.value).value, page.ratingClasses.value[1],
         repair(Strip(page.description.value)).value,
         ParseInt(page.reviewsText.value).value, link)
  }

  /** The columns of an assembled row: the UPC, title and rating class as
      read; the category stripped; the cover under the root; the price the
      first decimal of its text, never negative, and in reais 6.35 times
      that; the stock the first digit run of its text; the review count the
      integer its text spells. */
  lemma AssembledColumns(link: string, page: DetailPage, repair: string -> Option<string>)
    requires Readable(page, repair)
    ensures var b := Assemble(link, page, repair);
            && b.upc == page.upcText.value
            && b.title == page.heading.value
            && b.image == ImageUrl(page.imageSrc.value) && StartsWith(b.image, SiteRoot)
            && b.category == Strip(page.breadcrumb.value[2])
            && b.rating == page.ratingClasses.value[1]
            && Some(b.synopsis) == repair(Strip(page.description.value))
            && b.link == link
    ensures var b := Assemble(link, page, repair);
            && b.priceEur >= 0.0
            && b.priceBrl == b.priceEur * EuroToReal
            && Some(b.numReviews) == ParseInt(page.reviewsText.value)
  {
    ImageUrlUnderRoot(page.imageSrc.value);
  }

  /** The numeric columns against their reference readings: the price is
      the value of the leftmost decimal token of the price text, and the
      stock the value of the first digit run of the availability text. */
  lemma AssembledNumbers(link: string, page: DetailPage, repair: string -> Option<string>)
    requires Readable(page, repair)
    ensures var t := page.priceText.value;
            exists a: nat, k: nat, e: nat :: LeftmostDecimal(t, a, k, e)
              && Assemble(link, page, repair).priceEur == DecimalValue(t[a..k], t[k + 1..e])
    ensures var t := page.availabilityText.value;
            exists p: nat, e: nat :: FirstDigitRun(t, p, e)
              && Assemble(link, page, repair).stock == DigitsValue(t[p..e])
  {
    PriceIsLeftmostDecimal(page.priceText.value);
    StockIsFirstDigitRun(page.availabilityText.value);
  }

  /** `coleta_atributos_livro` up to the insert: the row for the page at
      `link`, or the first step that raised. Every step reads the page
      before anything is written, so a failure at any step stores
      nothing. */
  function ExtractBook(link: string, page: DetailPage, repair: string -> Option<string>): (r: Result<Book, Step>)
    ensures r.Ok? <==> Readable(page, repair)
  {
    match FirstFailing(Check(page, repair))
    case Some(failed) => Err(failed)
    case None => Ok(Assemble(link, page, repair))
  }

  /** A readable page yields its assembled row; any other page fails at a
      step that cannot read its field, every earlier step having read
      its own. */
  lemma ExtractBookOutcome(link: string, page: DetailPage, repair: string -> Option<string>)
    ensures var r := ExtractBook(link, page, repair);
            r.Ok? ==> r.value == Assemble(link, page, repair)
    ensures var r := ExtractBook(link, page, repair);
            r.Err? ==> !StepOk(page, repair, r.error)
                       && forall s :: Order(s) < Order(r.error) ==> StepOk(page, repair, s)
  {
    var c := Check(page, repair);
    var f := FirstFailing(c);
    if f.Some? {
      assert !Passes(c, f.value);
      forall s | Order(s) < Order(f.value)
        ensures StepOk(page, repair, s)
      {
        assert Passes(c, s);
      }
    }
  }

  /** A breadcrumb with fewer than three items fails the page, whatever
      else it holds. */
  lemma ShortBreadcrumbFails(link: string, page: DetailPage, repair: string -> Option<string>)
    requires page.breadcrumb.Some? && |page.breadcrumb.value| < 3
    ensures ExtractBook(link, page, repair).Err?
    ensures Order(ExtractBook(link, page, repair).error) <= Order(Category)
  {
    assert !Check(page, repair).category;
  }
}
