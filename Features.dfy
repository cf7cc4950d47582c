/** The per-row features of the ML processor (`_extract_features` and the
    body of the `get_training_data` loop) and the dataset counts. Prices
    are `real`; the z-score columns and `has_discount` are not modelled. */
module Features {
  import opened Wrappers
  import opened Text
  import opened Rows
  import opened Categories

  /** `review_mapping.get(row['review'], 0)`: the rating word as a score,
      0 for any other value, `None` included. */
  function ReviewScore(review: Option<string>): (k: nat)
    ensures k <= 5
  {
    if review == Some("One") then 1
    else if review == Some("Two") then 2
    else if review == Some("Three") then 3
    else if review == Some("Four") then 4
    else if review == Some("Five") then 5
    else 0
  }

  /** The rating word for a score of 1 to 5, the key of `review_mapping`. */
  function RatingWord(k: nat): string
    requires 1 <= k <= 5
  {
    ["One", "Two", "Three", "Four", "Five"][k - 1]
  }

  /** Every rating word decodes to its score, and a non-zero score comes
      only from its rating word. */
  lemma ReviewRoundTrip(review: Option<string>, k: nat)
    requires 1 <= k <= 5
    ensures ReviewScore(Some(RatingWord(k))) == k
    ensures ReviewScore(review) != 0 ==> review == Some(RatingWord(ReviewScore(review)))
  {
  }

  /** The `price_category` values. */
  datatype PriceCategory = Budget | Mid | Premium

  /** The bucket of a euro price: up to 20 budget, up to 50 mid, premium
      above. Both call sites use this one definition. */
  function Bucket(price: real): PriceCategory {
    if price <= 20.0 then Budget else if price <= 50.0 then Mid else Premium
  }

  /** The codes of `categorical_mappings['price_category']`. */
  function BucketCode(c: PriceCategory): nat {
    match c
    case Budget => 0
    case Mid => 1
    case Premium => 2
  }

  /** The ranges declared in `price_categories`: a lower bound and an upper
      bound, `None` standing for infinity. */
  function DeclaredLow(c: PriceCategory): real {
    match c
    case Budget => 0.0
    case Mid => 20.0
    case Premium => 50.0
  }

  function DeclaredHigh(c: PriceCategory): Option<real> {
    match c
    case Budget => Some(20.0)
    case Mid => Some(50.0)
    case Premium => None
  }

  /** A dearer book never lands in a cheaper bucket. */
  lemma BucketMonotone(p: real, q: real)
    requires p <= q
    ensures BucketCode(Bucket(p)) <= BucketCode(Bucket(q))
  {
  }

  /** For a positive price the bucket is the declared range holding it,
      open below and closed above. */
  lemma BucketIsDeclaredRange(p: real, c: PriceCategory)
    requires p > 0.0
    ensures Bucket(p) == c <==> DeclaredLow(c) < p && (DeclaredHigh(c).None? || p <= DeclaredHigh(c).value)
  {
  }

  /** `row['titulo'] or ''`. */
  function TitleOf(row: RawRow): string {
    if row.title.Some? then row.title.value else ""
  }

  /** `float(x or 0)`. */
  function PriceOrZero(p: Option<real>): real {
    if p.Some? then p.value else 0.0
  }

  /** `len(titulo.split())`. */
  function WordCount(title: string): (n: nat)
    ensures n <= |title|
    ensures n == 0 <==> AllSpace(title)
  {
    |Words(title)|
  }

  /** A `BookFeature` without its floating-point columns. */
  datatype BookFeature = BookFeature(
    upc: string,
    titleLength: nat,
    categoryEncoded: nat,
    reviewScore: nat,
    titleWordCount: nat,
    category: string,
    priceCategory: PriceCategory)

  /** The pydantic models reject a `None` UPC or category; such a row
      raises and is skipped. */
  predicate Accepted(row: RawRow) {
    row.upc.Some? && row.category.Some?
  }

  /** `_extract_features`, `None` where it raises. */
  function ExtractFeatures(row: RawRow, mapping: map<string, nat>): (r: Option<BookFeature>)
    ensures r.Some? <==> Accepted(row)
  {
    if !Accepted(row) then None
    else
      var title := TitleOf(row);
      Some(BookFeature(row.upc.value, |title|, Encode(mapping, row.category), ReviewScore(row.review),
                       WordCount(title), row.category.value, Bucket(PriceOrZero(row.priceEur))))
  }

  /** A `TrainingRecord` without its floating-point columns. */
  datatype TrainingRecord = TrainingRecord(
    upc: string,
    title: string,
    category: string,
    priceEur: real,
    priceBrl: real,
    review: Option<string>,
    titleLength: nat,
    titleWordCount: nat,
    categoryEncoded: nat,
    reviewScore: nat,
    priceCategory: PriceCategory,
    targetPopular: bool)

  /** `target_popular`: a good rating and a price no higher than the
      median. */
  function TargetPopular(score: nat, price: real, median: real): bool {
    score >= 4 && price <= median
  }

  /** One pass of the `get_training_data` loop, `None` where it raises. */
  function MakeRecord(row: RawRow, mapping: map<string, nat>, median: real): (r: Option<TrainingRecord>)
    ensures r.Some? <==> Accepted(row)
  {
    if !Accepted(row) then None
    else
      var title := TitleOf(row);
      var price := PriceOrZero(row.priceEur);
      var score := ReviewScore(row.review);
      Some(TrainingRecord(row.upc.value, title, row.category.value, price, PriceOrZero(row.priceBrl),
                          row.review, |title|, WordCount(title), Encode(mapping, row.category), score,
                          // The training loop writes the bucket test out again.
                          if price <= 20.0 then Budget else if price <= 50.0 then Mid else Premium,
                          TargetPopular(score, price, median)))
  }

  /** The label holds exactly for the books rated "Four" or "Five" whose
      euro price is at most the median. */
  lemma PopularIffRatedAndCheap(row: RawRow, mapping: map<string, nat>, median: real)
    requires Accepted(row)
    ensures MakeRecord(row, mapping, median).value.targetPopular
            <==> (row.review == Some("Four") || row.review == Some("Five")) && PriceOrZero(row.priceEur) <= median
  {
  }

  /** The feature endpoint and the training endpoint derive the same
      columns from the same row: they skip the same rows and agree on the
      UPC, category, title length and word count, category code, review
      score and price bucket. */
  lemma CallSitesAgree(row: RawRow, mapping: map<string, nat>, median: real)
    ensures ExtractFeatures(row, mapping).Some? <==> MakeRecord(row, mapping, median).Some?
    ensures ExtractFeatures(row, mapping).Some? ==>
              var f := ExtractFeatures(row, mapping).value;
              var t := MakeRecord(row, mapping, median).value;
              && f.upc == t.upc && f.category == t.category
              && f.titleLength == t.titleLength && f.titleWordCount == t.titleWordCount
              && f.categoryEncoded == t.categoryEncoded && f.reviewScore == t.reviewScore
              && f.priceCategory == t.priceCategory
  {
  }

  /** The columns of a feature row: the word count at most the title
      length and zero exactly for a blank title, the score within 0..5,
      the category code the rank of the category or 0. */
  lemma FeatureColumns(row: RawRow, rows: seq<RawRow>)
    requires Accepted(row)
    ensures var f := ExtractFeatures(row, CreateMapping(rows)).value;
            && f.titleLength == |TitleOf(row)|
            && f.titleWordCount <= f.titleLength
            && (f.titleWordCount == 0 <==> AllSpace(TitleOf(row)))
            && f.reviewScore <= 5
            && (f.categoryEncoded == 0 || f.categoryEncoded < |Present(rows)|)
            && f.priceCategory == Bucket(PriceOrZero(row.priceEur))
  {
    EncodeInRange(rows, row.category);
  }

  /** The end of the slice `raw_data[:limit]` for `n` rows: a non-negative
      limit is capped at `n`, a negative one counts back from the end. */
  function SliceEnd(n: nat, limit: int): (e: nat)
    ensures e <= n
  {
    if limit >= 0 then (if limit <= n then limit else n)
    else if n + limit >= 0 then n + limit else 0
  }

  /** `if limit: raw_data = raw_data[:limit]`. */
  function ApplyLimit(rows: seq<RawRow>, limit: Option<int>): (r: seq<RawRow>)
    ensures |r| <= |rows| && r == rows[..|r|]
  {
    if limit.None? || limit.value == 0 then rows else rows[..SliceEnd(|rows|, limit.value)]
  }

  /** A missing or zero limit keeps every row; a positive one keeps the
      first `min(limit, n)`; a negative one drops that many from the end. */
  lemma LimitKeeps(rows: seq<RawRow>, limit: Option<int>)
    ensures limit.None? || limit.value == 0 ==> ApplyLimit(rows, limit) == rows
    ensures limit.Some? && limit.value > 0 ==>
              |ApplyLimit(rows, limit)| == if limit.value < |rows| then limit.value else |rows|
    ensures limit.Some? && limit.value < 0 ==>
              |ApplyLimit(rows, limit)| == if |rows| + limit.value > 0 then |rows| + limit.value else 0
  {
  }

  /** The `features` list: one entry per row that did not raise, in row
      order. */
  function FeaturesOf(rows: seq<RawRow>, mapping: map<string, nat>): seq<BookFeature>
    decreases |rows|
  {
    if rows == [] then []
    else
      var f := ExtractFeatures(rows[|rows| - 1], mapping);
      FeaturesOf(rows[..|rows| - 1], mapping) + if f.Some? then [f.value] else []
  }

  /** The `training_records` list. */
  function RecordsOf(rows: seq<RawRow>, mapping: map<string, nat>, median: real): seq<TrainingRecord>
    decreases |rows|
  {
    if rows == [] then []
    else
      var t := MakeRecord(rows[|rows| - 1], mapping, median);
      RecordsOf(rows[..|rows| - 1], mapping, median) + if t.Some? then [t.value] else []
  }

  /** How many rows are accepted. */
  function AcceptedCount(rows: seq<RawRow>): (n: nat)
    ensures n <= |rows|
    decreases |rows|
  {
    if rows == [] then 0
    else AcceptedCount(rows[..|rows| - 1]) + if Accepted(rows[|rows| - 1]) then 1 else 0
  }

  /** `total_records` counts the accepted rows, no more than the rows
      kept; both endpoints produce the same number of entries. */
  lemma {:induction false} RecordCounts(rows: seq<RawRow>, mapping: map<string, nat>, median: real)
    ensures |FeaturesOf(rows, mapping)| == AcceptedCount(rows)
    ensures |RecordsOf(rows, mapping, median)| == AcceptedCount(rows)
    decreases |rows|
  {
    if rows != [] {
      RecordCounts(rows[..|rows| - 1], mapping, median);
    }
  }

  /** Every training record has a score within 0..5. */
  lemma {:induction false} RecordScoresBounded(rows: seq<RawRow>, mapping: map<string, nat>, median: real)
    ensures forall i :: 0 <= i < |RecordsOf(rows, mapping, median)| ==> RecordsOf(rows, mapping, median)[i].reviewScore <= 5
    decreases |rows|
  {
    if rows != [] {
      var init := RecordsOf(rows[..|rows| - 1], mapping, median);
      RecordScoresBounded(rows[..|rows| - 1], mapping, median);
      var all := RecordsOf(rows, mapping, median);
      forall i | 0 <= i < |all|
        ensures all[i].reviewScore <= 5
      {
        if i < |init| {
          assert all[i] == init[i];
        }
      }
    }
  }

  /** `sum(1 for r in training_records if r.target_popular)`. */
  function CountPopular(rs: seq<TrainingRecord>): nat
    decreases |rs|
  {
    if rs == [] then 0 else (if rs[0].targetPopular then 1 else 0) + CountPopular(rs[1..])
  }

  /** The records whose label is false. */
  function CountNotPopular(rs: seq<TrainingRecord>): nat
    decreases |rs|
  {
    if rs == [] then 0 else (if rs[0].targetPopular then 0 else 1) + CountNotPopular(rs[1..])
  }

  /** `not_popular`, computed as `len - popular`, is the number of records
      labelled not popular. */
  lemma {:induction false} PopularSplit(rs: seq<TrainingRecord>)
    ensures CountPopular(rs) <= |rs|
    ensures |rs| - CountPopular(rs) == CountNotPopular(rs)
    decreases |rs|
  {
    if rs != [] {
      PopularSplit(rs[1..]);
    }
  }

  /** The records whose review score is `k`. */
  function CountScore(rs: seq<TrainingRecord>, k: nat): nat
    decreases |rs|
  {
    if rs == [] then 0 else (if rs[0].reviewScore == k then 1 else 0) + CountScore(rs[1..], k)
  }

  /** `review_distribution`, for the scores 0 to 5 in order. */
  function ReviewDistribution(rs: seq<TrainingRecord>): (d: seq<nat>)
    ensures |d| == 6
    ensures forall k :: 0 <= k < 6 ==> d[k] == CountScore(rs, k)
  {
    seq(6, k requires 0 <= k < 6 => CountScore(rs, k))
  }

  function Sum(xs: seq<nat>): nat
    decreases |xs|
  {
    if xs == [] then 0 else xs[0] + Sum(xs[1..])
  }

  lemma {:induction false} SixScores(rs: seq<TrainingRecord>)
    requires forall i :: 0 <= i < |rs| ==> rs[i].reviewScore <= 5
    ensures CountScore(rs, 0) + CountScore(rs, 1) + CountScore(rs, 2)
            + CountScore(rs, 3) + CountScore(rs, 4) + CountScore(rs, 5) == |rs|
    decreases |rs|
  {
    if rs != [] {
      assert forall i :: 0 <= i < |rs[1..]| ==> rs[1..][i] == rs[i + 1];
      SixScores(rs[1..]);
    }
  }

  lemma SumOfSix(d: seq<nat>)
    requires |d| == 6
    ensures Sum(d) == d[0] + d[1] + d[2] + d[3] + d[4] + d[5]
  {
    var d1 := d[1..];
    var d2 := d1[1..];
    var d3 := d2[1..];
    var d4 := d3[1..];
    var d5 := d4[1..];
    assert d5[1..] == [];
    assert Sum(d5) == d[5];
    assert Sum(d4) == d[4] + Sum(d5);
    assert Sum(d3) == d[3] + Sum(d4);
    assert Sum(d2) == d[2] + Sum(d3);
    assert Sum(d1) == d[1] + Sum(d2);
  }

  /** Every record has a score within 0..5, so the review distribution
      accounts for every record exactly once. */
  lemma DistributionCoversRecords(rows: seq<RawRow>, mapping: map<string, nat>, median: real)
    ensures Sum(ReviewDistribution(RecordsOf(rows, mapping, median))) == |RecordsOf(rows, mapping, median)|
  {
    var rs := RecordsOf(rows, mapping, median);
    RecordScoresBounded(rows, mapping, median);
    SixScores(rs);
    SumOfSix(ReviewDistribution(rs));
  }
}
