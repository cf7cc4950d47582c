/** `MLDataProcessor`: the object whose `category_mapping` each request
    rebuilds from the rows it keeps, and its two dataset builders. The rows
    arrive as a parameter in place of the database query. */
module Processor {
  import opened Wrappers
  import opened Rows
  import opened Categories
  import opened Features

  /** The `statistics` block of a training dataset, without its
      floating-point entries. */
  datatype DatasetStats = DatasetStats(
    totalRecords: nat,
    popular: nat,
    notPopular: nat,
    reviewDistribution: seq<nat>)

  class MLDataProcessor {
    var categoryMapping: map<string, nat>

    /** A new processor has no category mapping yet. */
    constructor()
      ensures categoryMapping == map[]
    {
      categoryMapping := map[];
    }

    /** `get_features`: the rows cut to `limit`, the mapping rebuilt from
        them, then one feature per row that does not raise, in order;
        `totalRecords` counts those features. */
    method GetFeatures(raw: seq<RawRow>, limit: Option<int>) returns (totalRecords: nat, features: seq<BookFeature>)
      modifies this`categoryMapping
      ensures categoryMapping == CreateMapping(ApplyLimit(raw, limit))
      ensures features == FeaturesOf(ApplyLimit(raw, limit), categoryMapping)
      ensures totalRecords == |features| == AcceptedCount(ApplyLimit(raw, limit))
      ensures totalRecords <= |ApplyLimit(raw, limit)|
    {
      var rows := ApplyLimit(raw, limit);
      categoryMapping := CreateMapping(rows);
      features := [];
      var i := 0;
      while i < |rows|
        invariant 0 <= i <= |rows|
        invariant features == FeaturesOf(rows[..i], categoryMapping)
      {
        var feature := ExtractFeatures(rows[i], categoryMapping);
        assert rows[..i + 1][..i] == rows[..i];
        if feature.Some? {
          features := features + [feature.value];
        }
        i := i + 1;
      }
      assert rows[..i] == rows;
      RecordCounts(rows, categoryMapping, 0.0);
      totalRecords := |features|;
    }

    /** `get_training_data` with the median euro price of the kept rows
        given: the rows cut to `limit`, the mapping rebuilt, one record per
        row that does not raise, then the label and review-score counts. */
    method GetTrainingData(raw: seq<RawRow>, limit: Option<int>, median: real)
      returns (records: seq<TrainingRecord>, stats: DatasetStats)
      modifies this`categoryMapping
      ensures categoryMapping == CreateMapping(ApplyLimit(raw, limit))
      ensures records == RecordsOf(ApplyLimit(raw, limit), categoryMapping, median)
      ensures stats.totalRecords == |records| == AcceptedCount(ApplyLimit(raw, limit))
      ensures stats.popular == CountPopular(records)
      ensures stats.notPopular == CountNotPopular(records)
      ensures stats.popular + stats.notPopular == stats.totalRecords
      ensures stats.reviewDistribution == ReviewDistribution(records)
      ensures Sum(stats.reviewDistribution) == stats.totalRecords
    {
      var rows := ApplyLimit(raw, limit);
      categoryMapping := CreateMapping(rows);
      records := [];
      var i := 0;
      while i < |rows|
        invariant 0 <= i <= |rows|
        invariant records == RecordsOf(rows[..i], categoryMapping, median)
      {
        var record := MakeRecord(rows[i], categoryMapping, median);
        assert rows[..i + 1][..i] == rows[..i];
        if record.Some? {
          records := records + [record.value];
        }
        i := i + 1;
      }
      assert rows[..i] == rows;
      RecordCounts(rows, categoryMapping, median);
      PopularSplit(records);
      DistributionCoversRecords(rows, categoryMapping, median);
      var popular := CountPopular(records);
      stats := DatasetStats(|records|, popular, |records| - popular, ReviewDistribution(records));
    }
  }
}
