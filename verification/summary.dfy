/** `calculate_stats`: the four figures of the report's summary tiles. */
module Summary {
  import opened Wrappers
  import opened Seqs
  import opened Statistics
  import opened Retention
  import opened Dataset

  /** The summary tiles: average and median final retention (NaN, as numpy
      returns, when there is no course), the number of courses and the
      number of videos. */
  datatype Stats = Stats(
    avgFinalRetention: Num,
    medianFinalRetention: Num,
    totalCourses: nat,
    totalVideos: nat)

  /** A course's views in position order start with a non-zero baseline. */
  lemma CourseViewsUsable(df: seq<Row>, c: string)
    requires BaselinesPositive(df) && c in Titles(df)
    ensures |CourseViews(df, c)| > 0 && CourseViews(df, c)[0] > 0
  {
    TitleHasRows(df, c);
  }

  /** `retention[-1]`: the last entry of the course's capped series, which
      is the course's least percentage of its baseline, so at most 100. */
  function FinalRetention(df: seq<Row>, c: string): (f: real)
    requires BaselinesPositive(df) && c in Titles(df)
    ensures |CourseViews(df, c)| > 0 && CourseViews(df, c)[0] > 0 &&
      f == MinOf(PercentOfFirst(CourseViews(df, c)))
    ensures 0.0 <= f <= 100.0
  {
    CourseViewsUsable(df, c);
    var vs := CourseViews(df, c);
    var r := CappedRetention(vs);
    FinalIsLeastPercent(vs);
    r[|r| - 1]
  }

  /** `final_retentions`: one final retention per course, in title order. */
  function FinalRetentions(df: seq<Row>): (fs: seq<real>)
    requires BaselinesPositive(df)
    ensures |fs| == |Titles(df)|
    ensures forall k :: 0 <= k < |fs| ==> fs[k] == FinalRetention(df, Titles(df)[k])
    ensures forall k :: 0 <= k < |fs| ==> 0.0 <= fs[k] <= 100.0
  {
    var ts := Titles(df);
    seq(|ts|, k requires 0 <= k < |ts| => FinalRetention(df, ts[k]))
  }

  /** The summary of the table. There are as many courses as distinct
      titles and as many videos as rows, so never more courses than videos.
      The average and the median are numbers exactly when the table has a
      row, and then lie between the least and the greatest final retention,
      hence within [0, 100]. */
  function CalculateStats(df: seq<Row>): (s: Stats)
    requires BaselinesPositive(df)
    ensures s.totalVideos == |df|
    ensures s.totalCourses == |Elements(TitleColumn(df))|
    ensures s.totalCourses <= s.totalVideos
    ensures s.avgFinalRetention.Finite? <==> |df| > 0
    ensures s.medianFinalRetention.Finite? <==> |df| > 0
    ensures |df| > 0 ==>
      var fs := FinalRetentions(df);
      && MinOf(fs) <= s.avgFinalRetention.v <= MaxOf(fs)
      && MinOf(fs) <= s.medianFinalRetention.v <= MaxOf(fs)
    ensures |df| > 0 ==>
      && 0.0 <= s.avgFinalRetention.v <= 100.0
      && 0.0 <= s.medianFinalRetention.v <= 100.0
  {
    var fs := FinalRetentions(df);
    CoursesAtMostVideos(df);
    FinalsPresent(df);
    Stats(
      if |fs| > 0 then Finite(Mean(fs)) else NaN,
      if |fs| > 0 then Finite(Median(fs)) else NaN,
      |Titles(df)|,
      |df|)
  }

  /** There is a final retention exactly when the table has a row, and the
      least and greatest of them lie within [0, 100]. */
  lemma FinalsPresent(df: seq<Row>)
    requires BaselinesPositive(df)
    ensures |FinalRetentions(df)| > 0 <==> |df| > 0
    ensures |df| > 0 ==>
      0.0 <= MinOf(FinalRetentions(df)) && MaxOf(FinalRetentions(df)) <= 100.0
  {
    if |df| > 0 {
      assert df[0].title in TitleColumn(df);
      var fs := FinalRetentions(df);
      var a :| 0 <= a < |fs| && fs[a] == MinOf(fs);
      var b :| 0 <= b < |fs| && fs[b] == MaxOf(fs);
    }
  }
}
