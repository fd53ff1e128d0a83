/** A table holding one course, listed in increasing position. For such a
    table both median lines reduce to the course's own series: the plain
    median line is panel 2's percentage-of-first series and the capped
    median line is panel 3's capped retention series. This ties the
    cross-course loops to the per-course definitions they generalise. */
module SingleCourse {
  import opened Wrappers
  import opened Seqs
  import opened Sorting
  import opened Statistics
  import opened Retention
  import opened Dataset
  import opened MedianSeries

  /** Every row belongs to course `c`, positions strictly increase down the
      table, and the first video has been viewed. */
  ghost predicate OneCourse(df: seq<Row>, c: string) {
    && |df| > 0
    && (forall i :: 0 <= i < |df| ==> df[i].title == c)
    && (forall i, j :: 0 <= i < j < |df| ==> df[i].position < df[j].position)
    && df[0].views > 0
  }

  /** The `ViewCount` column. */
  function ViewColumn(df: seq<Row>): (vs: seq<nat>)
    ensures |vs| == |df|
    ensures forall i :: 0 <= i < |df| ==> vs[i] == df[i].views
  {
    seq(|df|, i requires 0 <= i < |df| => df[i].views)
  }

  /** The course's rows, in table order and sorted, are the table itself. */
  lemma OneCourseRows(df: seq<Row>, c: string)
    requires OneCourse(df, c)
    ensures RowsOf(df, c) == df && CourseRows(df, c) == df
  {
    FilterAll(df, TitleIs(c));
    assert SortedBy(df, PositionKey);
    SortSorted(df, PositionKey);
  }

  /** The table has one title. */
  lemma OneCourseTitles(df: seq<Row>, c: string)
    requires OneCourse(df, c)
    ensures Titles(df) == [c]
  {
    UniqueConstant(TitleColumn(df), c);
  }

  /** The positions, in first-appearance order, are the column itself,
      and the least one comes first. */
  lemma OneCoursePositions(df: seq<Row>, c: string)
    requires OneCourse(df, c)
    ensures Positions(df) == PositionColumn(df)
    ensures MinInt(PositionColumn(df)) == df[0].position
  {
    var col := PositionColumn(df);
    assert Distinct(col);
    UniqueOfDistinct(col);
    var m := MinInt(col);
    var i :| 0 <= i < |col| && col[i] == m;
    assert col[0] <= m;
  }

  /** Both baselines are the first row's views, which are non-zero. */
  lemma OneCourseBaselines(df: seq<Row>, c: string)
    requires OneCourse(df, c)
    ensures Baseline(df, c) == df[0].views && FileBaseline(df, c) == df[0].views
    ensures BaselinesPositive(df) && FileBaselinesPositive(df)
  {
    OneCourseRows(df, c);
    OneCourseTitles(df, c);
    assert Baseline(df, c) == df[0].views;
    assert forall x :: x in Titles(df) ==> x == c;
  }

  /** The rows at the position of row `k` are just row `k`. */
  lemma RowsAtPosition(df: seq<Row>, c: string, k: nat)
    requires OneCourse(df, c) && k < |df|
    ensures RowsAt(df, df[k].position) == [df[k]]
  {
    FilterOne(df, PositionIs(df[k].position), k);
  }

  /** The one course has a row at the position of each of its rows. */
  lemma HasOwnPosition(df: seq<Row>, c: string, k: nat)
    requires OneCourse(df, c) && k < |df|
    ensures CourseHasPosition(df, c, df[k].position)
  {
    OneCourseRows(df, c);
    RowsAtPosition(df, c, k);
  }

  /** At the position of row `k` the one course contributes, with row `k`'s
      percentage of the first row's views. */
  lemma CourseAtPosition(df: seq<Row>, c: string, k: nat)
    requires OneCourse(df, c) && k < |df|
    ensures BaselinesPositive(df)
    ensures CoursesAt(df, df[k].position) == [c]
    ensures c in Titles(df) && CourseHasPosition(df, c, df[k].position)
    ensures CourseRawAt(df, c, df[k].position) == Percent(df[k].views, df[0].views)
  {
    var pos := df[k].position;
    OneCourseBaselines(df, c);
    OneCourseTitles(df, c);
    HasOwnPosition(df, c, k);
    assert HasRowAt(df, pos)(c);
    FilterAll([c], HasRowAt(df, pos));
    assert RowsAt(CourseRows(df, c), pos)[0] == df[k] by {
      OneCourseRows(df, c);
      RowsAtPosition(df, c, k);
    }
  }

  /** So the contributions at that position are row `k`'s percentage,
      capped by the last median. */
  lemma ContributionsAtPosition(df: seq<Row>, c: string, k: nat, last: Num)
    requires OneCourse(df, c) && k < |df|
    ensures BaselinesPositive(df)
    ensures Contributions(df, df[k].position, last) == [Cap(Percent(df[k].views, df[0].views), last)]
  {
    CourseAtPosition(df, c, k);
  }

  // ---------------------------------------------------------------------
  // Panel 2
  // ---------------------------------------------------------------------

  /** The median at the position of row `k` is row `k`'s percentage. */
  lemma OneCourseMedianAt(df: seq<Row>, c: string, k: nat)
    requires OneCourse(df, c) && k < |df|
    ensures FileBaselinesPositive(df) && |RowsAt(df, df[k].position)| > 0
    ensures MedianAt(df, df[k].position) == Percent(df[k].views, df[0].views)
  {
    OneCourseBaselines(df, c);
    RowsAtPosition(df, c, k);
    var cs := PanelTwoContributions(df, RowsAt(df, df[k].position));
    assert cs == [Percent(df[k].views, df[0].views)];
    MedianSingleton(cs[0]);
  }

  /** For one course listed in position order, panel 2's median line is the
      course's percentage-of-first series. */
  lemma OneCoursePercentMedians(df: seq<Row>, c: string)
    requires OneCourse(df, c)
    ensures FileBaselinesPositive(df)
    ensures PercentMedians(df) == PercentOfFirst(ViewColumn(df))
  {
    OneCourseBaselines(df, c);
    OneCoursePositions(df, c);
    var ps := Positions(df);
    forall k | 0 <= k < |ps|
      ensures |RowsAt(df, ps[k])| > 0
      ensures MedianAt(df, ps[k]) == PercentOfFirst(ViewColumn(df))[k]
    {
      OneCourseMedianAt(df, c, k);
    }
    PercentMedianLoopSpec(df, ps);
  }

  // ---------------------------------------------------------------------
  // Panel 3
  // ---------------------------------------------------------------------

  /** The reals of `s`, each as a finite number. */
  function Finites(s: seq<real>): (ns: seq<Num>)
    ensures |ns| == |s|
    ensures forall i :: 0 <= i < |s| ==> ns[i] == Finite(s[i])
  {
    seq(|s|, i requires 0 <= i < |s| => Finite(s[i]))
  }

  /** The capped series grows by one capped entry per video. */
  lemma CappedSnoc(vs: seq<nat>, j: nat)
    requires 0 < j < |vs| && vs[0] > 0
    ensures CappedRetention(vs[..j + 1]) ==
            CappedRetention(vs[..j]) + [Min(Percent(vs[j], vs[0]), CappedRetention(vs[..j])[j - 1])]
  {
    assert vs[..j + 1][..j] == vs[..j];
  }

  /** The next median at row `k` is row `k`'s percentage capped by the
      last entry. */
  lemma NextMedianAtRow(df: seq<Row>, c: string, k: nat, acc: seq<Num>)
    requires OneCourse(df, c) && k < |df|
    requires |acc| > 0 && acc[|acc| - 1].Finite?
    ensures BaselinesPositive(df)
    ensures NextMedian(df, df[k].position, acc) == Finite(Min(Percent(df[k].views, df[0].views), acc[|acc| - 1].v))
  {
    CourseAtPosition(df, c, k);
    ContributionsAtPosition(df, c, k, acc[|acc| - 1]);
    MedianSingleton(Cap(Percent(df[k].views, df[0].views), acc[|acc| - 1]));
  }

  lemma FinitesSnoc(s: seq<real>, x: real)
    ensures Finites(s + [x]) == Finites(s) + [Finite(x)]
  {
  }

  /** After `j` finite entries, the loop caps row `j`'s percentage by the
      last of them. */
  lemma NextMedianAfter(df: seq<Row>, c: string, j: nat, prev: seq<real>)
    requires OneCourse(df, c) && 0 < j < |df| && |prev| == j
    ensures BaselinesPositive(df)
    ensures NextMedian(df, df[j].position, Finites(prev)) ==
            Finite(Min(Percent(ViewColumn(df)[j], ViewColumn(df)[0]), prev[j - 1]))
  {
    NextMedianAtRow(df, c, j, Finites(prev));
  }

  /** The median the loop appends at row `j` is the next entry of the
      course's capped series. */
  lemma OneCourseNextEntry(df: seq<Row>, c: string, j: nat)
    requires OneCourse(df, c) && 0 < j < |df|
    ensures BaselinesPositive(df)
    ensures var acc := Finites(CappedRetention(ViewColumn(df)[..j]));
            acc + [NextMedian(df, df[j].position, acc)] == Finites(CappedRetention(ViewColumn(df)[..j + 1]))
  {
    var vs := ViewColumn(df);
    var prev := CappedRetention(vs[..j]);
    OneCourseBaselines(df, c);
    NextMedianAfter(df, c, j, prev);
    CappedSnoc(vs, j);
    FinitesSnoc(prev, Min(Percent(vs[j], vs[0]), prev[j - 1]));
  }

  /** One turn of the median loop at row `j` of a one-course table appends
      the next entry of the course's capped series. */
  lemma OneCourseLoopStep(df: seq<Row>, c: string, j: nat)
    requires OneCourse(df, c) && 0 < j < |df|
    ensures BaselinesPositive(df)
    ensures var vs := ViewColumn(df);
            var ps := PositionColumn(df)[j..];
            RetentionMedianLoop(df, ps, df[0].position, Finites(CappedRetention(vs[..j]))) ==
            RetentionMedianLoop(df, ps[1..], df[0].position, Finites(CappedRetention(vs[..j + 1])))
  {
    var ps := PositionColumn(df)[j..];
    var acc := Finites(CappedRetention(ViewColumn(df)[..j]));
    OneCourseBaselines(df, c);
    assert ps[0] == df[j].position != df[0].position;
    assert |RowsAt(df, ps[0])| > 0 by {
      RowsAtPosition(df, c, j);
    }
    LoopStep(df, ps, df[0].position, acc);
    OneCourseNextEntry(df, c, j);
  }

  /** The loop resumed at row `j` with the first `j` capped entries ends with
      the whole capped series. */
  lemma {:induction false} OneCourseLoopFrom(df: seq<Row>, c: string, j: nat)
    requires OneCourse(df, c) && 0 < j <= |df|
    ensures BaselinesPositive(df)
    ensures RetentionMedianLoop(df, PositionColumn(df)[j..], df[0].position, Finites(CappedRetention(ViewColumn(df)[..j])))
            == Ok(Finites(CappedRetention(ViewColumn(df))))
    decreases |df| - j
  {
    OneCourseBaselines(df, c);
    var vs := ViewColumn(df);
    var ps := PositionColumn(df);
    if j == |df| {
      assert vs[..j] == vs;
      assert ps[j..] == [];
    } else {
      OneCourseLoopStep(df, c, j);
      assert ps[j..][1..] == ps[j + 1..];
      OneCourseLoopFrom(df, c, j + 1);
    }
  }

  /** For one course listed in position order, panel 3's median line is the
      course's capped retention series. */
  lemma OneCourseRetentionMedians(df: seq<Row>, c: string)
    requires OneCourse(df, c)
    ensures BaselinesPositive(df)
    ensures RetentionMedians(df) == Ok(Finites(CappedRetention(ViewColumn(df))))
  {
    OneCourseBaselines(df, c);
    OneCoursePositions(df, c);
    var ps := PositionColumn(df);
    var vs := ViewColumn(df);
    RowsAtPosition(df, c, 0);
    LoopStep(df, ps, df[0].position, []);
    assert Finites(CappedRetention(vs[..1])) == [] + [Finite(100.0)];
    OneCourseLoopFrom(df, c, 1);
  }
}
