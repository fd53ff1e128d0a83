/** Worked tables for the analysis script, including the two places where
    it does not do what a reader might expect: the median lines iterate
    positions in table order, and panel 2's median line measures against
    the first row in table order rather than the lowest position. */
module Examples {
  import opened Wrappers
  import opened Seqs
  import opened Sorting
  import opened Statistics
  import opened Retention
  import opened Dataset
  import opened MedianSeries

  /** A course whose third video outdraws its second: the capped series
      holds at the second video's level. */
  lemma CappedHoldsAfterDip()
    ensures PercentOfFirst([1000, 500, 800]) == [100.0, 50.0, 80.0]
    ensures CappedRetention([1000, 500, 800]) == [100.0, 50.0, 50.0]
  {
    assert [1000, 500, 800][..2] == [1000, 500];
    assert [1000, 500][..1] == [1000];
  }

  /** An even number of values has the mean of the two middle ones as median. */
  lemma MedianOfTwo()
    ensures Median([60.0, 40.0]) == 50.0
  {
    SortSwapsTwo(60.0, 40.0, Identity);
    assert Middle([40.0, 60.0]) == 50.0;
  }

  /** One course listed with its second video first. */
  function Reversed(): seq<Row> {
    [Row("A", 2, 50), Row("A", 1, 100)]
  }

  lemma ReversedPositions()
    ensures Positions(Reversed()) == [2, 1]
  {
    var col := PositionColumn(Reversed());
    assert col == [2, 1];
    assert Distinct(col);
    UniqueOfDistinct(col);
  }

  lemma ReversedTitles()
    ensures Titles(Reversed()) == ["A"]
  {
    UniqueConstant(TitleColumn(Reversed()), "A");
  }

  /** Sorting two elements given in descending key order swaps them. */
  lemma SortSwapsTwo<T>(x: T, y: T, key: T -> real)
    requires key(y) < key(x)
    ensures SortBy([x, y], key) == [y, x]
  {
    assert [x, y][1..] == [y];
    assert [y][1..] == [];
    assert SortBy([y], key) == [y];
    assert Insert(x, [], key) == [x];
  }

  /** Both rows belong to course "A". */
  lemma ReversedRowsOf()
    ensures RowsOf(Reversed(), "A") == Reversed()
  {
    var df := Reversed();
    assert TitleIs("A")(df[0]) && TitleIs("A")(df[1]);
    FilterAll(df, TitleIs("A"));
  }

  lemma ReversedCourseRows()
    ensures RowsOf(Reversed(), "A") == Reversed()
    ensures CourseRows(Reversed(), "A") == [Row("A", 1, 100), Row("A", 2, 50)]
  {
    ReversedRowsOf();
    SortSwapsTwo(Row("A", 2, 50), Row("A", 1, 100), PositionKey);
  }

  lemma ReversedFileBaseline()
    ensures FileBaseline(Reversed(), "A") == 50
    ensures FileBaselinesPositive(Reversed())
  {
    ReversedTitles();
    ReversedRowsOf();
    assert FileBaseline(Reversed(), "A") == 50;
    assert forall c :: c in Titles(Reversed()) ==> c == "A";
  }

  /** Each position holds one row. */
  lemma ReversedRowsAt()
    ensures RowsAt(Reversed(), 2) == [Row("A", 2, 50)]
    ensures RowsAt(Reversed(), 1) == [Row("A", 1, 100)]
  {
    var df := Reversed();
    assert PositionIs(2)(df[0]) && !PositionIs(2)(df[1]);
    assert PositionIs(1)(df[1]) && !PositionIs(1)(df[0]);
    FilterOne(df, PositionIs(2), 0);
    FilterOne(df, PositionIs(1), 1);
  }

  lemma ReversedContributions()
    ensures FileBaselinesPositive(Reversed())
    ensures RowsAt(Reversed(), 2) == [Row("A", 2, 50)]
    ensures RowsAt(Reversed(), 1) == [Row("A", 1, 100)]
    ensures PanelTwoContributions(Reversed(), [Row("A", 2, 50)]) == [100.0]
    ensures PanelTwoContributions(Reversed(), [Row("A", 1, 100)]) == [200.0]
  {
    ReversedFileBaseline();
    ReversedRowsAt();
    assert FilePercent(Reversed(), Row("A", 2, 50)) == 100.0;
    assert FilePercent(Reversed(), Row("A", 1, 100)) == 200.0;
  }

  /** Panel 2's median line for that table: the baseline is the first row
      in table order (50 views, at position 2), so position 1 shows 200%. */
  lemma ReversedPercentMedians()
    ensures FileBaselinesPositive(Reversed())
    ensures PercentMedians(Reversed()) == [100.0, 200.0]
  {
    ReversedPositions();
    ReversedMedians();
    TwoPositionMedians(Reversed(), 2, 1, 100.0, 200.0);
  }

  /** A table with two positions has their two medians as panel 2's line. */
  lemma TwoPositionMedians(df: seq<Row>, a: int, b: int, x: real, y: real)
    requires FileBaselinesPositive(df) && Positions(df) == [a, b]
    requires |RowsAt(df, a)| > 0 && MedianAt(df, a) == x
    requires |RowsAt(df, b)| > 0 && MedianAt(df, b) == y
    ensures PercentMedians(df) == [x, y]
  {
    var ps := [a, b];
    PercentMedianLoopUnfold(df, ps);
    assert ps[1..] == [b];
    PercentMedianLoopUnfold(df, [b]);
    assert [b][1..] == [];
  }

  /** Each position has one row, so its median is that row's percentage. */
  lemma ReversedMedians()
    ensures FileBaselinesPositive(Reversed())
    ensures |RowsAt(Reversed(), 2)| > 0 && MedianAt(Reversed(), 2) == 100.0
    ensures |RowsAt(Reversed(), 1)| > 0 && MedianAt(Reversed(), 1) == 200.0
  {
    ReversedContributions();
    MedianSingleton(100.0);
    MedianSingleton(200.0);
  }

  /** The course's own panel 2 series, based on its lowest position, shows
      100% at position 1 and 50% at position 2. */
  lemma ReversedCourseSeries()
    ensures CourseViews(Reversed(), "A") == [100, 50]
    ensures PercentOfFirst(CourseViews(Reversed(), "A")) == [100.0, 50.0]
  {
    ReversedCourseRows();
  }

  /** Panel 3's median line for that table: the first position visited is
      not the least one, so the script reads the last entry of an empty
      list and fails. */
  lemma ReversedPanelThreeFails()
    ensures BaselinesPositive(Reversed())
    ensures RetentionMedians(Reversed()) == Err(IndexError)
  {
    ReversedBaselines();
    ReversedStartsAbove();
    UnorderedPositionsFail(Reversed());
  }

  /** The first position in table order is not the least one. */
  lemma ReversedStartsAbove()
    ensures Positions(Reversed())[0] == 2 && MinInt(Positions(Reversed())) == 1
  {
    ReversedPositions();
    assert MinInt([2, 1]) == 1;
  }

  /** Sorted by position, the course's baseline is its position-1 row. */
  lemma ReversedBaseline()
    ensures Baseline(Reversed(), "A") == 100
  {
    ReversedCourseRows();
  }

  /** So every course of the table has a non-zero baseline. */
  lemma ReversedBaselines()
    ensures BaselinesPositive(Reversed())
  {
    ReversedTitles();
    ReversedBaseline();
    assert forall c :: c in Titles(Reversed()) ==> c == "A";
  }
}
