/** The table the analysis script reads (columns `CourseTitle`, `Position`,
    `ViewCount`) and the groupings it derives from it on every pass:
    distinct titles, distinct positions, and each course's rows sorted by
    position. */
module Dataset {
  import opened Seqs
  import opened Sorting

  /** One row of the table. */
  datatype Row = Row(title: string, position: int, views: nat)

  /** The `CourseTitle` column. */
  function TitleColumn(df: seq<Row>): (c: seq<string>)
    ensures |c| == |df|
    ensures forall i :: 0 <= i < |df| ==> c[i] == df[i].title
  {
    seq(|df|, i requires 0 <= i < |df| => df[i].title)
  }

  /** The `Position` column. */
  function PositionColumn(df: seq<Row>): (c: seq<int>)
    ensures |c| == |df|
    ensures forall i :: 0 <= i < |df| ==> c[i] == df[i].position
  {
    seq(|df|, i requires 0 <= i < |df| => df[i].position)
  }

  /** `df['CourseTitle'].unique()`: course titles in order of first
      appearance, each once. */
  function Titles(df: seq<Row>): (t: seq<string>)
    ensures forall i :: 0 <= i < |df| ==> df[i].title in t
    ensures forall k :: 0 <= k < |t| ==> t[k] in TitleColumn(df)
  {
    Unique(TitleColumn(df))
  }

  /** `df['Position'].unique()`: positions in order of first appearance,
      which need not be numeric order; the first is the first row's
      position. */
  function Positions(df: seq<Row>): (p: seq<int>)
    ensures Distinct(p)
    ensures forall i :: 0 <= i < |df| ==> df[i].position in p
    ensures forall k :: 0 <= k < |p| ==> p[k] in PositionColumn(df)
    ensures |df| > 0 ==> |p| > 0 && p[0] == df[0].position
  {
    if |df| > 0 then UniqueHead(PositionColumn(df)); Unique(PositionColumn(df))
    else Unique(PositionColumn(df))
  }

  /** The test `df['CourseTitle'] == c`. */
  function TitleIs(c: string): Row -> bool {
    (r: Row) => r.title == c
  }

  /** The test `df['Position'] == pos`. */
  function PositionIs(pos: int): Row -> bool {
    (r: Row) => r.position == pos
  }

  /** `df[df['CourseTitle'] == c]`: the course's rows in table order. */
  function RowsOf(df: seq<Row>, c: string): seq<Row> {
    Filter(df, TitleIs(c))
  }

  /** The rows of `rows` at position `pos`, in order. */
  function RowsAt(rows: seq<Row>, pos: int): seq<Row> {
    Filter(rows, PositionIs(pos))
  }

  /** The sort key `Position`. */
  function PositionKey(r: Row): real {
    r.position as real
  }

  /** `df[df['CourseTitle'] == c].sort_values('Position')`: a rearrangement
      of the course's rows in ascending position. */
  function CourseRows(df: seq<Row>, c: string): (rows: seq<Row>)
    ensures SortedBy(rows, PositionKey)
    ensures multiset(rows) == multiset(RowsOf(df, c))
    ensures forall k :: 0 <= k < |rows| ==> rows[k] in df && rows[k].title == c
    ensures (exists i :: 0 <= i < |df| && df[i].title == c) ==> |rows| > 0
  {
    SortedMembers(RowsOf(df, c), PositionKey);
    RowsOfMembers(df, c);
    SortBy(RowsOf(df, c), PositionKey)
  }

  /** The course's rows are rows of the table with its title, and it has
      some as soon as the table holds one. */
  lemma RowsOfMembers(df: seq<Row>, c: string)
    ensures forall r :: r in RowsOf(df, c) ==> r in df && r.title == c
    ensures (exists i :: 0 <= i < |df| && df[i].title == c) ==> |RowsOf(df, c)| > 0
  {
    var rows := RowsOf(df, c);
    forall r | r in rows
      ensures r in df && r.title == c
    {
      var k :| 0 <= k < |rows| && rows[k] == r;
    }
    if exists i :: 0 <= i < |df| && df[i].title == c {
      var i :| 0 <= i < |df| && df[i].title == c;
      assert df[i] in rows;
    }
  }

  /** A row of course `c` appears among its sorted rows. */
  lemma RowInCourseRows(df: seq<Row>, i: nat)
    requires i < |df|
    ensures df[i] in CourseRows(df, df[i].title)
  {
    var c := df[i].title;
    assert df[i] in RowsOf(df, c);
    assert df[i] in multiset(CourseRows(df, c));
  }

  /** The view counts of the course's rows in position order. */
  function CourseViews(df: seq<Row>, c: string): (vs: seq<nat>)
    ensures |vs| == |CourseRows(df, c)|
    ensures forall k :: 0 <= k < |vs| ==> vs[k] == CourseRows(df, c)[k].views
  {
    var rows := CourseRows(df, c);
    seq(|rows|, k requires 0 <= k < |rows| => rows[k].views)
  }

  /** `course_data.iloc[0]['ViewCount']`: the views of the course's
      lowest-position row, the baseline of panels 2 and 3 (0 for a title
      with no rows). */
  function Baseline(df: seq<Row>, c: string): nat {
    var rows := CourseRows(df, c);
    if |rows| > 0 then rows[0].views else 0
  }

  /** `df.groupby('CourseTitle').first()['ViewCount']`: the views of the
      course's first row in table order, the baseline of panel 2's median
      line (0 for a title with no rows). */
  function FileBaseline(df: seq<Row>, c: string): nat {
    var rows := RowsOf(df, c);
    if |rows| > 0 then rows[0].views else 0
  }

  /** Every course's sorted baseline is non-zero, so no percentage divides
      by zero. */
  ghost predicate BaselinesPositive(df: seq<Row>) {
    forall c :: c in Titles(df) ==> Baseline(df, c) > 0
  }

  /** Every course's table-order baseline is non-zero. */
  ghost predicate FileBaselinesPositive(df: seq<Row>) {
    forall c :: c in Titles(df) ==> FileBaseline(df, c) > 0
  }

  /** Each title the script iterates over has at least one row. */
  lemma TitleHasRows(df: seq<Row>, c: string)
    requires c in Titles(df)
    ensures exists i :: 0 <= i < |df| && df[i].title == c
  {
    var k :| 0 <= k < |Titles(df)| && Titles(df)[k] == c;
    assert c in TitleColumn(df);
  }

  /** Each position the script iterates over has at least one row: the
      `len(pos_data) > 0` test is always true. */
  lemma PositionHasRows(df: seq<Row>, pos: int)
    requires pos in Positions(df)
    ensures |RowsAt(df, pos)| > 0
  {
    var k :| 0 <= k < |Positions(df)| && Positions(df)[k] == pos;
    assert pos in PositionColumn(df);
    var i :| 0 <= i < |df| && df[i].position == pos;
  }
  /** Every distinct position has rows. */
  lemma PositionsHaveRows(df: seq<Row>)
    ensures forall k :: 0 <= k < |Positions(df)| ==> |RowsAt(df, Positions(df)[k])| > 0
  {
    forall k | 0 <= k < |Positions(df)|
      ensures |RowsAt(df, Positions(df)[k])| > 0
    {
      PositionHasRows(df, Positions(df)[k]);
    }
  }


  /** The script counts one course per distinct title and one video per row,
      so there are never more courses than videos. */
  lemma CoursesAtMostVideos(df: seq<Row>)
    ensures |Titles(df)| == |Elements(TitleColumn(df))|
    ensures |Titles(df)| <= |df|
  {
    UniqueCardinality(TitleColumn(df));
  }
}
