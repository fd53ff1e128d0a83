/** The two black median lines of the analysis script: the median of the
    plain percentages per position (panel 2) and the capped median
    retention per position (panel 3). Both iterate over the positions in
    order of first appearance in the table. */
module MedianSeries {
  import opened Wrappers
  import opened Seqs
  import opened Statistics
  import opened Retention
  import opened Dataset

  /** Errors the script can raise while building a median line. */
  datatype ScriptError =
    /** `retention_medians[-1]` evaluated while the list is still empty. */
    | IndexError

  // ---------------------------------------------------------------------
  // Panel 2: median of percentages of the first row in table order
  // ---------------------------------------------------------------------

  /** A row's views as a percentage of its course's table-order baseline. */
  function FilePercent(df: seq<Row>, r: Row): real
    requires r in df && FileBaselinesPositive(df)
  {
    Percent(r.views, FileBaseline(df, r.title))
  }

  /** The percentages contributed by the rows at one position. */
  function PanelTwoContributions(df: seq<Row>, rows: seq<Row>): seq<real>
    requires FileBaselinesPositive(df)
    requires forall k :: 0 <= k < |rows| ==> rows[k] in df
  {
    seq(|rows|, k requires 0 <= k < |rows| => FilePercent(df, rows[k]))
  }

  /** The median of the percentages at position `pos`. */
  function MedianAt(df: seq<Row>, pos: int): real
    requires FileBaselinesPositive(df) && |RowsAt(df, pos)| > 0
  {
    Median(PanelTwoContributions(df, RowsAt(df, pos)))
  }

  /** The loop over positions, appending one median per position that has
      rows. */
  function PercentMedianLoop(df: seq<Row>, ps: seq<int>): seq<real>
    requires FileBaselinesPositive(df)
    decreases |ps|
  {
    if |ps| == 0 then []
    else
      (if |RowsAt(df, ps[0])| > 0 then [MedianAt(df, ps[0])] else [])
        + PercentMedianLoop(df, ps[1..])
  }

  /** Panel 2's median line: one entry per distinct position, in order of
      first appearance, each the median of that position's percentages. */
  function PercentMedians(df: seq<Row>): (m: seq<real>)
    requires FileBaselinesPositive(df)
    ensures |m| == |Positions(df)|
    ensures forall k :: 0 <= k < |m| ==>
      |RowsAt(df, Positions(df)[k])| > 0 && m[k] == MedianAt(df, Positions(df)[k])
  {
    PositionsHaveRows(df);
    PercentMedianLoopSpec(df, Positions(df));
    PercentMedianLoop(df, Positions(df))
  }

  /** `m` lies between the percentages of two rows at position `pos`. */
  ghost predicate WithinRowsAt(df: seq<Row>, pos: int, m: real)
    requires FileBaselinesPositive(df)
  {
    exists lo, hi :: lo in df && hi in df && lo.position == pos && hi.position == pos &&
      FilePercent(df, lo) <= m <= FilePercent(df, hi)
  }

  /** The median at position `pos` lies between the least and the greatest
      percentage of the rows at `pos`. */
  lemma PanelTwoMedianBounds(df: seq<Row>, pos: int)
    requires FileBaselinesPositive(df)
    requires |RowsAt(df, pos)| > 0
    ensures WithinRowsAt(df, pos, MedianAt(df, pos))
  {
    var rows := RowsAt(df, pos);
    var cs := PanelTwoContributions(df, rows);
    var a :| 0 <= a < |cs| && cs[a] == MinOf(cs);
    var b :| 0 <= b < |cs| && cs[b] == MaxOf(cs);
    assert FilePercent(df, rows[a]) <= Median(cs) <= FilePercent(df, rows[b]);
  }

  /** The loop yields one median per position it visits (each visited
      position has rows), each within the range of that position's
      percentages. */
  lemma {:induction false} PercentMedianLoopSpec(df: seq<Row>, ps: seq<int>)
    requires FileBaselinesPositive(df)
    requires forall k :: 0 <= k < |ps| ==> |RowsAt(df, ps[k])| > 0
    ensures |PercentMedianLoop(df, ps)| == |ps|
    ensures forall k :: 0 <= k < |ps| ==>
      PercentMedianLoop(df, ps)[k] == MedianAt(df, ps[k])
    decreases |ps|
  {
    if |ps| > 0 {
      PercentMedianLoopSpec(df, ps[1..]);
      PercentMedianLoopHead(df, ps);
    }
  }

  /** One turn of the loop at a position that has rows. */
  lemma PercentMedianLoopUnfold(df: seq<Row>, ps: seq<int>)
    requires FileBaselinesPositive(df)
    requires |ps| > 0 && |RowsAt(df, ps[0])| > 0
    ensures PercentMedianLoop(df, ps) == [MedianAt(df, ps[0])] + PercentMedianLoop(df, ps[1..])
  {
  }

  /** The loop's first entry is the median at the first position; the rest
      is the loop over the remaining positions. */
  lemma PercentMedianLoopHead(df: seq<Row>, ps: seq<int>)
    requires FileBaselinesPositive(df)
    requires |ps| > 0 && forall k :: 0 <= k < |ps| ==> |RowsAt(df, ps[k])| > 0
    requires |PercentMedianLoop(df, ps[1..])| == |ps| - 1
    requires forall k :: 0 <= k < |ps| - 1 ==>
      PercentMedianLoop(df, ps[1..])[k] == MedianAt(df, ps[1..][k])
    ensures |PercentMedianLoop(df, ps)| == |ps|
    ensures forall k :: 0 <= k < |ps| ==>
      PercentMedianLoop(df, ps)[k] == MedianAt(df, ps[k])
  {
    PercentMedianLoopUnfold(df, ps);
    forall k | 0 < k < |ps|
      ensures PercentMedianLoop(df, ps)[k] == MedianAt(df, ps[k])
    {
      assert ps[1..][k - 1] == ps[k];
    }
  }

  /** Panel 2's median line has one entry per distinct position, and the
      entry for a position lies between the least and the greatest
      percentage among the rows at that position. */
  lemma PercentMediansSpec(df: seq<Row>)
    requires FileBaselinesPositive(df)
    ensures |PercentMedians(df)| == |Positions(df)|
    ensures forall k :: 0 <= k < |Positions(df)| ==>
      WithinRowsAt(df, Positions(df)[k], PercentMedians(df)[k])
  {
    var ps := Positions(df);
    forall k | 0 <= k < |ps|
      ensures WithinRowsAt(df, ps[k], PercentMedians(df)[k])
    {
      PanelTwoMedianBounds(df, ps[k]);
    }
  }

  // ---------------------------------------------------------------------
  // Panel 3: median retention, each course capped by the previous median
  // ---------------------------------------------------------------------

  /** `min(raw_retention, retention_medians[-1])`. Python's `min` keeps its
      first argument unless the second is strictly smaller, and no
      comparison with NaN is true, so a NaN last entry caps nothing. */
  function Cap(raw: real, last: Num): (r: real)
    ensures last.NaN? ==> r == raw
    ensures last.Finite? ==> r <= raw && r <= last.v && (r == raw || r == last.v)
    ensures last.Finite? && raw <= last.v ==> r == raw
  {
    match last
    case Finite(v) => Min(raw, v)
    case NaN => raw
  }

  /** The course has a row at `pos`. */
  predicate CourseHasPosition(df: seq<Row>, c: string, pos: int) {
    |RowsAt(CourseRows(df, c), pos)| > 0
  }

  /** The course's raw retention at `pos`: the views of its first sorted row
      at `pos` as a percentage of its sorted baseline. */
  function CourseRawAt(df: seq<Row>, c: string, pos: int): real
    requires BaselinesPositive(df)
    requires c in Titles(df) && CourseHasPosition(df, c, pos)
  {
    Percent(RowsAt(CourseRows(df, c), pos)[0].views, Baseline(df, c))
  }

  /** The test "the course has a row at `pos`". */
  function HasRowAt(df: seq<Row>, pos: int): string -> bool {
    (c: string) => CourseHasPosition(df, c, pos)
  }

  /** The titles, in first-appearance order, of the courses with a row at `pos`. */
  function CoursesAt(df: seq<Row>, pos: int): seq<string> {
    Filter(Titles(df), HasRowAt(df, pos))
  }

  /** Each contributing course is a course of the table with a row at `pos`. */
  lemma CoursesAtUsable(df: seq<Row>, pos: int)
    ensures forall k :: 0 <= k < |CoursesAt(df, pos)| ==>
      CoursesAt(df, pos)[k] in Titles(df) && CourseHasPosition(df, CoursesAt(df, pos)[k], pos)
  {
  }

  /** `course_retentions`: each contributing course's raw retention at `pos`
      capped by the last median, in title order. */
  function Contributions(df: seq<Row>, pos: int, last: Num): (cs: seq<real>)
    requires BaselinesPositive(df)
    ensures |cs| == |CoursesAt(df, pos)|
    ensures forall k :: 0 <= k < |cs| ==>
      cs[k] == Cap(CourseRawAt(df, CoursesAt(df, pos)[k], pos), last)
  {
    CoursesAtUsable(df, pos);
    var courses := CoursesAt(df, pos);
    seq(|courses|, k requires 0 <= k < |courses| => Cap(CourseRawAt(df, courses[k], pos), last))
  }

  /** The next median: the median of the contributions capped by the last
      entry of `acc`, or NaN when no course has a row at `pos` (the last
      entry is then never read). */
  function NextMedian(df: seq<Row>, pos: int, acc: seq<Num>): Num
    requires BaselinesPositive(df)
    requires |acc| > 0 || |CoursesAt(df, pos)| == 0
  {
    if |CoursesAt(df, pos)| > 0 then Finite(Median(Contributions(df, pos, acc[|acc| - 1]))) else NaN
  }

  /** The loop over positions `ps`: 100 at the least position `lo`, otherwise
      the median of the capped contributions, or NaN when no course
      contributes; fails when a contribution needs the last median of a
      still empty list. */
  function RetentionMedianLoop(df: seq<Row>, ps: seq<int>, lo: int, acc: seq<Num>)
    : Result<seq<Num>, ScriptError>
    requires BaselinesPositive(df)
    decreases |ps|
  {
    if |ps| == 0 then Ok(acc)
    else if |RowsAt(df, ps[0])| == 0 then RetentionMedianLoop(df, ps[1..], lo, acc)
    else if ps[0] == lo then RetentionMedianLoop(df, ps[1..], lo, acc + [Finite(100.0)])
    else
      var courses := CoursesAt(df, ps[0]);
      if |courses| > 0 && |acc| == 0 then Err(IndexError)
      else
        RetentionMedianLoop(df, ps[1..], lo, acc + [NextMedian(df, ps[0], acc)])
  }

  /** Panel 3's median line. The script fails with an IndexError exactly
      when the table is non-empty and its first row's position is not the
      least position. Otherwise the line has one entry per distinct
      position, the NaN case never arises, it starts at exactly 100, stays
      within [0, 100] and never rises from one entry to the next (in
      first-appearance order, which need not be numeric order). */
  function RetentionMedians(df: seq<Row>): (r: Result<seq<Num>, ScriptError>)
    requires BaselinesPositive(df)
    ensures r.Ok? <==> (|df| == 0 || df[0].position == MinInt(Positions(df)))
    ensures r.Ok? ==>
      |r.value| == |Positions(df)| && Settled(r.value) && (|df| > 0 ==> r.value[0] == Finite(100.0))
  {
    if |df| == 0 then Ok([])
    else
      LoopFromLeast(df);
      RetentionMedianLoop(df, Positions(df), MinInt(Positions(df)), [])
  }

  /** Every entry is a finite percentage in [0, 100], and no entry exceeds
      the one before it. */
  ghost predicate Settled(s: seq<Num>) {
    && (forall k :: 0 <= k < |s| ==> s[k].Finite? && 0.0 <= s[k].v <= 100.0)
    && (forall k :: 0 < k < |s| ==> s[k].v <= s[k - 1].v)
  }

  /** Some course contributes at every position that has rows: a row at
      `pos` belongs to a course that has a row at `pos`. */
  lemma CoursesAtNonEmpty(df: seq<Row>, pos: int)
    requires |RowsAt(df, pos)| > 0
    ensures |CoursesAt(df, pos)| > 0
  {
    var r := RowsAt(df, pos)[0];
    var i :| 0 <= i < |df| && df[i] == r;
    var c := df[i].title;
    RowInCourseRows(df, i);
    var rows := CourseRows(df, c);
    var j :| 0 <= j < |rows| && rows[j] == df[i];
    assert rows[j] in RowsAt(rows, pos);
    assert c == TitleColumn(df)[i];
    var t := Titles(df);
    var k :| 0 <= k < |t| && t[k] == c;
    assert t[k] in CoursesAt(df, pos);
  }

  /** Each contribution capped by a finite last median lies in [0, last]. */
  lemma ContributionsBounded(df: seq<Row>, pos: int, last: real)
    requires BaselinesPositive(df)
    requires 0.0 <= last
    ensures forall k :: 0 <= k < |Contributions(df, pos, Finite(last))| ==>
      0.0 <= Contributions(df, pos, Finite(last))[k] <= last
  {
  }

  /** A median of contributions capped by `last` lies in [0, last]. */
  lemma CappedMedianBounded(df: seq<Row>, pos: int, last: real)
    requires BaselinesPositive(df)
    requires 0.0 <= last
    requires |CoursesAt(df, pos)| > 0
    ensures 0.0 <= Median(Contributions(df, pos, Finite(last))) <= last
  {
    var cs := Contributions(df, pos, Finite(last));
    ContributionsBounded(df, pos, last);
    MedianAtMost(cs, last);
    var a :| 0 <= a < |cs| && cs[a] == MinOf(cs);
  }

  /** At a position that has rows, the next median after a settled
      non-empty line is finite and lies in [0, last entry]. */
  lemma NextMedianBounded(df: seq<Row>, pos: int, acc: seq<Num>)
    requires BaselinesPositive(df)
    requires |RowsAt(df, pos)| > 0
    requires Settled(acc) && |acc| > 0
    ensures NextMedian(df, pos, acc).Finite?
    ensures 0.0 <= NextMedian(df, pos, acc).v <= acc[|acc| - 1].v
  {
    CoursesAtNonEmpty(df, pos);
    CappedMedianBounded(df, pos, acc[|acc| - 1].v);
  }

  /** Appending a value in [0, last entry] keeps a line settled. */
  lemma SettledSnoc(acc: seq<Num>, x: Num)
    requires Settled(acc)
    requires x.Finite? && 0.0 <= x.v <= 100.0
    requires |acc| > 0 ==> x.v <= acc[|acc| - 1].v
    ensures Settled(acc + [x])
  {
  }

  /** One turn of the loop at a position that has rows. */
  lemma LoopStep(df: seq<Row>, ps: seq<int>, lo: int, acc: seq<Num>)
    requires BaselinesPositive(df)
    requires |ps| > 0 && |RowsAt(df, ps[0])| > 0
    ensures RetentionMedianLoop(df, ps, lo, acc) ==
      if ps[0] == lo then RetentionMedianLoop(df, ps[1..], lo, acc + [Finite(100.0)])
      else if |acc| == 0 then Err(IndexError)
      else RetentionMedianLoop(df, ps[1..], lo, acc + [NextMedian(df, ps[0], acc)])
  {
    CoursesAtNonEmpty(df, ps[0]);
  }

  /** What the loop promises from a given state: the requirements and the
      promise of `RetentionMedianLoopSpec`. */
  ghost predicate LoopInvariant(df: seq<Row>, ps: seq<int>, lo: int, acc: seq<Num>) {
    && BaselinesPositive(df)
    && (forall k :: 0 <= k < |ps| ==> |RowsAt(df, ps[k])| > 0)
    && Distinct(ps)
    && (|acc| > 0 ==> lo !in ps)
    && Settled(acc)
  }

  /** `r` is what the loop may return from this state: it fails exactly
      when the first position is not the least one and nothing has been
      appended yet, and otherwise extends `acc` by one settled entry per
      position. */
  ghost predicate Promise(r: Result<seq<Num>, ScriptError>, ps: seq<int>, lo: int, acc: seq<Num>) {
    && (r.Ok? <==> (|ps| == 0 || |acc| > 0 || ps[0] == lo))
    && (r.Ok? ==> |r.value| == |acc| + |ps| && r.value[..|acc|] == acc && Settled(r.value))
  }

  /** The promise for the rest of the loop after one appended entry is the
      promise for the loop before it. */
  lemma PromiseThroughStep(r: Result<seq<Num>, ScriptError>, ps: seq<int>, lo: int, acc: seq<Num>, x: Num)
    requires |ps| > 0 && (|acc| > 0 || ps[0] == lo)
    requires Promise(r, ps[1..], lo, acc + [x])
    ensures Promise(r, ps, lo, acc)
  {
    var acc' := acc + [x];
    assert r.value[..|acc|] == r.value[..|acc'|][..|acc|];
  }

  /** The loop over distinct positions that all have rows fails exactly when
      its first position is not the least one and nothing has been appended
      yet; otherwise it appends one settled entry per position. */
  lemma {:induction false} RetentionMedianLoopSpec(df: seq<Row>, ps: seq<int>, lo: int, acc: seq<Num>)
    requires LoopInvariant(df, ps, lo, acc)
    ensures Promise(RetentionMedianLoop(df, ps, lo, acc), ps, lo, acc)
    decreases |ps|
  {
    if |ps| > 0 {
      var rest := ps[1..];
      assert Distinct(rest);
      assert forall k :: 0 <= k < |rest| ==> |RowsAt(df, rest[k])| > 0;
      LoopStep(df, ps, lo, acc);
      if ps[0] == lo {
        assert lo !in rest;
        SettledSnoc(acc, Finite(100.0));
        RetentionMedianLoopSpec(df, rest, lo, acc + [Finite(100.0)]);
        PromiseThroughStep(RetentionMedianLoop(df, rest, lo, acc + [Finite(100.0)]), ps, lo, acc, Finite(100.0));
      } else if |acc| > 0 {
        var x := NextMedian(df, ps[0], acc);
        NextMedianBounded(df, ps[0], acc);
        SettledSnoc(acc, x);
        RetentionMedianLoopSpec(df, rest, lo, acc + [x]);
        PromiseThroughStep(RetentionMedianLoop(df, rest, lo, acc + [x]), ps, lo, acc, x);
      }
    }
  }

  /** The loop over the distinct positions of a non-empty table, started
      with an empty line and the least position, keeps its promise. */
  lemma LoopFromLeast(df: seq<Row>)
    requires BaselinesPositive(df) && |df| > 0
    ensures var ps := Positions(df);
      var r := RetentionMedianLoop(df, ps, MinInt(ps), []);
      && (r.Ok? <==> ps[0] == MinInt(ps))
      && (r.Ok? ==> |r.value| == |ps| && Settled(r.value) && r.value[0] == Finite(100.0))
  {
    var ps := Positions(df);
    var lo := MinInt(ps);
    PositionsHaveRows(df);
    assert LoopInvariant(df, ps, lo, []);
    RetentionMedianLoopSpec(df, ps, lo, []);
    if ps[0] == lo {
      FirstEntryIsHundred(df, ps, lo);
    }
  }

  /** When the first position in table order is not the least one, the
      script fails reading the last entry of the still empty list. */
  lemma UnorderedPositionsFail(df: seq<Row>)
    requires BaselinesPositive(df)
    requires |df| > 0 && df[0].position != MinInt(Positions(df))
    ensures RetentionMedians(df) == Err(IndexError)
  {
    var r := RetentionMedians(df);
    assert r.Err?;
    assert r.error == IndexError;
  }

  /** When the least position comes first, the line starts at exactly 100. */
  lemma FirstEntryIsHundred(df: seq<Row>, ps: seq<int>, lo: int)
    requires LoopInvariant(df, ps, lo, [])
    requires |ps| > 0 && ps[0] == lo
    ensures var r := RetentionMedianLoop(df, ps, lo, []);
      r.Ok? && |r.value| > 0 && r.value[0] == Finite(100.0)
  {
    LoopStep(df, ps, lo, []);
    var one: seq<Num> := [Finite(100.0)];
    assert [] + one == one;
    assert Distinct(ps[1..]);
    assert LoopInvariant(df, ps[1..], lo, [Finite(100.0)]);
    RetentionMedianLoopSpec(df, ps[1..], lo, [Finite(100.0)]);
    PromiseHead(RetentionMedianLoop(df, ps[1..], lo, [Finite(100.0)]), ps[1..], lo, Finite(100.0));
  }

  /** A promise made after one entry starts with that entry. */
  lemma PromiseHead(r: Result<seq<Num>, ScriptError>, ps: seq<int>, lo: int, x: Num)
    requires Promise(r, ps, lo, [x])
    ensures r.Ok? && |r.value| > 0 && r.value[0] == x
  {
    assert r.value[..1] == [x];
  }
}
