/** One course's retention series (visualize.py, panels 2 and 3): each
    video's views as a percentage of the first video's, and the "capped"
    series in which no entry may exceed the one before it. */
module Retention {
  import opened Statistics

  /** Python's two-argument `min`: the first argument unless the second is
      strictly smaller. */
  function Min(a: real, b: real): (m: real)
    ensures m <= a && m <= b
    ensures m == a || m == b
  {
    if b < a then b else a
  }

  /** `views / baseline * 100`: a view count as a percentage of the baseline.
      The baseline itself is 100 percent. */
  function Percent(views: nat, baseline: nat): (p: real)
    requires baseline > 0
    ensures p >= 0.0
    ensures views == baseline ==> p == 100.0
  {
    assert baseline as real / baseline as real == 1.0;
    views as real / baseline as real * 100.0
  }

  /** The percentage times the baseline is 100 times the views. */
  lemma PercentScales(views: nat, baseline: nat)
    requires baseline > 0
    ensures Percent(views, baseline) * baseline as real == 100.0 * views as real
  {
    var b := baseline as real;
    assert views as real / b * b == views as real;
  }

  /** Percentages of one baseline are ordered exactly as the view counts are. */
  lemma PercentMonotone(v: nat, w: nat, baseline: nat)
    requires baseline > 0
    ensures Percent(v, baseline) <= Percent(w, baseline) <==> v <= w
  {
    var b := baseline as real;
    PercentScales(v, baseline);
    PercentScales(w, baseline);
    assert (Percent(w, baseline) - Percent(v, baseline)) * b == 100.0 * (w as real - v as real);
  }

  /** The percentage-of-first series of panel 2: entry `i` is video `i`'s
      views as a percentage of video 0's, so the series starts at 100. */
  function PercentOfFirst(vs: seq<nat>): (r: seq<real>)
    requires |vs| > 0 && vs[0] > 0
    ensures |r| == |vs|
    ensures r[0] == 100.0
    ensures forall i :: 0 <= i < |r| ==> r[i] == Percent(vs[i], vs[0])
  {
    seq(|vs|, i requires 0 <= i < |vs| => Percent(vs[i], vs[0]))
  }

  /** Entry `i` of the series times the first video's views is 100 times
      video `i`'s views. */
  lemma PercentOfFirstScales(vs: seq<nat>)
    requires |vs| > 0 && vs[0] > 0
    ensures forall i :: 0 <= i < |vs| ==>
      PercentOfFirst(vs)[i] * vs[0] as real == 100.0 * vs[i] as real
  {
    forall i | 0 <= i < |vs|
      ensures PercentOfFirst(vs)[i] * vs[0] as real == 100.0 * vs[i] as real
    {
      PercentScales(vs[i], vs[0]);
    }
  }

  /** The capped retention series of panel 3, built as the script builds it:
      start at 100 and append, for each later video, the smaller of its
      percentage and the last entry. It keeps one entry per video, never
      rises, and never exceeds the video's own percentage. */
  function CappedRetention(vs: seq<nat>): (r: seq<real>)
    requires |vs| > 0 && vs[0] > 0
    ensures |r| == |vs|
    ensures r[0] == 100.0
    ensures forall i, j :: 0 <= i <= j < |r| ==> r[j] <= r[i]
    ensures forall i :: 0 <= i < |r| ==> 0.0 <= r[i] <= Percent(vs[i], vs[0])
    decreases |vs|
  {
    if |vs| == 1 then [100.0]
    else
      var init := vs[..|vs| - 1];
      assert init[0] == vs[0];
      var prev := CappedRetention(init);
      var r := prev + [Min(Percent(vs[|vs| - 1], vs[0]), prev[|prev| - 1])];
      assert forall i :: 0 <= i < |prev| ==> r[i] == prev[i] && init[i] == vs[i];
      r
  }

  /** Panel 2's series of a prefix of the course is the prefix of its series. */
  lemma PercentOfFirstPrefix(vs: seq<nat>, k: nat)
    requires 0 < k <= |vs| && vs[0] > 0
    ensures PercentOfFirst(vs)[..k] == PercentOfFirst(vs[..k])
  {
    var a := PercentOfFirst(vs)[..k];
    var b := PercentOfFirst(vs[..k]);
    forall i | 0 <= i < k
      ensures a[i] == b[i]
    {
      assert vs[..k][i] == vs[i];
    }
  }

  /** The capped series of a course minus its last video is the series
      minus its last entry, and the last entry caps the last percentage by
      the entry before it. */
  lemma CappedSnocEntry(vs: seq<nat>)
    requires |vs| > 1 && vs[0] > 0
    ensures vs[..|vs| - 1][0] == vs[0]
    ensures CappedRetention(vs)[..|vs| - 1] == CappedRetention(vs[..|vs| - 1])
    ensures CappedRetention(vs)[|vs| - 1] ==
              Min(Percent(vs[|vs| - 1], vs[0]), CappedRetention(vs[..|vs| - 1])[|vs| - 2])
  {
  }

  /** The least of a sequence is the smaller of its last element and the
      least of the rest. */
  lemma MinOfSnoc(s: seq<real>)
    requires |s| > 1
    ensures MinOf(s) == Min(MinOf(s[..|s| - 1]), s[|s| - 1])
  {
  }

  /** Dropping the last video does not change the earlier capped entries. */
  lemma CappedShorter(vs: seq<nat>, i: nat)
    requires i < |vs| - 1 && vs[0] > 0
    ensures CappedRetention(vs)[i] == CappedRetention(vs[..|vs| - 1])[i]
  {
    CappedSnocEntry(vs);
    assert CappedRetention(vs)[i] == CappedRetention(vs)[..|vs| - 1][i];
  }

  /** Each capped entry after the first is the smaller of its video's
      percentage and the entry before it, wherever the series ends. */
  lemma {:induction false} CappedStep(vs: seq<nat>, i: nat)
    requires 0 < i < |vs| && vs[0] > 0
    ensures CappedRetention(vs)[i] == Min(Percent(vs[i], vs[0]), CappedRetention(vs)[i - 1])
    decreases |vs|
  {
    if i < |vs| - 1 {
      CappedStep(vs[..|vs| - 1], i);
      CappedStepShorter(vs, i);
    } else {
      CappedSnocEntry(vs);
      CappedShorter(vs, |vs| - 2);
    }
  }

  /** The step for an entry before the last follows from the step in the
      series without the last video. */
  lemma CappedStepShorter(vs: seq<nat>, i: nat)
    requires 0 < i < |vs| - 1 && vs[0] > 0
    requires var init := vs[..|vs| - 1];
      CappedRetention(init)[i] == Min(Percent(init[i], init[0]), CappedRetention(init)[i - 1])
    ensures CappedRetention(vs)[i] == Min(Percent(vs[i], vs[0]), CappedRetention(vs)[i - 1])
  {
    CappedShorter(vs, i);
    CappedShorter(vs, i - 1);
    assert vs[..|vs| - 1][i] == vs[i];
  }

  /** The least of the first `i + 1` elements is the smaller of the least
      of the first `i` and element `i`. */
  lemma PrefixMinSnoc(s: seq<real>, i: nat)
    requires 0 < i < |s|
    ensures MinOf(s[..i + 1]) == Min(MinOf(s[..i]), s[i])
  {
    MinOfSnoc(s[..i + 1]);
    assert s[..i + 1][..i] == s[..i];
  }

  /** The first capped entry is the first percentage, 100. */
  lemma CappedFirstEntry(vs: seq<nat>)
    requires |vs| > 0 && vs[0] > 0
    ensures CappedRetention(vs)[0] == MinOf(PercentOfFirst(vs)[..1])
  {
    assert PercentOfFirst(vs)[..1] == [100.0];
  }

  /** Entry `i` of the capped series is the least of the first `i + 1`
      percentages. */
  lemma {:induction false} CappedEntryIsPrefixMinimum(vs: seq<nat>, i: nat)
    requires i < |vs| && vs[0] > 0
    ensures CappedRetention(vs)[i] == MinOf(PercentOfFirst(vs)[..i + 1])
    decreases i
  {
    if i == 0 {
      CappedFirstEntry(vs);
    } else {
      CappedEntryIsPrefixMinimum(vs, i - 1);
      CappedStep(vs, i);
      PrefixMinSnoc(PercentOfFirst(vs), i);
    }
  }

  /** The capped series is the running minimum of panel 2's series: entry
      `i` is the least of the first `i + 1` percentages. */
  lemma CappedIsRunningMinimum(vs: seq<nat>)
    requires |vs| > 0 && vs[0] > 0
    ensures forall i :: 0 <= i < |vs| ==>
      CappedRetention(vs)[i] == MinOf(PercentOfFirst(vs)[..i + 1])
  {
    forall i | 0 <= i < |vs|
      ensures CappedRetention(vs)[i] == MinOf(PercentOfFirst(vs)[..i + 1])
    {
      CappedEntryIsPrefixMinimum(vs, i);
    }
  }

  /** The last entry of the capped series is the least percentage of the
      whole course. */
  lemma FinalIsLeastPercent(vs: seq<nat>)
    requires |vs| > 0 && vs[0] > 0
    ensures CappedRetention(vs)[|vs| - 1] == MinOf(PercentOfFirst(vs))
  {
    CappedEntryIsPrefixMinimum(vs, |vs| - 1);
    assert PercentOfFirst(vs)[..|vs|] == PercentOfFirst(vs);
  }

  /** The view counts never rise after any video. */
  ghost predicate NonRising(vs: seq<nat>) {
    forall i, j :: 0 <= i <= j < |vs| ==> vs[j] <= vs[i]
  }

  /** Without rising view counts, the cap leaves entry `i` as it is. */
  lemma CapInactiveAt(vs: seq<nat>, i: nat)
    requires i < |vs| && vs[0] > 0 && NonRising(vs)
    ensures CappedRetention(vs)[i] == PercentOfFirst(vs)[i]
  {
    var prefix := PercentOfFirst(vs)[..i + 1];
    CappedEntryIsPrefixMinimum(vs, i);
    var k :| 0 <= k < |prefix| && prefix[k] == MinOf(prefix);
    PercentMonotone(vs[i], vs[k], vs[0]);
  }

  /** If the cap changes nothing, the percentages never rise, so neither do
      the view counts. */
  lemma CapInactiveMeansNonRising(vs: seq<nat>)
    requires |vs| > 0 && vs[0] > 0
    requires CappedRetention(vs) == PercentOfFirst(vs)
    ensures NonRising(vs)
  {
    var p := PercentOfFirst(vs);
    forall i, j | 0 <= i <= j < |vs|
      ensures vs[j] <= vs[i]
    {
      assert p[j] <= p[i];
      PercentMonotone(vs[j], vs[i], vs[0]);
    }
  }

  /** The cap changes nothing exactly when views never rise after the
      baseline: the capped series equals the percentage series if and only
      if the view counts are non-increasing. */
  lemma CapInactiveIffNonRising(vs: seq<nat>)
    requires |vs| > 0 && vs[0] > 0
    ensures NonRising(vs) <==> CappedRetention(vs) == PercentOfFirst(vs)
  {
    if NonRising(vs) {
      forall i | 0 <= i < |vs|
        ensures CappedRetention(vs)[i] == PercentOfFirst(vs)[i]
      {
        CapInactiveAt(vs, i);
      }
    }
    if CappedRetention(vs) == PercentOfFirst(vs) {
      CapInactiveMeansNonRising(vs);
    }
  }

  /** A course whose every video has the baseline's view count retains 100
      percent throughout. */
  lemma FlatCourseRetainsAll(vs: seq<nat>)
    requires |vs| > 0 && vs[0] > 0
    requires forall i :: 0 <= i < |vs| ==> vs[i] == vs[0]
    ensures forall i :: 0 <= i < |vs| ==> CappedRetention(vs)[i] == 100.0
  {
    CapInactiveIffNonRising(vs);
  }
}
