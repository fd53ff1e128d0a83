/** Collecting the course playlist links from the channel's courses page:
    every pass reads the links whose `href` holds `/playlist?list=`, keeps
    the ones not seen before, and the scrolling stops after the first pass
    that finds nothing new. The result is every seen link, sorted. */
module Playlists {
  import opened Wrappers
  import opened Seqs
  import opened Text
  import opened Browser

  /** The text that marks a playlist link. */
  const PlaylistMarker: string := "/playlist?list="

  /** The filter applied to every link before it is counted. */
  predicate IsPlaylistHref(href: string) {
    Contains(href, PlaylistMarker)
  }

  /** The loop's state: the `seen` map as a set, the links appended so far
      and whether the current pass found a new link. */
  datatype Harvest = Harvest(seen: set<string>, found: seq<string>, grew: bool)

  /** `found` lists `seen` without repeats, and every link in it is a
      playlist link. */
  ghost predicate Consistent(h: Harvest) {
    && Distinct(h.found)
    && h.seen == Elements(h.found)
    && (forall i :: 0 <= i < |h.found| ==> IsPlaylistHref(h.found[i]))
  }

  /** Handles one link: a playlist link not seen before is recorded and
      marks the pass as grew; anything else changes nothing. */
  function AddHref(h: Harvest, href: string): (r: Harvest)
    ensures IsPlaylistHref(href) ==> href in r.seen
    ensures r.grew <==> h.grew || (IsPlaylistHref(href) && href !in h.seen)
    ensures Consistent(h) ==> Consistent(r)
  {
    if IsPlaylistHref(href) && href !in h.seen then
      var r := Harvest(h.seen + {href}, h.found + [href], true);
      ElementsSnoc(h.found, href);
      r
    else h
  }

  /** Handles the links of one pass in page order. */
  function CollectPass(h: Harvest, hrefs: seq<string>): (r: Harvest)
    ensures Consistent(h) ==> Consistent(r)
    ensures h.grew ==> r.grew
    decreases |hrefs|
  {
    if |hrefs| == 0 then h
    else AddHref(CollectPass(h, hrefs[..|hrefs| - 1]), hrefs[|hrefs| - 1])
  }

  /** The scroll loop from some pass on. It ends after the first pass that
      finds no new playlist link; running out of passes is the browser
      context expiring. On success it returns the links in order of first
      appearance. */
  function ExtractLoop(passes: seq<Pass>, seen: set<string>, found: seq<string>): (r: Result<seq<string>, string>)
    ensures Consistent(Harvest(seen, found, false)) && r.Ok? ==> Consistent(Harvest(Elements(r.value), r.value, false))
    decreases |passes|
  {
    if |passes| == 0 then Err(DeadlineExceeded)
    else match passes[0]
      case QueryFailed(e) => Err(e)
      case Pass(hrefs, scrollError) =>
        var h := CollectPass(Harvest(seen, found, false), hrefs);
        if !h.grew then Ok(h.found)
        else if scrollError.Some? then Err(scrollError.value)
        else ExtractLoop(passes[1..], h.seen, h.found)
  }

  // ---------------------------------------------------------------------
  // Sorting with Go's string order
  // ---------------------------------------------------------------------

  /** Inserts `x` into a sequence, before the first element greater than it. */
  function InsertString(x: string, s: seq<string>): (r: seq<string>)
    ensures multiset(r) == multiset(s) + multiset{x}
    ensures |r| == |s| + 1
    decreases |s|
  {
    if |s| == 0 || StrLess(x, s[0]) then [x] + s
    else
      assert s == [s[0]] + s[1..];
      [s[0]] + InsertString(x, s[1..])
  }

  /** `sort.Slice` with `a < b`: the links in ascending order. Any order of
      the map's keys gives the same result (see `AscendingIsUnique`). */
  function SortStrings(s: seq<string>): (r: seq<string>)
    ensures multiset(r) == multiset(s)
    ensures |r| == |s|
    decreases |s|
  {
    if |s| == 0 then []
    else
      assert s == s[..|s| - 1] + [s[|s| - 1]];
      InsertString(s[|s| - 1], SortStrings(s[..|s| - 1]))
  }

  /** Sorting keeps the set of links. */
  lemma SortStringsElements(s: seq<string>)
    ensures Elements(SortStrings(s)) == Elements(s)
  {
    var r := SortStrings(s);
    assert forall x :: x in r <==> x in multiset(r);
    assert forall x :: x in s <==> x in multiset(s);
  }

  lemma {:induction false} InsertStringAscending(x: string, s: seq<string>)
    requires StrictlyAscending(s) && x !in s
    ensures StrictlyAscending(InsertString(x, s))
    decreases |s|
  {
    if |s| > 0 {
      if StrLess(x, s[0]) {
        forall j | 0 < j < |s| ensures StrLess(x, s[j]) {
          StrLessTransitive(x, s[0], s[j]);
        }
        assert forall i :: 0 < i < |[x] + s| ==> ([x] + s)[i] == s[i - 1];
      } else {
        StrLessTotal(x, s[0]);
        assert StrictlyAscending(s[1..]);
        InsertStringAscending(x, s[1..]);
        var t := InsertString(x, s[1..]);
        assert forall i :: 0 <= i < |t| ==> t[i] in multiset(s[1..]) + multiset{x};
        forall i | 0 <= i < |t| ensures StrLess(s[0], t[i]) {
          assert t[i] in multiset(s[1..]) + multiset{x};
          if t[i] != x {
            assert t[i] in s[1..];
          }
        }
      }
    }
  }

  /** Sorting distinct links gives a strictly ascending sequence. */
  lemma {:induction false} SortStringsAscending(s: seq<string>)
    requires Distinct(s)
    ensures StrictlyAscending(SortStrings(s))
    decreases |s|
  {
    if |s| > 0 {
      var init := s[..|s| - 1];
      assert Distinct(init);
      SortStringsAscending(init);
      assert s[|s| - 1] !in multiset(init);
      InsertStringAscending(s[|s| - 1], SortStrings(init));
    }
  }

  /** Two strictly ascending sequences with the same elements are equal:
      the sorted result does not depend on the order the keys came in. */
  lemma {:induction false} AscendingIsUnique(a: seq<string>, b: seq<string>)
    requires StrictlyAscending(a) && StrictlyAscending(b)
    requires Elements(a) == Elements(b)
    ensures a == b
    decreases |a|
  {
    if |a| > 0 {
      assert a[0] in Elements(a);
    }
    if |b| > 0 {
      assert b[0] in Elements(b);
    }
    if |a| > 0 && |b| > 0 {
      if a[0] != b[0] {
        assert a[0] in Elements(b) && b[0] in Elements(a);
        var i :| 0 <= i < |b| && b[i] == a[0];
        var j :| 0 <= j < |a| && a[j] == b[0];
        assert StrLess(b[0], a[0]) by {
          if i == 0 { assert false; }
        }
        assert StrLess(a[0], b[0]) by {
          if j == 0 { assert false; }
        }
        StrLessAsymmetric(a[0], b[0]);
      }
      assert StrictlyAscending(a[1..]) && StrictlyAscending(b[1..]);
      forall x | x in a[1..] ensures x in b[1..] {
        var k :| 1 <= k < |a| && a[k] == x;
        StrLessIrreflexive(a[0]);
        assert x in Elements(b);
        var m :| 0 <= m < |b| && b[m] == x;
        if m == 0 {
          assert false;
        }
      }
      forall x | x in b[1..] ensures x in a[1..] {
        var k :| 1 <= k < |b| && b[k] == x;
        StrLessIrreflexive(b[0]);
        assert x in Elements(a);
        var m :| 0 <= m < |a| && a[m] == x;
        if m == 0 {
          assert false;
        }
      }
      assert Elements(a[1..]) == Elements(b[1..]);
      AscendingIsUnique(a[1..], b[1..]);
      assert a == [a[0]] + a[1..] && b == [b[0]] + b[1..];
    }
  }

  /** `extractPlaylistURLs`: the seen links, sorted. On success every link
      is a playlist link and the links are strictly ascending, so none
      repeats. */
  function ExtractPlaylistUrls(passes: seq<Pass>): (r: Result<seq<string>, string>)
    ensures r.Ok? ==> StrictlyAscending(r.value)
    ensures r.Ok? ==> forall i :: 0 <= i < |r.value| ==> IsPlaylistHref(r.value[i])
  {
    match ExtractLoop(passes, {}, [])
    case Err(e) => Err(e)
    case Ok(found) =>
      assert Consistent(Harvest({}, [], false));
      SortStringsAscending(found);
      var sorted := SortStrings(found);
      assert forall i :: 0 <= i < |sorted| ==> sorted[i] in multiset(found);
      Ok(sorted)
  }

  /** `GetPlaylistURLs`: a failure of the page load or of the extraction is
      reported with a fixed prefix. */
  function GetPlaylistUrls(navigationError: Option<string>, passes: seq<Pass>): (r: Result<seq<string>, string>)
    ensures navigationError.Some? ==> r == Err("failed to scrape page: " + navigationError.value)
    ensures navigationError.None? && ExtractPlaylistUrls(passes).Err? ==>
              r == Err("failed to scrape page: " + ExtractPlaylistUrls(passes).error)
    ensures r.Ok? <==> navigationError.None? && ExtractPlaylistUrls(passes).Ok?
    ensures r.Ok? ==> r.value == ExtractPlaylistUrls(passes).value
  {
    if navigationError.Some? then Err("failed to scrape page: " + navigationError.value)
    else match ExtractPlaylistUrls(passes)
      case Err(e) => Err("failed to scrape page: " + e)
      case Ok(urls) => Ok(urls)
  }

  // ---------------------------------------------------------------------
  // Reference: the sorted set of distinct playlist links seen
  // ---------------------------------------------------------------------

  /** The distinct playlist links of `xs` in order of first appearance. */
  function Harvested(xs: seq<string>): seq<string> {
    Unique(Filter(xs, IsPlaylistHref))
  }

  /** The state after handling the links `xs`. */
  ghost function Tracking(xs: seq<string>, grew: bool): Harvest {
    Harvest(Elements(Harvested(xs)), Harvested(xs), grew)
  }

  /** Some playlist link of `hrefs` is not among `xs`. */
  ghost predicate NewIn(xs: seq<string>, hrefs: seq<string>) {
    exists i :: 0 <= i < |hrefs| && IsPlaylistHref(hrefs[i]) && hrefs[i] !in xs
  }

  lemma HarvestedSnoc(xs: seq<string>, href: string)
    ensures Harvested(xs + [href]) ==
            if IsPlaylistHref(href) && href !in xs then Harvested(xs) + [href] else Harvested(xs)
  {
    FilterSnoc(xs, href, IsPlaylistHref);
    var f := Filter(xs, IsPlaylistHref);
    if IsPlaylistHref(href) {
      assert Filter(xs + [href], IsPlaylistHref) == f + [href];
      UniqueSnoc(f, href);
      assert href in f <==> href in xs by {
        if href in xs {
          var i :| 0 <= i < |xs| && xs[i] == href;
          assert href in f;
        }
        if href in f {
          var k :| 0 <= k < |f| && f[k] == href;
          assert href in xs;
        }
      }
    } else {
      assert Filter(xs + [href], IsPlaylistHref) == f;
    }
  }

  /** Handling one link over the state for `xs` gives the state for `xs`
      followed by it. */
  lemma AddHrefTracks(xs: seq<string>, href: string, grew: bool)
    ensures AddHref(Tracking(xs, grew), href) ==
            Tracking(xs + [href], grew || (IsPlaylistHref(href) && href !in xs))
  {
    HarvestedSnoc(xs, href);
    var u := Harvested(xs);
    if IsPlaylistHref(href) {
      assert href in Elements(u) <==> href in xs;
      if href !in xs {
        ElementsSnoc(u, href);
      }
    }
  }

  lemma NewInSnoc(xs: seq<string>, init: seq<string>, h: string)
    ensures NewIn(xs, init + [h]) <==> NewIn(xs, init) || (IsPlaylistHref(h) && h !in xs)
  {
    var hrefs := init + [h];
    if NewIn(xs, hrefs) {
      var i :| 0 <= i < |hrefs| && IsPlaylistHref(hrefs[i]) && hrefs[i] !in xs;
      if i < |init| {
        assert init[i] == hrefs[i];
      }
    }
    if NewIn(xs, init) {
      var i :| 0 <= i < |init| && IsPlaylistHref(init[i]) && init[i] !in xs;
      assert hrefs[i] == init[i];
    }
    if IsPlaylistHref(h) && h !in xs {
      assert hrefs[|init|] == h;
    }
  }

  /** One pass over the state for `xs` gives the state for `xs` followed by
      the pass, and the pass counts as fresh exactly when it holds a
      playlist link outside `xs`. */
  lemma {:induction false} CollectPassTracks(xs: seq<string>, hrefs: seq<string>, grew: bool)
    ensures CollectPass(Tracking(xs, grew), hrefs) == Tracking(xs + hrefs, grew || NewIn(xs, hrefs))
    decreases |hrefs|
  {
    if |hrefs| == 0 {
      assert xs + hrefs == xs;
    } else {
      var init := hrefs[..|hrefs| - 1];
      assert hrefs == init + [hrefs[|hrefs| - 1]];
      CollectPassTracks(xs, init, grew);
      CollectPassStep(xs, init, hrefs[|hrefs| - 1], grew);
    }
  }

  /** The step of the induction above. */
  lemma CollectPassStep(xs: seq<string>, init: seq<string>, h: string, grew: bool)
    requires CollectPass(Tracking(xs, grew), init) == Tracking(xs + init, grew || NewIn(xs, init))
    ensures CollectPass(Tracking(xs, grew), init + [h]) ==
            Tracking(xs + (init + [h]), grew || NewIn(xs, init + [h]))
  {
    var before := grew || NewIn(xs, init);
    CollectPassUnfold(Tracking(xs, grew), init, h);
    AddHrefTracks(xs + init, h, before);
    assert xs + (init + [h]) == (xs + init) + [h];
    NewInExtend(xs, init, h);
  }

  /** One turn of the pass loop: the last link after all the others. */
  lemma CollectPassUnfold(st: Harvest, init: seq<string>, h: string)
    ensures CollectPass(st, init + [h]) == AddHref(CollectPass(st, init), h)
  {
    assert (init + [h])[..|init|] == init;
  }

  /** The last link of a pass counts as new exactly when it is neither
      among `xs` nor earlier in the pass. */
  lemma NewInExtend(xs: seq<string>, init: seq<string>, h: string)
    ensures NewIn(xs, init + [h]) <==> NewIn(xs, init) || (IsPlaylistHref(h) && h !in xs + init)
  {
    NewInSnoc(xs, init, h);
    if IsPlaylistHref(h) && h !in xs && h in xs + init {
      var i :| 0 <= i < |xs + init| && (xs + init)[i] == h;
      assert init[i - |xs|] == h;
    }
  }

  /** Pass `k` succeeds and finds no playlist link outside the earlier passes. */
  ghost predicate StopsAt(passes: seq<Pass>, k: nat) {
    k < |passes| && passes[k].Pass? && !NewIn(AllHrefs(passes[..k]), passes[k].hrefs)
  }

  /** Passes `0..k-1` all succeed, each finds a new playlist link, and every
      scroll after them succeeds. */
  ghost predicate RunsThrough(passes: seq<Pass>, k: nat) {
    && k <= |passes|
    && (forall j :: 0 <= j < k ==> passes[j].Pass? && passes[j].scrollError.None?)
    && (forall j :: 0 <= j < k ==> !StopsAt(passes, j))
  }

  /** A pass with nothing new ends the loop with the links found so far. */
  lemma StaleStops(passes: seq<Pass>, seen: set<string>, found: seq<string>, hrefs: seq<string>, after: Harvest)
    requires |passes| > 0 && passes[0].Pass? && passes[0].hrefs == hrefs
    requires after == CollectPass(Harvest(seen, found, false), hrefs) && !after.grew
    ensures ExtractLoop(passes, seen, found) == Ok(after.found)
  {
  }

  /** A pass with something new, followed by a good scroll, hands its state
      to the next pass. */
  lemma FreshResumes(passes: seq<Pass>, seen: set<string>, found: seq<string>, hrefs: seq<string>, after: Harvest)
    requires |passes| > 0 && passes[0] == Pass(hrefs, None)
    requires after == CollectPass(Harvest(seen, found, false), hrefs) && after.grew
    ensures ExtractLoop(passes, seen, found) == ExtractLoop(passes[1..], after.seen, after.found)
  {
  }

  /** The loop resumed at pass `j`, with the state passes `0..j-1` leave,
      ends at the first stale pass `k` with the distinct playlist links of
      passes `0..k` in order of first appearance. */
  lemma {:induction false} ExtractLoopFrom(passes: seq<Pass>, j: nat, k: nat)
    requires j <= k < |passes|
    requires RunsThrough(passes, k) && StopsAt(passes, k)
    ensures ExtractLoop(passes[j..], Tracking(AllHrefs(passes[..j]), false).seen, Tracking(AllHrefs(passes[..j]), false).found)
            == Ok(Harvested(AllHrefs(passes[..k + 1])))
    decreases k - j
  {
    assert passes[j].Pass?;
    var xs := AllHrefs(passes[..j]);
    var hrefs := passes[j].hrefs;
    var st := Tracking(xs, false);
    var grew := NewIn(xs, hrefs);
    var after := Tracking(AllHrefs(passes[..j + 1]), grew);
    assert passes[j..][0] == passes[j];
    assert after == CollectPass(Harvest(st.seen, st.found, false), hrefs) by {
      CollectPassTracks(xs, hrefs, false);
      PassesPrefixSnoc(passes, j);
    }
    if j < k {
      assert passes[j].scrollError.None? && !StopsAt(passes, j);
      assert passes[j..][1..] == passes[j + 1..];
      assert passes[j..][0] == Pass(hrefs, None);
      FreshResumes(passes[j..], st.seen, st.found, hrefs, after);
      ExtractLoopFrom(passes, j + 1, k);
    } else {
      StaleStops(passes[j..], st.seen, st.found, hrefs, after);
    }
  }

  /** The whole extraction: if pass `k` is the first with nothing new, the
      result is the distinct playlist links of passes `0..k`, sorted. */
  lemma ExtractStopsAtFirstStale(passes: seq<Pass>, k: nat)
    requires k < |passes|
    requires RunsThrough(passes, k) && StopsAt(passes, k)
    ensures ExtractPlaylistUrls(passes) == Ok(SortStrings(Harvested(AllHrefs(passes[..k + 1]))))
  {
    ExtractLoopFrom(passes, 0, k);
    assert passes[..0] == [];
    assert passes[0..] == passes;
    assert Elements<string>([]) == {};
  }

  /** So the result is the one strictly ascending sequence holding exactly
      the playlist links of passes `0..k`. */
  lemma ExtractIsSortedSeenSet(passes: seq<Pass>, k: nat, t: seq<string>)
    requires k < |passes|
    requires RunsThrough(passes, k) && StopsAt(passes, k)
    requires StrictlyAscending(t)
    requires Elements(t) == Elements(Filter(AllHrefs(passes[..k + 1]), IsPlaylistHref))
    ensures ExtractPlaylistUrls(passes) == Ok(t)
  {
    ExtractStopsAtFirstStale(passes, k);
    var f := Filter(AllHrefs(passes[..k + 1]), IsPlaylistHref);
    var r := SortStrings(Unique(f));
    SortStringsAscending(Unique(f));
    SortStringsElements(Unique(f));
    UniqueElements(f);
    AscendingIsUnique(r, t);
  }

  /** If every pass finds something new and scrolls on, the loop resumed
      at pass `j` runs out of passes and the browser context expires. */
  lemma {:induction false} ExtractLoopExpires(passes: seq<Pass>, j: nat)
    requires j <= |passes| && RunsThrough(passes, |passes|)
    ensures ExtractLoop(passes[j..], Tracking(AllHrefs(passes[..j]), false).seen, Tracking(AllHrefs(passes[..j]), false).found)
            == Err(DeadlineExceeded)
    decreases |passes| - j
  {
    if j < |passes| {
      assert passes[j].Pass? && passes[j].scrollError.None? && !StopsAt(passes, j);
      var xs := AllHrefs(passes[..j]);
      var hrefs := passes[j].hrefs;
      var st := Tracking(xs, false);
      var after := Tracking(AllHrefs(passes[..j + 1]), NewIn(xs, hrefs));
      assert after == CollectPass(Harvest(st.seen, st.found, false), hrefs) by {
        CollectPassTracks(xs, hrefs, false);
        PassesPrefixSnoc(passes, j);
      }
      assert passes[j..][1..] == passes[j + 1..];
      assert passes[j..][0] == Pass(hrefs, None);
      FreshResumes(passes[j..], st.seen, st.found, hrefs, after);
      ExtractLoopExpires(passes, j + 1);
    } else {
      assert passes[j..] == [];
    }
  }

  /** If every pass finds something new, the extraction fails once the
      browser context expires. */
  lemma ExtractNeverStale(passes: seq<Pass>)
    requires RunsThrough(passes, |passes|)
    ensures ExtractPlaylistUrls(passes) == Err(DeadlineExceeded)
  {
    ExtractLoopExpires(passes, 0);
    assert passes[..0] == [];
    assert passes[0..] == passes;
    assert Elements<string>([]) == {};
  }
}
