/** Collecting the video links of a playlist page while scrolling it:
    every pass reads all `/watch?v=` links on the page, appends the links
    not seen before with consecutive positions, and the scrolling stops
    once a pass finds as many links as the pass before it. */
module Scroll {
  import opened Wrappers
  import opened Seqs
  import opened Courses
  import opened Browser

  /** A video as the scroll loop records it: only its link and position. */
  function Scraped(href: string, position: int): Video {
    Video(href, "", 0, position, "")
  }

  /** The loop's state inside one pass: the `seen` map as a set, the
      videos so far and the `position` counter. */
  datatype Scan = Scan(seen: set<string>, videos: seq<Video>, position: int)

  /** The videos hold distinct links numbered 1, 2, ... without gaps,
      `seen` holds exactly their links and `position` is the next number. */
  ghost predicate Consistent(st: Scan) {
    && Distinct(Urls(st.videos))
    && (forall k :: 0 <= k < |st.videos| ==> st.videos[k] == Scraped(st.videos[k].url, k + 1))
    && st.seen == Elements(Urls(st.videos))
    && st.position == |st.videos| + 1
  }

  /** Handles one link: a new link is marked seen and appended with the
      current position, which then advances; a seen link changes nothing. */
  function AddNode(st: Scan, href: string): (r: Scan)
    ensures href in r.seen
    ensures |st.videos| <= |r.videos| && r.videos[..|st.videos|] == st.videos
    ensures Consistent(st) ==> Consistent(r)
    ensures Consistent(st) ==> (r == st <==> href in Elements(Urls(st.videos)))
    ensures Consistent(st) && href !in st.seen ==>
              |r.videos| == |st.videos| + 1 && r.position == st.position + 1
  {
    if href in st.seen then st
    else
      var r := Scan(st.seen + {href}, st.videos + [Scraped(href, st.position)], st.position + 1);
      assert Urls(r.videos) == Urls(st.videos) + [href];
      assert r.videos[..|st.videos|] == st.videos;
      r
  }

  /** Handles the links of one pass in page order. */
  function AddNodes(st: Scan, hrefs: seq<string>): (r: Scan)
    ensures forall i :: 0 <= i < |hrefs| ==> hrefs[i] in r.seen
    ensures |st.videos| <= |r.videos| && r.videos[..|st.videos|] == st.videos
    ensures Consistent(st) ==> Consistent(r)
    decreases |hrefs|
  {
    if |hrefs| == 0 then st
    else
      var mid := AddNodes(st, hrefs[..|hrefs| - 1]);
      var r := AddNode(mid, hrefs[|hrefs| - 1]);
      assert r.videos[..|st.videos|] == mid.videos[..|st.videos|];
      assert forall i :: 0 <= i < |hrefs| - 1 ==> hrefs[i] == hrefs[..|hrefs| - 1][i];
      r
  }

  /** The scroll loop from some pass on, given the state the earlier passes
      left: `seen`, the collected videos and the previous pass's link count.
      A pass that finds as many links as the previous one ends the loop;
      running out of passes is the browser context expiring. */
  function ScrollLoop(passes: seq<Pass>, seen: set<string>, videos: seq<Video>, previousCount: int)
    : (r: Result<seq<Video>, string>)
    ensures r.Ok? ==> |videos| <= |r.value| && r.value[..|videos|] == videos
    ensures Consistent(Scan(seen, videos, |videos| + 1)) && r.Ok? ==>
              Consistent(Scan(Elements(Urls(r.value)), r.value, |r.value| + 1))
    decreases |passes|
  {
    if |passes| == 0 then Err(DeadlineExceeded)
    else match passes[0]
      case QueryFailed(e) => Err(e)
      case Pass(hrefs, scrollError) =>
        var st := AddNodes(Scan(seen, videos, |videos| + 1), hrefs);
        if |hrefs| == previousCount then Ok(st.videos)
        else if scrollError.Some? then Err(scrollError.value)
        else
          var r := ScrollLoop(passes[1..], st.seen, st.videos, |hrefs|);
          assert r.Ok? ==> r.value[..|videos|] == r.value[..|st.videos|][..|videos|];
          r
  }

  /** The scroll action of a playlist page, starting with no videos. On
      success the links are pairwise distinct and the k-th video (from 0)
      has position k + 1; every other field is left empty. */
  function ScrollPlaylistVideos(passes: seq<Pass>): (r: Result<seq<Video>, string>)
    ensures r.Ok? ==> Distinct(Urls(r.value))
    ensures r.Ok? ==> forall k :: 0 <= k < |r.value| ==> r.value[k].position == k + 1
    ensures r.Ok? ==> forall k :: 0 <= k < |r.value| ==>
              r.value[k].title == "" && r.value[k].viewCount == 0 && r.value[k].taxonomy == ""
  {
    assert Consistent(Scan({}, [], 1));
    var r := ScrollLoop(passes, {}, [], 0);
    assert r.Ok? ==> forall k :: 0 <= k < |r.value| ==> r.value[k] == Scraped(r.value[k].url, k + 1);
    r
  }

  // ---------------------------------------------------------------------
  // Reference: number the distinct links in order of first appearance
  // ---------------------------------------------------------------------

  /** Videos for `urls` numbered from 1 in order. */
  function Numbered(urls: seq<string>): (vs: seq<Video>)
    ensures |vs| == |urls|
    ensures Urls(vs) == urls
  {
    seq(|urls|, i requires 0 <= i < |urls| => Scraped(urls[i], i + 1))
  }

  /** The link count of the pass before pass `k` (0 before the first). */
  function PreviousCount(passes: seq<Pass>, k: nat): int
    requires k <= |passes|
  {
    if k == 0 || !passes[k - 1].Pass? then 0 else |passes[k - 1].hrefs|
  }

  /** Pass `k` succeeds and finds as many links as the pass before it. */
  ghost predicate StopsAt(passes: seq<Pass>, k: nat) {
    k < |passes| && passes[k].Pass? && |passes[k].hrefs| == PreviousCount(passes, k)
  }

  /** Passes `0..k-1` all succeed, none of them stops the loop and every
      scroll after them succeeds. */
  ghost predicate RunsThrough(passes: seq<Pass>, k: nat) {
    && k <= |passes|
    && (forall j :: 0 <= j < k ==> passes[j].Pass? && passes[j].scrollError.None?)
    && (forall j :: 0 <= j < k ==> !StopsAt(passes, j))
  }

  /** The state that numbers the distinct links of `xs`. */
  ghost function Numbering(xs: seq<string>): Scan {
    Scan(Elements(xs), Numbered(Unique(xs)), |Unique(xs)| + 1)
  }

  /** One link handled over the numbering of `xs` gives the numbering of
      `xs` followed by that link. */
  lemma AddNodeNumbersUnique(xs: seq<string>, h: string)
    ensures AddNode(Numbering(xs), h) == Numbering(xs + [h])
  {
    UniqueSnoc(xs, h);
    if h in xs {
      SeenLinkKeepsNumbering(xs, h);
    } else {
      NewLinkExtendsNumbering(xs, h);
    }
  }

  lemma SeenLinkKeepsNumbering(xs: seq<string>, h: string)
    requires h in xs
    ensures Numbering(xs + [h]) == Numbering(xs)
  {
    UniqueSnoc(xs, h);
    ElementsSnoc(xs, h);
  }

  lemma NewLinkExtendsNumbering(xs: seq<string>, h: string)
    requires h !in xs
    ensures Numbering(xs + [h]) ==
            Scan(Elements(xs) + {h}, Numbered(Unique(xs)) + [Scraped(h, |Unique(xs)| + 1)], |Unique(xs)| + 2)
  {
    UniqueSnoc(xs, h);
    NumberedSnoc(Unique(xs), h);
    ElementsSnoc(xs, h);
  }

  lemma NumberedSnoc(urls: seq<string>, h: string)
    ensures Numbered(urls + [h]) == Numbered(urls) + [Scraped(h, |urls| + 1)]
  {
  }

  /** One pass over the numbering of `xs` gives the numbering of `xs`
      followed by the pass's links. */
  lemma {:induction false} AddNodesNumbersUnique(xs: seq<string>, hrefs: seq<string>)
    ensures AddNodes(Numbering(xs), hrefs) == Numbering(xs + hrefs)
    decreases |hrefs|
  {
    if |hrefs| == 0 {
      assert xs + hrefs == xs;
    } else {
      AddNodesNumbersUnique(xs, hrefs[..|hrefs| - 1]);
      AddNodesNumbersStep(xs, hrefs);
    }
  }

  /** The step of the induction above: one more link after a pass prefix
      that already numbers correctly. */
  lemma AddNodesNumbersStep(xs: seq<string>, hrefs: seq<string>)
    requires |hrefs| > 0
    requires AddNodes(Numbering(xs), hrefs[..|hrefs| - 1]) == Numbering(xs + hrefs[..|hrefs| - 1])
    ensures AddNodes(Numbering(xs), hrefs) == Numbering(xs + hrefs)
  {
    AppendSplitLast(xs, hrefs);
    AddNodesUnfold(Numbering(xs), hrefs);
    AddNodeNumbersUnique(xs + hrefs[..|hrefs| - 1], hrefs[|hrefs| - 1]);
  }

  /** One turn of the pass loop: the last link after all the others. */
  lemma AddNodesUnfold(st: Scan, hrefs: seq<string>)
    requires |hrefs| > 0
    ensures AddNodes(st, hrefs) == AddNode(AddNodes(st, hrefs[..|hrefs| - 1]), hrefs[|hrefs| - 1])
  {
  }

  /** The loop resumed at pass `j`, with the state passes `0..j-1` leave,
      ends at the first stopping pass `k` with the distinct links of passes
      `0..k` numbered in order. */
  lemma {:induction false} ScrollLoopFrom(passes: seq<Pass>, j: nat, k: nat)
    requires j <= k < |passes|
    requires RunsThrough(passes, k) && StopsAt(passes, k)
    ensures ScrollLoop(passes[j..], Numbering(AllHrefs(passes[..j])).seen, Numbering(AllHrefs(passes[..j])).videos, PreviousCount(passes, j))
            == Ok(Numbering(AllHrefs(passes[..k + 1])).videos)
    decreases k - j
  {
    if j < k {
      assert passes[j].Pass? && passes[j].scrollError.None? && !StopsAt(passes, j);
      ScrollLoopStep(passes, j);
      ScrollLoopFrom(passes, j + 1, k);
    } else {
      ScrollLoopStop(passes, k);
    }
  }

  /** Pass `j`, before the stopping pass, hands the numbering of the links
      up to and including it to pass `j + 1`. */
  lemma ScrollLoopStep(passes: seq<Pass>, j: nat)
    requires j < |passes| && passes[j].Pass? && passes[j].scrollError.None?
    requires |passes[j].hrefs| != PreviousCount(passes, j)
    ensures ScrollLoop(passes[j..], Numbering(AllHrefs(passes[..j])).seen, Numbering(AllHrefs(passes[..j])).videos, PreviousCount(passes, j))
            == ScrollLoop(passes[j + 1..], Numbering(AllHrefs(passes[..j + 1])).seen, Numbering(AllHrefs(passes[..j + 1])).videos, PreviousCount(passes, j + 1))
  {
    var hrefs := passes[j].hrefs;
    var st := Numbering(AllHrefs(passes[..j]));
    var next := Numbering(AllHrefs(passes[..j + 1]));
    PassExtendsNumbering(passes, j);
    assert PreviousCount(passes, j + 1) == |hrefs|;
    assert passes[j..][1..] == passes[j + 1..];
    assert passes[j..][0] == Pass(hrefs, None);
    ResumeAfterPass(passes[j..], st.seen, st.videos, PreviousCount(passes, j), hrefs, next);
  }

  /** The stopping pass `k` returns the numbering of the links of passes
      `0..k`. */
  lemma ScrollLoopStop(passes: seq<Pass>, k: nat)
    requires k < |passes| && StopsAt(passes, k)
    ensures ScrollLoop(passes[k..], Numbering(AllHrefs(passes[..k])).seen, Numbering(AllHrefs(passes[..k])).videos, PreviousCount(passes, k))
            == Ok(Numbering(AllHrefs(passes[..k + 1])).videos)
  {
    var st := Numbering(AllHrefs(passes[..k]));
    assert passes[k..][0] == passes[k];
    PassExtendsNumbering(passes, k);
    StopAtPass(passes[k..], st.seen, st.videos, PreviousCount(passes, k));
  }

  /** A successful pass `j` over the numbering of the links before it
      gives the numbering of the links up to and including it. */
  lemma PassExtendsNumbering(passes: seq<Pass>, j: nat)
    requires j < |passes| && passes[j].Pass?
    ensures var st := Numbering(AllHrefs(passes[..j]));
            AddNodes(Scan(st.seen, st.videos, |st.videos| + 1), passes[j].hrefs) == Numbering(AllHrefs(passes[..j + 1]))
  {
    var xs := AllHrefs(passes[..j]);
    AddNodesNumbersUnique(xs, passes[j].hrefs);
    PassesPrefixSnoc(passes, j);
  }

  /** A pass that stops the loop returns the videos after that pass. */
  lemma StopAtPass(passes: seq<Pass>, seen: set<string>, videos: seq<Video>, previousCount: int)
    requires |passes| > 0 && passes[0].Pass? && |passes[0].hrefs| == previousCount
    ensures ScrollLoop(passes, seen, videos, previousCount) ==
            Ok(AddNodes(Scan(seen, videos, |videos| + 1), passes[0].hrefs).videos)
  {
  }

  /** A pass that does not stop the loop, followed by a good scroll, hands
      its state and its link count to the next pass. */
  lemma ResumeAfterPass(passes: seq<Pass>, seen: set<string>, videos: seq<Video>, previousCount: int,
                        hrefs: seq<string>, next: Scan)
    requires |passes| > 0 && passes[0] == Pass(hrefs, None)
    requires |hrefs| != previousCount
    requires next == AddNodes(Scan(seen, videos, |videos| + 1), hrefs)
    ensures ScrollLoop(passes, seen, videos, previousCount) == ScrollLoop(passes[1..], next.seen, next.videos, |hrefs|)
  {
  }

  /** The whole scroll: if pass `k` is the first to stop the loop, the
      result numbers the distinct links of passes `0..k` from 1 in order
      of first appearance. */
  lemma ScrollStopsAtFirstRepeat(passes: seq<Pass>, k: nat)
    requires k < |passes|
    requires RunsThrough(passes, k) && StopsAt(passes, k)
    ensures ScrollPlaylistVideos(passes) == Ok(Numbered(Unique(AllHrefs(passes[..k + 1]))))
  {
    ScrollLoopFrom(passes, 0, k);
    assert passes[..0] == [];
    assert passes[0..] == passes;
    assert Elements(AllHrefs(passes[..0])) == {};
  }

  /** Hence every link of the processed passes appears exactly once. */
  lemma ScrollCollectsEachLinkOnce(passes: seq<Pass>, k: nat, href: string)
    requires k < |passes|
    requires RunsThrough(passes, k) && StopsAt(passes, k)
    requires href in AllHrefs(passes[..k + 1])
    ensures ScrollPlaylistVideos(passes).Ok?
    ensures exists i :: 0 <= i < |ScrollPlaylistVideos(passes).value| && ScrollPlaylistVideos(passes).value[i].url == href
  {
    ScrollStopsAtFirstRepeat(passes, k);
    var u := Unique(AllHrefs(passes[..k + 1]));
    var i :| 0 <= i < |AllHrefs(passes[..k + 1])| && AllHrefs(passes[..k + 1])[i] == href;
    assert href in u;
    var j :| 0 <= j < |u| && u[j] == href;
    assert Numbered(u)[j].url == href;
  }

  /** If no pass ever stops the loop, the browser context expires and the
      scroll fails. */
  lemma {:induction false} ScrollNeverStops(passes: seq<Pass>, seen: set<string>, videos: seq<Video>, previousCount: int)
    requires forall j :: 0 <= j < |passes| ==> passes[j].Pass? && passes[j].scrollError.None?
    requires |passes| > 0 ==> |passes[0].hrefs| != previousCount
    requires forall j :: 0 < j < |passes| ==> |passes[j].hrefs| != |passes[j - 1].hrefs|
    ensures ScrollLoop(passes, seen, videos, previousCount) == Err(DeadlineExceeded)
    decreases |passes|
  {
    if |passes| > 0 {
      var st := AddNodes(Scan(seen, videos, |videos| + 1), passes[0].hrefs);
      ScrollNeverStops(passes[1..], st.seen, st.videos, |passes[0].hrefs|);
    }
  }

  /** The loop as written: a first pass that finds no link at all ends the
      scroll at once with no videos, because the count before the first
      pass is 0. (A browser query that waits for a match never returns
      such a pass; see `NonEmptyFirstPassCollects`.) */
  lemma EmptyFirstPassStops(passes: seq<Pass>)
    requires |passes| > 0 && passes[0].Pass? && |passes[0].hrefs| == 0
    ensures ScrollPlaylistVideos(passes) == Ok([])
  {
  }

  /** A first pass that finds at least one link, as a waiting browser query
      always does, makes a successful scroll collect at least one video. */
  lemma NonEmptyFirstPassCollects(passes: seq<Pass>)
    requires |passes| > 0 && passes[0].Pass? && |passes[0].hrefs| > 0
    ensures ScrollPlaylistVideos(passes).Ok? ==> |ScrollPlaylistVideos(passes).value| > 0
  {
  }
}
