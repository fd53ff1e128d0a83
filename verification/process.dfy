/** Processing one course playlist and all of them: the positional merge of
    scraped positions into the extracted videos, the retry policy for rate
    limiting, and the collection of the per-playlist results. */
module Process {
  import opened Wrappers
  import opened Text
  import opened Courses
  import opened Browser
  import opened Scroll
  import opened Playlists

  // ---------------------------------------------------------------------
  // One playlist
  // ---------------------------------------------------------------------

  /** `processCoursePlaylist`'s final step: the course gets the playlist's
      URL, and the i-th extracted video gets the position of the i-th
      scraped link. Titles, URLs, view counts and taxonomies are kept. The
      Go code indexes the scraped videos by the extracted videos' indices,
      so more extracted than scraped videos is an index-out-of-range fault. */
  function MergePositions(info: Course, playlistUrl: string, videos: seq<Video>): (r: Course)
    requires |info.videos| <= |videos|
    ensures r.url == playlistUrl && r.title == info.title
    ensures |r.videos| == |info.videos|
    ensures forall i :: 0 <= i < |r.videos| ==> r.videos[i].position == videos[i].position
    ensures forall i :: 0 <= i < |r.videos| ==>
              && r.videos[i].url == info.videos[i].url
              && r.videos[i].title == info.videos[i].title
              && r.videos[i].viewCount == info.videos[i].viewCount
              && r.videos[i].taxonomy == info.videos[i].taxonomy
  {
    var merged := seq(|info.videos|, i requires 0 <= i < |info.videos| => info.videos[i].(position := videos[i].position));
    info.(url := playlistUrl, videos := merged)
  }

  /** Merged with what the scroll collected, the videos are numbered
      1, 2, ... in order, whatever positions the extraction reported. */
  lemma MergeNumbersVideos(info: Course, playlistUrl: string, passes: seq<Pass>)
    requires ScrollPlaylistVideos(passes).Ok?
    requires |info.videos| <= |ScrollPlaylistVideos(passes).value|
    ensures forall i :: 0 <= i < |info.videos| ==>
              MergePositions(info, playlistUrl, ScrollPlaylistVideos(passes).value).videos[i].position == i + 1
  {
  }

  /** What one call of `processCoursePlaylist` gets from outside: whether
      loading the page fails, the passes of the scroll, and the course the
      language model extracted from the page (or its failure). */
  datatype Attempt = Attempt(navigationError: Option<string>, passes: seq<Pass>, extracted: Result<Course, string>)

  /** The browser part of the call: load the page, then scroll it. */
  function BrowserRun(a: Attempt): (r: Result<seq<Video>, string>)
    ensures a.navigationError.Some? ==> r == Err(a.navigationError.value)
    ensures a.navigationError.None? ==> r == ScrollPlaylistVideos(a.passes)
  {
    if a.navigationError.Some? then Err(a.navigationError.value) else ScrollPlaylistVideos(a.passes)
  }

  /** The merge of this attempt, if it comes to it, stays within the
      scraped videos. */
  predicate Fits(a: Attempt) {
    BrowserRun(a).Ok? && a.extracted.Ok? ==> |a.extracted.value.videos| <= |BrowserRun(a).value|
  }

  /** `processCoursePlaylist`: a browser failure or an extraction failure is
      returned unchanged; otherwise the merged course. */
  function ProcessPlaylist(playlistUrl: string, a: Attempt): (r: Result<Course, string>)
    requires Fits(a)
    ensures BrowserRun(a).Err? ==> r == Err(BrowserRun(a).error)
    ensures BrowserRun(a).Ok? && a.extracted.Err? ==> r == Err(a.extracted.error)
    ensures r.Ok? <==> BrowserRun(a).Ok? && a.extracted.Ok?
    ensures r.Ok? ==> r.value.url == playlistUrl && r.value.title == a.extracted.value.title
    ensures r.Ok? ==> forall i :: 0 <= i < |r.value.videos| ==> r.value.videos[i].position == i + 1
  {
    match BrowserRun(a)
    case Err(e) => Err(e)
    case Ok(videos) =>
      match a.extracted
      case Err(e) => Err(e)
      case Ok(info) => Ok(MergePositions(info, playlistUrl, videos))
  }

  // ---------------------------------------------------------------------
  // Retrying on rate limits
  // ---------------------------------------------------------------------

  /** At most this many calls per playlist. */
  const MaxRetries: nat := 3

  /** The seconds slept before retry number `retry` (counting from 1). */
  function Backoff(retry: nat): nat {
    retry * 4
  }

  /** An error that reports rate limiting. */
  predicate IsRateLimited(e: string) {
    Contains(e, "429")
  }

  /** Whether an outcome asks for another try. */
  predicate Retryable<T>(o: Result<T, string>) {
    o.Err? && IsRateLimited(o.error)
  }

  /** What the retry loop ends with: the last call's outcome, the number of
      calls made and the sleeps between them, in seconds. */
  datatype RetryRun<T> = RetryRun(result: Result<T, string>, attempts: nat, waits: seq<nat>)

  /** The retry loop from the call after `retries` retries on: a
      rate-limit error while a retry is left sleeps and tries again;
      anything else ends the loop with that outcome. */
  function RetryFrom<T>(outcomes: seq<Result<T, string>>, retries: nat, waits: seq<nat>): (r: RetryRun<T>)
    requires retries < MaxRetries <= |outcomes|
    ensures retries < r.attempts <= MaxRetries
    ensures r.result == outcomes[r.attempts - 1]
    ensures |r.waits| == |waits| + r.attempts - 1 - retries && r.waits[..|waits|] == waits
    ensures forall i :: |waits| <= i < |r.waits| ==> r.waits[i] == Backoff(retries + 1 + i - |waits|)
    ensures forall k :: retries <= k < r.attempts - 1 ==> Retryable(outcomes[k])
    ensures r.attempts < MaxRetries ==> !Retryable(r.result)
    decreases MaxRetries - retries
  {
    var o := outcomes[retries];
    if Retryable(o) && retries < MaxRetries - 1 then
      var r := RetryFrom(outcomes, retries + 1, waits + [Backoff(retries + 1)]);
      assert r.waits[..|waits|] == r.waits[..|waits| + 1][..|waits|];
      r
    else RetryRun(o, retries + 1, waits)
  }

  /** The retry loop of one playlist, given what each successive call would
      return: at most three calls, one more only after a rate-limit error,
      sleeping 4 s and then 8 s before the retries. */
  function Retry<T>(outcomes: seq<Result<T, string>>): (r: RetryRun<T>)
    requires MaxRetries <= |outcomes|
    ensures 1 <= r.attempts <= MaxRetries
    ensures r.result == outcomes[r.attempts - 1]
    ensures |r.waits| == r.attempts - 1
    ensures forall i :: 0 <= i < |r.waits| ==> r.waits[i] == Backoff(i + 1)
    ensures forall k :: 0 <= k < r.attempts - 1 ==> Retryable(outcomes[k])
    ensures r.attempts < MaxRetries ==> !Retryable(r.result)
  {
    RetryFrom(outcomes, 0, [])
  }

  /** The number of rate-limit errors the outcomes start with. */
  function LeadingRateLimits<T>(outcomes: seq<Result<T, string>>): nat
    decreases |outcomes|
  {
    if |outcomes| > 0 && Retryable(outcomes[0]) then 1 + LeadingRateLimits(outcomes[1..]) else 0
  }

  lemma {:induction false} LeadingRateLimitsFrom<T>(outcomes: seq<Result<T, string>>, k: nat)
    requires k <= |outcomes|
    requires forall i :: 0 <= i < k ==> Retryable(outcomes[i])
    ensures LeadingRateLimits(outcomes) == k + LeadingRateLimits(outcomes[k..])
    decreases k
  {
    if k > 0 {
      LeadingRateLimitsFrom(outcomes[1..], k - 1);
      assert outcomes[1..][k - 1..] == outcomes[k..];
    } else {
      assert outcomes[0..] == outcomes;
    }
  }

  /** The number of calls is one more than the leading rate-limit errors,
      but never more than three. */
  lemma RetryCountsRateLimits<T>(outcomes: seq<Result<T, string>>)
    requires MaxRetries <= |outcomes|
    ensures Retry(outcomes).attempts == if LeadingRateLimits(outcomes) < MaxRetries then LeadingRateLimits(outcomes) + 1 else MaxRetries
  {
    var r := Retry(outcomes);
    LeadingRateLimitsFrom(outcomes, r.attempts - 1);
    var rest := outcomes[r.attempts - 1..];
    assert rest[0] == r.result;
  }

  /** A success or any other error on the first call ends the loop at once. */
  lemma NoRetryWithoutRateLimit<T>(outcomes: seq<Result<T, string>>)
    requires MaxRetries <= |outcomes| && !Retryable(outcomes[0])
    ensures Retry(outcomes) == RetryRun(outcomes[0], 1, [])
  {
  }

  /** Three rate-limit errors in a row: three calls, 4 s and 8 s of sleep,
      and the third error is what the playlist ends with. */
  lemma RateLimitedThrice<T>(outcomes: seq<Result<T, string>>)
    requires MaxRetries <= |outcomes|
    requires Retryable(outcomes[0]) && Retryable(outcomes[1]) && Retryable(outcomes[2])
    ensures Retry(outcomes) == RetryRun(outcomes[2], 3, [4, 8])
  {
  }

  // ---------------------------------------------------------------------
  // All playlists
  // ---------------------------------------------------------------------

  /** The number of successes among `results`. */
  function Successes<T, E>(results: seq<Result<T, E>>): nat
    decreases |results|
  {
    if |results| == 0 then 0
    else Successes(results[..|results| - 1]) + (if results[|results| - 1].Ok? then 1 else 0)
  }

  /** The collection loop: the courses of the successful results, in order;
      failures are dropped. */
  function CollectResults<T, E>(results: seq<Result<T, E>>): (courses: seq<T>)
    ensures |courses| == Successes(results) <= |results|
    ensures forall i :: 0 <= i < |results| && results[i].Ok? ==> results[i].value in courses
    ensures forall k :: 0 <= k < |courses| ==> Ok(courses[k]) in results
    decreases |results|
  {
    if |results| == 0 then []
    else
      var init := results[..|results| - 1];
      var last := results[|results| - 1];
      assert results == init + [last];
      CollectResults(init) + (if last.Ok? then [last.value] else [])
  }

  /** Collecting keeps the order of the results: collecting two batches is
      collecting each and joining them. */
  lemma {:induction false} CollectAppend<T, E>(a: seq<Result<T, E>>, b: seq<Result<T, E>>)
    ensures CollectResults(a + b) == CollectResults(a) + CollectResults(b)
    decreases |b|
  {
    if |b| == 0 {
      assert a + b == a;
    } else {
      var init := b[..|b| - 1];
      var x := b[|b| - 1];
      assert b == init + [x];
      assert a + b == (a + init) + [x];
      CollectAppend(a, init);
      CollectSnoc(a + init, x);
      CollectSnoc(init, x);
    }
  }

  /** One more result adds its course, if it has one, at the end. */
  lemma CollectSnoc<T, E>(rs: seq<Result<T, E>>, x: Result<T, E>)
    ensures CollectResults(rs + [x]) == CollectResults(rs) + (if x.Ok? then [x.value] else [])
  {
    assert (rs + [x])[..|rs|] == rs;
  }

  /** Every course survives exactly when every playlist succeeds. */
  lemma {:induction false} CollectKeepsAllIffAllSucceed<T, E>(results: seq<Result<T, E>>)
    ensures |CollectResults(results)| == |results| <==> forall i :: 0 <= i < |results| ==> results[i].Ok?
    decreases |results|
  {
    if |results| > 0 {
      var init := results[..|results| - 1];
      CollectKeepsAllIffAllSucceed(init);
      assert forall i :: 0 <= i < |init| ==> init[i] == results[i];
    }
  }

  /** What all the calls for all playlists get from outside, playlist by
      playlist and call by call, fits the merge. */
  ghost predicate AttemptsFit(attempts: seq<seq<Attempt>>) {
    forall i, k :: 0 <= i < |attempts| && 0 <= k < |attempts[i]| ==> Fits(attempts[i][k])
  }

  /** The outcome of each call for `playlistUrl`. */
  function Outcomes(playlistUrl: string, attempts: seq<Attempt>): (os: seq<Result<Course, string>>)
    requires forall k :: 0 <= k < |attempts| ==> Fits(attempts[k])
    ensures |os| == |attempts|
    ensures forall k :: 0 <= k < |attempts| ==> os[k] == ProcessPlaylist(playlistUrl, attempts[k])
  {
    seq(|attempts|, k requires 0 <= k < |attempts| => ProcessPlaylist(playlistUrl, attempts[k]))
  }

  /** The outcome each playlist ends with after its retries. */
  function PlaylistResults(urls: seq<string>, attempts: seq<seq<Attempt>>): (rs: seq<Result<Course, string>>)
    requires |attempts| == |urls| && AttemptsFit(attempts)
    requires forall i :: 0 <= i < |attempts| ==> MaxRetries <= |attempts[i]|
    ensures |rs| == |urls|
    ensures forall i :: 0 <= i < |urls| ==> rs[i] == Retry(Outcomes(urls[i], attempts[i])).result
    ensures forall i :: 0 <= i < |urls| && rs[i].Ok? ==> rs[i].value.url == urls[i]
  {
    seq(|urls|, i requires 0 <= i < |urls| && |attempts| == |urls| && AttemptsFit(attempts) && MaxRetries <= |attempts[i]| =>
      Retry(Outcomes(urls[i], attempts[i])).result)
  }

  /** Every collected course carries the link of one of the playlists. */
  lemma CollectedFromPlaylists(urls: seq<string>, attempts: seq<seq<Attempt>>)
    requires |attempts| == |urls| && AttemptsFit(attempts)
    requires forall i :: 0 <= i < |attempts| ==> MaxRetries <= |attempts[i]|
    ensures forall k :: 0 <= k < |CollectResults(PlaylistResults(urls, attempts))| ==>
              CollectResults(PlaylistResults(urls, attempts))[k].url in urls
  {
    var rs := PlaylistResults(urls, attempts);
    var courses := CollectResults(rs);
    forall k | 0 <= k < |courses| ensures courses[k].url in urls {
      var i :| 0 <= i < |rs| && rs[i] == Ok(courses[k]);
    }
  }

  const KeyMissing: string := "GEMINI_API_KEY environment variable not set"

  /** `GetCourseInfo`: fetch the playlist links, check the API key, then
      process every playlist with retries and keep the successes. Results
      are taken in playlist order. A failure of every playlist is still a
      success with no courses. */
  function GetCourseInfo(navigationError: Option<string>, passes: seq<Pass>, apiKey: string,
                         attempts: seq<seq<Attempt>>): (r: Result<seq<Course>, string>)
    requires GetPlaylistUrls(navigationError, passes).Ok? ==> |attempts| == |GetPlaylistUrls(navigationError, passes).value|
    requires AttemptsFit(attempts)
    requires forall i :: 0 <= i < |attempts| ==> MaxRetries <= |attempts[i]|
    ensures GetPlaylistUrls(navigationError, passes).Err? ==>
              r == Err("failed to get playlist URLs: " + GetPlaylistUrls(navigationError, passes).error)
    ensures GetPlaylistUrls(navigationError, passes).Ok? && apiKey == "" ==> r == Err(KeyMissing)
    ensures r.Ok? <==> GetPlaylistUrls(navigationError, passes).Ok? && apiKey != ""
    ensures r.Ok? ==> |r.value| <= |attempts|
    ensures r.Ok? ==> forall k :: 0 <= k < |r.value| ==> r.value[k].url in GetPlaylistUrls(navigationError, passes).value
  {
    match GetPlaylistUrls(navigationError, passes)
    case Err(e) => Err("failed to get playlist URLs: " + e)
    case Ok(urls) =>
      if apiKey == "" then Err(KeyMissing)
      else
        CollectedFromPlaylists(urls, attempts);
        Ok(CollectResults(PlaylistResults(urls, attempts)))
  }

  /** A failed page load surfaces with both prefixes. */
  lemma PageLoadFailureMessage(e: string, passes: seq<Pass>, apiKey: string, attempts: seq<seq<Attempt>>)
    requires AttemptsFit(attempts)
    requires forall i :: 0 <= i < |attempts| ==> MaxRetries <= |attempts[i]|
    ensures GetCourseInfo(Some(e), passes, apiKey, attempts) ==
            Err("failed to get playlist URLs: failed to scrape page: " + e)
  {
    PageLoadFailureNested(e, passes, apiKey, attempts);
    assert "failed to get playlist URLs: " + ("failed to scrape page: " + e)
        == "failed to get playlist URLs: failed to scrape page: " + e;
  }

  /** The two prefixes, as `GetCourseInfo` and `GetPlaylistURLs` add them. */
  lemma PageLoadFailureNested(e: string, passes: seq<Pass>, apiKey: string, attempts: seq<seq<Attempt>>)
    requires AttemptsFit(attempts)
    requires forall i :: 0 <= i < |attempts| ==> MaxRetries <= |attempts[i]|
    ensures GetCourseInfo(Some(e), passes, apiKey, attempts) ==
            Err("failed to get playlist URLs: " + ("failed to scrape page: " + e))
  {
  }
}
