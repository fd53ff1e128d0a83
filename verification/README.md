# MIT OCW course retention — a Dafny model

The repository scrapes the MIT OpenCourseWare YouTube channel and writes
one CSV row per lecture video. A Go scraper (`scraper/courses.go`) does the
scraping. A Python script (`visualize.py`) then reads the CSV and turns it
into "retention" curves: how many of a course's first-lecture viewers are
still watching at each later lecture.

This project models the deterministic core of both programs and proves
properties about it.

**Analysis side (`visualize.py`).** The model covers:
- the percentage of first-video views for each course (panel 2);
- the capped retention series, in which an entry never exceeds the entry
  before it (panel 3);
- the median line across courses for both panels, including the script's
  own quirks:
  - positions are visited in first-appearance order;
  - the panel-2 baseline is the first row of the course *in file order*
    (`groupby(...).first()`), not its lowest position;
  - panel 3 appends 100 at the least position and caps every later median
    by the last one. When the table's first position is not its least,
    `retention_medians[-1]` is read from an empty list and the script fails
    with an `IndexError`. The model returns `Err(IndexError)` in that case.
- `calculate_stats`.

**Scraper side (`scraper/courses.go`).** The model covers:
- the scroll loop that numbers the distinct video links of a playlist page;
- the loop that collects and sorts the channel's playlist links;
- the positional merge of scraped positions into the extracted course;
- the retry policy on HTTP 429;
- the collection of per-playlist results;
- the rows written to the CSV file.

Nothing outside the model is called. The browser, the language model, the
clock and the environment variable all become inputs:
- A browser query is a `Browser.Pass`: the links it found, plus whether the
  scroll after it failed. It can also be a failed query.
- Running out of passes stands for the browser context's deadline expiring.
  That outcome is `Err("context deadline exceeded")`.
- A call of `processCoursePlaylist` is a `Process.Attempt`: the page-load
  error, the scroll passes and the extracted course.
- The API key is a string parameter.

Modules, one per file:
- `wrappers.dfy`: `Option`, `Result`, and `Num` (a real or NaN).
- `seqs.dfy`: distinctness, first-appearance `Unique`, `Filter`, `Concat`.
- `sorting.dfy`: stable insertion sort by a real key.
- `statistics.dfy`: min, max, mean, and numpy's median.
- `retention.dfy`: the per-course series.
- `dataset.dfy`: CSV rows and the groupings pandas derives from them.
- `median_series.dfy`: the two median lines.
- `summary.dfy`: `calculate_stats`.
- `single_course.dfy`: both median lines of a one-course table reduce to
  that course's series.
- `text.dfy`: Go's `strings.Contains`, Go's string order, and `%d`.
- `courses.dfy`: `VideoInfo` and `CourseInfo`.
- `browser.dfy`: browser passes.
- `scroll.dfy`: `scrollPlaylistVideos`.
- `playlists.dfy`: `extractPlaylistURLs` and `GetPlaylistURLs`.
- `process.dfy`: `processCoursePlaylist`, the retry loop and `GetCourseInfo`.
- `csv_rows.dfy`: `WriteCoursesToCSV`.
- `examples_vis.dfy` and `examples_scraper.dfy`: worked inputs.

## Model

| member | source | states |
|---|---|---|
| Retention.Min | visualize.py:53 | Python's `min` of two numbers is at most both and equals one of them |
| Retention.Percent | visualize.py:52 | the percentage is never negative, and the baseline's own views are exactly 100 |
| Retention.PercentScales | visualize.py:52 | the percentage times the baseline is 100 times the views |
| Retention.PercentMonotone | visualize.py:37 | percentages of one baseline are ordered exactly as the view counts (both directions) |
| Retention.PercentOfFirst | visualize.py:36-37 | one entry per video, each that video's percentage of the first video's views; the first is 100 |
| Retention.PercentOfFirstScales | visualize.py:36-37 | entry i times the first video's views is 100 times video i's views |
| Retention.CappedRetention | visualize.py:48-54 | one entry per video; it starts at 100, never rises, and each entry lies between 0 and that video's own percentage |
| Retention.CappedStep | visualize.py:51-54 | each entry after the first is the smaller of its own percentage and the entry before it |
| Retention.CappedEntryIsPrefixMinimum | visualize.py:49-54 | entry i of the capped series is the least of the first i+1 percentages |
| Retention.CappedIsRunningMinimum | visualize.py:48-54 | the capped series is the running minimum of the percentage series, an independent definition |
| Retention.FinalIsLeastPercent | visualize.py:184-192 | a course's final retention is its least percentage of the first video's views |
| Retention.CapInactiveAt | visualize.py:48-54 | when the view counts never rise, every capped entry equals the plain percentage |
| Retention.CapInactiveMeansNonRising | visualize.py:48-54 | when the cap changes nothing, the view counts never rise |
| Retention.CapInactiveIffNonRising | visualize.py:48-54 | the cap leaves the percentage series unchanged if and only if the view counts never rise |
| Retention.FlatCourseRetainsAll | visualize.py:48-54 | a course whose videos all have the first video's views retains 100 throughout |
| Seqs.Unique | visualize.py:22 | `unique()` yields each value once, loses none and adds none |
| Seqs.UniqueHead | visualize.py:66 | `unique()` of a non-empty column starts with the column's first value |
| Seqs.UniqueFirstAppearance | visualize.py:22 | `unique()` lists values in order of first occurrence: of two listed values, the one whose first occurrence is earlier comes first |
| Seqs.UniqueCardinality | visualize.py:197 | the number of unique values is the size of the set of values |
| Sorting.SortBy | visualize.py:23 | `sort_values` yields a permutation of its input, sorted by the key |
| Sorting.SortSorted | visualize.py:23 | sorting rows that are already in order returns them unchanged |
| Statistics.Mean | visualize.py:195 | the mean lies between the least and the greatest value |
| Statistics.Median | visualize.py:196 | the median (mean of the two middle values for an even count) lies between the least and the greatest value |
| Statistics.SortedUnique | visualize.py:73 | two ascending sequences holding the same values are equal, so the sorted copy is determined by the values alone |
| Statistics.MedianOfPermutation | visualize.py:73 | the median does not depend on the order of its inputs |
| Statistics.MedianAtMost | visualize.py:100-102 | values bounded by c have a median bounded by c |
| Statistics.MedianSingleton | visualize.py:73 | the median of one value is that value |
| Dataset.Titles | visualize.py:22 | every row's title is among the titles and every title is some row's title (distinctness and order come from `Seqs.Unique` and `Seqs.UniqueFirstAppearance`) |
| Dataset.Positions | visualize.py:66 | the positions are distinct, every row's position is among them and each comes from a row, and the first row's position comes first |
| Dataset.CourseRows | visualize.py:23 | a course's sorted rows are a permutation of its rows in table order, ascending by position, all with its title, and non-empty when the title occurs |
| Dataset.RowInCourseRows | visualize.py:23 | every row appears among its own course's sorted rows |
| Dataset.TitleHasRows | visualize.py:22-23 | every title iterated over has a row, so `iloc[0]` exists |
| Dataset.PositionHasRows | visualize.py:68-70 | every position iterated over has a row, so the `len(pos_data) > 0` test always passes |
| Dataset.CoursesAtMostVideos | visualize.py:197-198 | the course count is the number of distinct titles and never exceeds the row count |
| MedianSeries.PanelTwoMedianBounds | visualize.py:69-73 | the median at a position lies between the least and greatest of that position's percentages, taken against file-order baselines |
| MedianSeries.PercentMedianLoopSpec | visualize.py:68-73 | the loop emits one median per position, each the median of that position's contributions |
| MedianSeries.PercentMedians | visualize.py:66-73 | the panel-2 median line has one entry per distinct position, in first-appearance order, each the median of the percentages at that position |
| MedianSeries.PercentMediansSpec | visualize.py:66-73 | the panel-2 median line has one entry per distinct position, each within that position's percentages |
| MedianSeries.Contributions | visualize.py:93-101 | one contribution per course that has a row at the position, in title order, each that course's raw retention at the position capped by the last median |
| MedianSeries.Cap | visualize.py:100 | `min(raw, last)`: at most both and equal to one of them, the raw value when it does not exceed the last median, and the raw value when the last median is NaN |
| MedianSeries.CoursesAtNonEmpty | visualize.py:94-102 | some course contributes at every position, so the NaN branch is never taken |
| MedianSeries.ContributionsBounded | visualize.py:96-101 | each contribution lies between 0 and the last median |
| MedianSeries.CappedMedianBounded | visualize.py:100-102 | the median of the capped contributions lies between 0 and the last median |
| MedianSeries.NextMedianBounded | visualize.py:93-102 | the next median is a number between 0 and the previous median |
| MedianSeries.LoopStep | visualize.py:87-102 | one loop step appends 100 at the least position, fails on an empty list elsewhere, and otherwise appends the capped median |
| MedianSeries.RetentionMedianLoopSpec | visualize.py:86-102 | from a consistent state, the loop fails exactly when the first position is not the least one and nothing has been appended; otherwise it extends the list with one settled entry per position |
| MedianSeries.RetentionMedians | visualize.py:86-102 | the panel-3 line succeeds if and only if the table is empty or its first row's position is its least; it then has one entry per position, starts at 100, never rises and stays within [0, 100] |
| MedianSeries.UnorderedPositionsFail | visualize.py:86-100 | when the first row's position is not the least, the loop fails with an IndexError |
| MedianSeries.FirstEntryIsHundred | visualize.py:90-91 | the entry at the least position is 100 |
| SingleCourse.OneCoursePercentMedians | visualize.py:66-73 | for one course listed in position order, the panel-2 median line is the course's percentage series |
| SingleCourse.OneCourseRetentionMedians | visualize.py:86-102 | for one course listed in position order, the panel-3 median line is the course's capped retention series |
| Summary.FinalRetention | visualize.py:184-192 | a course's final retention is its least percentage and lies within [0, 100] |
| Summary.FinalRetentions | visualize.py:183-192 | one final retention per distinct title, in title order: entry k is the final retention of title k, within [0, 100] |
| Summary.CalculateStats | visualize.py:181-199 | videos = rows; courses = distinct titles ≤ videos; mean and median are numbers exactly when there is a row, and then lie between the least and greatest final retention, within [0, 100] |
| Summary.FinalsPresent | visualize.py:192-196 | there is a final retention exactly when the table has a row |
| Text.ContainsIffOccurs | scraper/courses.go:148 | `strings.Contains` holds if and only if the text occurs at some offset |
| Text.ContainsInside | scraper/courses.go:238 | a string built around the marker contains it |
| Text.StrLessIrreflexive | scraper/courses.go:266 | Go's `<` on strings is irreflexive |
| Text.StrLessTransitive | scraper/courses.go:266 | Go's `<` on strings is transitive |
| Text.StrLessTotal | scraper/courses.go:266 | of two different strings, one is less than the other |
| Text.FormatInt | scraper/courses.go:402 | `%d` gives a non-empty text that is all digits exactly when the number is not negative |
| Text.FormatIntRoundTrip | scraper/courses.go:405 | parsing the `%d` text gives back the number |
| Scroll.AddNode | scraper/courses.go:197-205 | a new link adds exactly one video and advances the position by one, which with the kept numbering makes it `Scraped(href, position)`; a seen link changes nothing (both directions); the seen set, the numbering and the prefix are kept |
| Scroll.AddNodes | scraper/courses.go:196-206 | every link of the pass ends up seen, the earlier videos are kept, and the numbering stays consistent |
| Scroll.ScrollLoop | scraper/courses.go:189-219 | on success the earlier videos are a prefix of the result, and a consistent numbering stays consistent |
| Scroll.ScrollPlaylistVideos | scraper/courses.go:184-221 | on success the links are distinct, video k has position k+1, and the other fields are empty |
| Scroll.AddNodesNumbersUnique | scraper/courses.go:195-206 | after a pass the state numbers the distinct links seen so far in order of first appearance |
| Scroll.ScrollLoopFrom | scraper/courses.go:189-219 | resumed at a pass before the stopping pass, the loop yields the first-appearance numbering of the links up to the stopping pass |
| Scroll.ScrollStopsAtFirstRepeat | scraper/courses.go:186-211 | if pass k is the first whose count repeats the previous one, the result numbers the distinct links of passes 0..k from 1, in order of first appearance |
| Scroll.ScrollCollectsEachLinkOnce | scraper/courses.go:196-206 | every link seen up to the stopping pass is among the collected videos |
| Scroll.ScrollNeverStops | scraper/courses.go:189-219 | if the count changes on every pass, the loop ends only when the browser context expires |
| Scroll.EmptyFirstPassStops | scraper/courses.go:187-210 | the loop as written: a first pass with no links breaks at line 208 with no videos, because the previous count starts at 0 (a case the waiting browser query never produces) |
| Scroll.NonEmptyFirstPassCollects | scraper/courses.go:191-206 | a first pass with at least one link makes a successful scroll return at least one video |
| Playlists.AddHref | scraper/courses.go:237-246 | a playlist link ends up seen; the pass grows if and only if the link is a new playlist link; consistency is kept |
| Playlists.CollectPass | scraper/courses.go:236-247 | a pass keeps the state consistent and never un-marks growth |
| Playlists.ExtractLoop | scraper/courses.go:229-259 | on success the found links are distinct playlist links |
| Playlists.InsertString | scraper/courses.go:265-267 | inserting adds exactly one element |
| Playlists.SortStrings | scraper/courses.go:265-267 | the sorted links are a permutation of the links |
| Playlists.SortStringsAscending | scraper/courses.go:265-267 | sorting distinct links leaves them strictly ascending in Go's order |
| Playlists.AscendingIsUnique | scraper/courses.go:261-268 | two strictly ascending sequences with the same elements are equal, so the result does not depend on map iteration order |
| Playlists.ExtractPlaylistUrls | scraper/courses.go:224-272 | on success the links are strictly ascending playlist links |
| Playlists.GetPlaylistUrls | scraper/courses.go:52-61 | a page-load or extraction failure gets the "failed to scrape page: " prefix; success exactly when both succeed |
| Playlists.CollectPassTracks | scraper/courses.go:236-247 | a pass adds its new playlist links in order of first appearance and grows if and only if it had one |
| Playlists.ExtractLoopFrom | scraper/courses.go:229-259 | resumed before the first pass with nothing new, the loop yields the distinct playlist links up to that pass |
| Playlists.ExtractStopsAtFirstStale | scraper/courses.go:226-268 | if pass k is the first with nothing new, the result is the distinct playlist links of passes 0..k, sorted |
| Playlists.ExtractIsSortedSeenSet | scraper/courses.go:261-268 | the result is the one strictly ascending sequence holding exactly the playlist links seen |
| Playlists.ExtractLoopExpires | scraper/courses.go:229-259 | if every pass finds something new, the loop ends only when the browser context expires |
| Playlists.ExtractNeverStale | scraper/courses.go:229-259 | if every pass finds something new, the extraction fails with the deadline error |
| Process.MergePositions | scraper/courses.go:375-378 | the course gets the playlist link; video i gets scraped position i; every other field is kept |
| Process.MergeNumbersVideos | scraper/courses.go:375-378 | merged with the scroll's videos, the extracted videos are numbered 1, 2, ... in order |
| Process.BrowserRun | scraper/courses.go:356-364 | a page-load error is returned; otherwise the scroll's result is |
| Process.ProcessPlaylist | scraper/courses.go:353-380 | browser and extraction errors are passed on unchanged; success exactly when both succeed, and then the course carries the playlist link and numbered videos |
| Process.Retry | scraper/courses.go:137-160 | between 1 and 3 calls; the result is the last call's; sleeps of 4 s, 8 s before retries; every earlier call failed with a 429; fewer than 3 calls means the last one was not retryable |
| Process.LeadingRateLimitsFrom | scraper/courses.go:142-155 | counting leading rate-limit errors can skip a known prefix of them |
| Process.RetryCountsRateLimits | scraper/courses.go:142-160 | the number of calls is one more than the leading 429 errors, capped at 3 |
| Process.NoRetryWithoutRateLimit | scraper/courses.go:147-159 | a success or another error on the first call ends the loop at once |
| Process.RateLimitedThrice | scraper/courses.go:148-157 | three 429 errors give three calls, sleeps of 4 s and 8 s, and the third error |
| Process.CollectResults | scraper/courses.go:170-178 | the collected courses are the successes, each kept, none invented; there are as many as successes |
| Process.CollectAppend | scraper/courses.go:171-178 | collecting keeps the order of the results |
| Process.CollectKeepsAllIffAllSucceed | scraper/courses.go:170-181 | every playlist yields a course if and only if every playlist succeeds |
| Process.PlaylistResults | scraper/courses.go:118-166 | one result per playlist, the retry loop's result, carrying that playlist's link on success |
| Process.CollectedFromPlaylists | scraper/courses.go:118-181 | every collected course carries the link of one of the playlists |
| Process.GetCourseInfo | scraper/courses.go:90-182 | a link failure gets the "failed to get playlist URLs: " prefix; an empty key fails with the fixed message; success exactly otherwise, with at most one course per playlist, each from a listed playlist |
| Process.PageLoadFailureMessage | scraper/courses.go:91-93 | a failed page load surfaces with both error prefixes |
| CsvRows.VideoRow | scraper/courses.go:399-407 | seven fields: course link and title, position in base 10, video link and title, view count in base 10, taxonomy |
| CsvRows.CourseRows | scraper/courses.go:398-411 | one row per video of the course, in order |
| CsvRows.BodyRows | scraper/courses.go:397-412 | one seven-field row per video of all courses |
| CsvRows.CsvRows | scraper/courses.go:392-412 | the header, then one row per video, every row with seven fields |
| CsvRows.BodyRowsPrefix | scraper/courses.go:397-412 | the rows of the first k courses are a prefix of all body rows |
| CsvRows.RowOfVideo | scraper/courses.go:397-411 | video i of course k is on row 1 + (videos of earlier courses) + i |
| CsvRows.VideoRowRoundTrip | scraper/courses.go:399-407 | a row decodes back to its course's link and title and the video itself |
| CsvRows.NoCoursesOnlyHeader | scraper/courses.go:392-397 | with no courses only the header is written |
| Examples.CappedHoldsAfterDip | visualize.py:48-54 | views 1000, 500, 800 give percentages 100, 50, 80 and retention 100, 50, 50 |
| Examples.MedianOfTwo | visualize.py:73 | the median of 60 and 40 is 50 |
| Examples.ReversedPercentMedians | visualize.py:66-73 | a course listed from position 2 down to 1 gets a panel-2 median line of 100, 200 against its file-order baseline |
| Examples.ReversedCourseSeries | visualize.py:36-37 | the same course's own panel-2 series is 100, 50 |
| Examples.ReversedPanelThreeFails | visualize.py:86-100 | the same table makes panel 3 fail with an IndexError |
| ScraperExamples.GrowingPageScroll | scraper/courses.go:189-211 | passes a / a b / b c stop at the third pass, whose count repeats, yet keep its new link: a 1, b 2, c 3 |
| ScraperExamples.NoFourNoRateLimit | scraper/courses.go:148 | an error message without the digit 4 is never retried |
| ScraperExamples.TimeoutAfterRateLimit | scraper/courses.go:142-160 | a 429, then a timeout: two calls, one 4 s sleep, and the timeout is returned |

## Left out

- Plotting, the HTML report and its styling (`visualize.py:104-136` and `visualize.py:201-363` with its call at line 367): presentation only.
- The debug print for the first course (`visualize.py:138-158`): the capped series of one course, printed; `Retention.CappedRetention` computes the same series.
- The printed average final retention (`visualize.py:160-179`): the same loop as `calculate_stats`, whose mean `Summary.CalculateStats` models.
- Summary.CalculateStats: its NaN mean and median for an empty table are never reached by the script. Line 139 reads `df['CourseTitle'].unique()[0]`, which raises IndexError on an empty table before `calculate_stats` is called at line 366. The model states what `calculate_stats` itself returns.
- Reading the CSV file and writing the HTML file: file I/O. The table is a sequence of `Dataset.Row`.
- Floating point: percentages are exact reals. NaN is modelled only where numpy returns it (the mean and median of nothing, and the unreachable empty-contribution branch). A zero baseline is excluded by a precondition (`BaselinesPositive`, `FileBaselinesPositive`). In the script such a baseline yields inf or NaN, which the model does not represent.
- Sorting.SortBy: a stable insertion sort. pandas' default `sort_values` is not guaranteed stable, so two rows of one course at the same position may come out in either order.
- `cleanHTML` and `extractCourseMetadata`: regular expressions, the Gemini client and JSON decoding. Their output is the `extracted` field of `Process.Attempt`.
- Browser.Pass: a pass may carry an empty link list, which chromedp never returns. Its `Nodes` query waits until at least one node matches, so on a page without links it blocks until the five-minute deadline (`scraper/courses.go:130`) and fails with "context deadline exceeded". `Scroll.EmptyFirstPassStops` describes the loop as written for such a list.
- Browser automation (chromedp navigation, sleeps, JavaScript scrolling, CSS selectors): replaced by the `Browser.Pass` inputs. The selector's `href*=` match is taken to be done by the browser.
- The `OuterHTML` step of `processCoursePlaylist`: its failure is not modelled separately. It would reach the caller unchanged, like a page-load error.
- Concurrency in `GetCourseInfo` (goroutines, the five-browser semaphore, the 100 ms rate limiter, the result channel): results are collected in playlist order. The Go code collects them in completion order, which the model does not fix.
- Process.Retry: requires the outcomes of three calls to be given, even when fewer are made. Only the first `attempts` are used.
- Process.MergePositions: requires at least as many scraped videos as extracted ones. The Go code panics with an index out of range otherwise.
- Process.GetCourseInfo: requires one list of call outcomes per playlist, all fitting the merge, as a consequence of the two preconditions above.
- The `totalDuplicates` counter and all `log.Printf` calls: logging only.
- CSV writer errors, file creation and quoting in `WriteCoursesToCSV`: the model stops at the list of rows handed to the writer.
- `main.go` is not part of this model.
