/** What the scraper reads from a headless browser, as input: the page is
    queried pass after pass, and between passes it is scrolled. */
module Browser {
  import opened Wrappers

  /** One pass over the page: the `href` of every link the query matched,
      in page order, and whether the scroll after the pass fails; or the
      failure of the query itself. */
  datatype Pass =
    | Pass(hrefs: seq<string>, scrollError: Option<string>)
    | QueryFailed(error: string)

  /** The error a browser context reports once its time limit expires;
      running out of passes stands for this. */
  const DeadlineExceeded: string := "context deadline exceeded"

  /** Every link of every successful pass, pass after pass. */
  function AllHrefs(passes: seq<Pass>): seq<string>
    decreases |passes|
  {
    if |passes| == 0 then []
    else AllHrefs(passes[..|passes| - 1]) + (if passes[|passes| - 1].Pass? then passes[|passes| - 1].hrefs else [])
  }

  /** The links up to pass `k` are those before it followed by its own. */
  lemma PassesPrefixSnoc(passes: seq<Pass>, k: nat)
    requires k < |passes|
    ensures AllHrefs(passes[..k + 1]) ==
            AllHrefs(passes[..k]) + (if passes[k].Pass? then passes[k].hrefs else [])
  {
    assert passes[..k + 1][..k] == passes[..k];
  }
}
