/** Worked inputs for the scraper's loops. */
module ScraperExamples {
  import opened Wrappers
  import opened Seqs
  import opened Courses
  import opened Browser
  import Scroll
  import Text
  import Process

  /** Three passes that find 1, 2 and 2 links: `a`, then `a b`, then `b c`. */
  function GrowingPage(a: string, b: string, c: string): seq<Pass> {
    [Pass([a], None), Pass([a, b], None), Pass([b, c], None)]
  }

  lemma GrowingPageLinks(a: string, b: string, c: string)
    ensures AllHrefs(GrowingPage(a, b, c)) == [a, a, b, b, c]
  {
    var passes := GrowingPage(a, b, c);
    assert AllHrefs(passes[..1]) == [a] by {
      assert passes[..1][..0] == [];
    }
    assert AllHrefs(passes[..2]) == [a, a, b] by {
      assert passes[..2][..1] == passes[..1];
    }
    assert passes[..2] == passes[..|passes| - 1];
  }

  lemma RepeatedLinkOnce<T>(a: T)
    ensures Unique([a, a]) == [a]
  {
    assert Unique([a]) == [a] by {
      UniqueSnoc([], a);
      assert [] + [a] == [a];
    }
    UniqueSnoc([a], a);
    assert [a] + [a] == [a, a];
  }

  lemma DoubledLinksOnce<T>(a: T, b: T)
    requires a != b
    ensures Unique([a, a, b, b]) == [a, b]
  {
    assert Unique([a, a, b]) == [a, b] by {
      RepeatedLinkOnce(a);
      UniqueSnoc([a, a], b);
      assert [a, a] + [b] == [a, a, b];
    }
    UniqueSnoc([a, a, b], b);
    assert [a, a, b] + [b] == [a, a, b, b];
  }

  lemma DistinctLinksOnce<T>(a: T, b: T, c: T)
    requires a != b && b != c && a != c
    ensures Unique([a, a, b, b, c]) == [a, b, c]
  {
    DoubledLinksOnce(a, b);
    UniqueSnoc([a, a, b, b], c);
    assert [a, a, b, b] + [c] == [a, a, b, b, c];
  }

  /** The third pass repeats the second's count of two, so the scroll stops
      there; the new link `c` it brought is still collected and numbered 3. */
  lemma GrowingPageScroll(a: string, b: string, c: string)
    requires a != b && b != c && a != c
    ensures Scroll.ScrollPlaylistVideos(GrowingPage(a, b, c)) ==
            Ok([Scroll.Scraped(a, 1), Scroll.Scraped(b, 2), Scroll.Scraped(c, 3)])
  {
    var passes := GrowingPage(a, b, c);
    assert Scroll.RunsThrough(passes, 2) by {
      assert Scroll.PreviousCount(passes, 0) == 0;
      assert Scroll.PreviousCount(passes, 1) == 1;
    }
    assert Scroll.StopsAt(passes, 2) by {
      assert Scroll.PreviousCount(passes, 2) == 2;
    }
    Scroll.ScrollStopsAtFirstRepeat(passes, 2);
    assert passes[..3] == passes;
    GrowingPageLinks(a, b, c);
    DistinctLinksOnce(a, b, c);
    var vs := Scroll.Numbered([a, b, c]);
    assert vs == [Scroll.Scraped(a, 1), Scroll.Scraped(b, 2), Scroll.Scraped(c, 3)] by {
      assert vs[0] == Scroll.Scraped(a, 1);
      assert vs[1] == Scroll.Scraped(b, 2);
      assert vs[2] == Scroll.Scraped(c, 3);
    }
  }

  /** A message without the digit 4 is not a rate-limit error. */
  lemma NoFourNoRateLimit(e: string)
    requires forall i :: 0 <= i < |e| ==> e[i] != '4'
    ensures !Process.IsRateLimited(e)
  {
    forall i | 0 <= i <= |e| - 3
      ensures !Text.OccursAt(e, "429", i)
    {
      assert e[i..i + 3][0] == e[i];
    }
    Text.ContainsIffOccurs(e, "429");
  }

  /** A rate-limit error is retried after four seconds; the timeout that
      follows is not a rate-limit error, so it ends the loop and is returned
      although a third call would have succeeded. */
  lemma TimeoutAfterRateLimit(course: Course)
    ensures Process.Retry([Err("status 429"), Err("timeout"), Ok(course)]) ==
            Process.RetryRun(Err("timeout"), 2, [4])
  {
    var outcomes: seq<Result<Course, string>> := [Err("status 429"), Err("timeout"), Ok(course)];
    Text.ContainsInside("status ", "429", "");
    assert "status " + "429" + "" == "status 429";
    NoFourNoRateLimit("timeout");
    assert Process.Retryable(outcomes[0]);
    assert !Process.Retryable(outcomes[1]);
    var r := Process.Retry(outcomes);
    assert r.attempts == 2;
  }
}
