/** The records the scraper builds and writes: one per video and one per
    course playlist. */
module Courses {

  /** One video of a course playlist. `position` is the video's 1-based
      place in the playlist; `viewCount` is the count the page showed. */
  datatype Video = Video(url: string, title: string, viewCount: int, position: int, taxonomy: string)

  /** One course: its playlist URL, its title and its videos in playlist order. */
  datatype Course = Course(url: string, title: string, videos: seq<Video>)

  /** The URLs of `vs`, in order. */
  function Urls(vs: seq<Video>): (us: seq<string>)
    ensures |us| == |vs|
    ensures forall i :: 0 <= i < |vs| ==> us[i] == vs[i].url
  {
    seq(|vs|, i requires 0 <= i < |vs| => vs[i].url)
  }
}
