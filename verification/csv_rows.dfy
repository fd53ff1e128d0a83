/** The rows `WriteCoursesToCSV` hands to the CSV writer: a fixed header,
    then one row per video, course after course. */
module CsvRows {
  import opened Wrappers
  import opened Text
  import opened Courses

  type Row = seq<string>

  /** The seven column names. */
  const Header: Row := ["CourseURL", "CourseTitle", "Position", "VideoURL", "VideoTitle", "ViewCount", "Taxonomy"]

  /** The row of one video: the course's URL and title, then the video's
      fields, with the position and view count in base 10. */
  function VideoRow(c: Course, v: Video): (row: Row)
    ensures |row| == |Header|
    ensures row[0] == c.url && row[1] == c.title
    ensures row[3] == v.url && row[4] == v.title && row[6] == v.taxonomy
    ensures ParseInt(row[2]) == Some(v.position) && ParseInt(row[5]) == Some(v.viewCount)
  {
    FormatIntRoundTrip(v.position);
    FormatIntRoundTrip(v.viewCount);
    [c.url, c.title, FormatInt(v.position), v.url, v.title, FormatInt(v.viewCount), v.taxonomy]
  }

  /** The rows of one course, one per video in order. */
  function CourseRows(c: Course): (rows: seq<Row>)
    ensures |rows| == |c.videos|
    ensures forall i :: 0 <= i < |rows| ==> rows[i] == VideoRow(c, c.videos[i])
  {
    seq(|c.videos|, i requires 0 <= i < |c.videos| => VideoRow(c, c.videos[i]))
  }

  /** The number of videos over all courses. */
  function TotalVideos(courses: seq<Course>): nat
    decreases |courses|
  {
    if |courses| == 0 then 0
    else TotalVideos(courses[..|courses| - 1]) + |courses[|courses| - 1].videos|
  }

  /** The video rows of all courses, course after course. */
  function BodyRows(courses: seq<Course>): (rows: seq<Row>)
    ensures |rows| == TotalVideos(courses)
    ensures forall i :: 0 <= i < |rows| ==> |rows[i]| == |Header|
    decreases |courses|
  {
    if |courses| == 0 then []
    else BodyRows(courses[..|courses| - 1]) + CourseRows(courses[|courses| - 1])
  }

  /** Everything written: the header, then the video rows. */
  function CsvRows(courses: seq<Course>): (rows: seq<Row>)
    ensures |rows| == 1 + TotalVideos(courses)
    ensures rows[0] == Header
    ensures forall i :: 0 <= i < |rows| ==> |rows[i]| == 7
  {
    [Header] + BodyRows(courses)
  }

  lemma BodyRowsSnoc(courses: seq<Course>, k: nat)
    requires k < |courses|
    ensures BodyRows(courses[..k + 1]) == BodyRows(courses[..k]) + CourseRows(courses[k])
    ensures TotalVideos(courses[..k + 1]) == TotalVideos(courses[..k]) + |courses[k].videos|
  {
    assert courses[..k + 1][..k] == courses[..k];
  }

  /** The body rows of a prefix of the courses are a prefix of the body. */
  lemma {:induction false} BodyRowsPrefix(courses: seq<Course>, k: nat)
    requires k <= |courses|
    ensures TotalVideos(courses[..k]) <= TotalVideos(courses)
    ensures BodyRows(courses)[..TotalVideos(courses[..k])] == BodyRows(courses[..k])
    decreases |courses| - k
  {
    if k == |courses| {
      assert courses[..k] == courses;
    } else {
      BodyRowsPrefix(courses, k + 1);
      BodyRowsSnoc(courses, k);
      var n := TotalVideos(courses[..k]);
      assert BodyRows(courses)[..n] == BodyRows(courses)[..TotalVideos(courses[..k + 1])][..n];
    }
  }

  /** Video `i` of course `k` is written on row `1 + o + i`, where `o` is
      the number of videos of the courses before `k`. */
  lemma RowOfVideo(courses: seq<Course>, k: nat, i: nat)
    requires k < |courses| && i < |courses[k].videos|
    ensures 1 + TotalVideos(courses[..k]) + i < |CsvRows(courses)|
    ensures CsvRows(courses)[1 + TotalVideos(courses[..k]) + i] == VideoRow(courses[k], courses[k].videos[i])
  {
    var o := TotalVideos(courses[..k]);
    var body := BodyRows(courses);
    assert body[o + i] == CourseRows(courses[k])[i] by {
      BodyRowsPrefix(courses, k + 1);
      BodyRowsSnoc(courses, k);
      var pre := BodyRows(courses[..k + 1]);
      assert pre == BodyRows(courses[..k]) + CourseRows(courses[k]);
      assert pre[o + i] == CourseRows(courses[k])[i];
      assert body[..|pre|] == pre;
    }
    assert CsvRows(courses)[1 + o + i] == body[o + i];
  }

  /** Reads a video row back: the course's URL and title and the video.
      Position and view count must be base-10 integers. */
  function DecodeRow(row: Row): (r: Option<(string, string, Video)>)
    ensures r.Some? ==> |row| == 7
  {
    if |row| != 7 then None
    else match (ParseInt(row[2]), ParseInt(row[5]))
      case (Some(position), Some(viewCount)) =>
        Some((row[0], row[1], Video(row[3], row[4], viewCount, position, row[6])))
      case _ => None
  }

  /** No information is lost: every video row decodes to its course's URL
      and title and the video itself. */
  lemma VideoRowRoundTrip(c: Course, v: Video)
    ensures DecodeRow(VideoRow(c, v)) == Some((c.url, c.title, v))
  {
  }

  /** With no courses only the header is written. */
  lemma NoCoursesOnlyHeader()
    ensures CsvRows([]) == [Header]
  {
  }
}
