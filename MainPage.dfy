/** The page fields that `generate_logseq_page` of yt2logseq/main.py computes from
    the video metadata: the topic line, the publication date and the first line of
    the description. The rest of the note is fixed template text. */
module MainPage {
  import opened Wrappers
  import opened PyStr
  import Logseq

  /** The topic line: empty when no topics were assigned (`None`) or the list is
      empty, the `topic::` property otherwise. */
  function TopicsLine(topics: Option<seq<string>>): (line: string)
    ensures line == "" <==> topics.None? || topics.value == []
    ensures line != "" ==> |line| >= 8 && line[..8] == "topic:: "
  {
    match topics
    case None => ""
    case Some(ts) => if ts == [] then "" else Logseq.TopicsProperty(ts)
  }

  /** Round trip: whenever a topic line is written, reading it back gives the
      topics, as long as each has no comma, no `::` and no bracket at either end. */
  lemma TopicsLineRoundTrip(topics: Option<seq<string>>)
    requires topics.Some? && topics.value != []
    requires forall i :: 0 <= i < |topics.value| ==> Logseq.PlainTopic(topics.value[i])
    ensures Logseq.ParseTopicsLine(TopicsLine(topics)) == Success(topics.value)
  {
    Logseq.TopicsRoundTrip(topics.value);
  }

  /** `f"{date[:4]}-{date[4:6]}-{date[6:8]}"` for the `upload_date` string. */
  function PublishedDate(date: string): string
  {
    Slice(date, 0, 4) + "-" + Slice(date, 4, 6) + "-" + Slice(date, 6, 8)
  }

  /** An eight-character `YYYYMMDD` date becomes `YYYY-MM-DD`: ten characters,
      dashes at positions 4 and 7, and the date's characters in order around them. */
  lemma PublishedDateLayout(date: string)
    requires |date| == 8
    ensures var r := PublishedDate(date);
            |r| == 10 && r[4] == '-' && r[7] == '-'
            && r[..4] + r[5..7] + r[8..] == date
  {
    var r := PublishedDate(date);
    assert r == date[..4] + "-" + date[4..6] + "-" + date[6..8];
    assert r[..4] == date[..4];
    assert r[5..7] == date[4..6];
    assert r[8..] == date[6..8];
    assert date == date[..4] + date[4..6] + date[6..8];
  }

  /** Whatever its length, the date's first eight characters (all of them when it
      is shorter) appear in the result in order, with nothing dropped or repeated,
      around exactly two inserted dashes. */
  lemma PublishedDatePieces(date: string)
    ensures var n := if |date| < 8 then |date| else 8;
            Slice(date, 0, 4) + Slice(date, 4, 6) + Slice(date, 6, 8) == date[..n]
            && |PublishedDate(date)| == n + 2
  {
    var n := if |date| < 8 then |date| else 8;
    var a := if |date| < 4 then |date| else 4;
    var b := if |date| < 6 then |date| else 6;
    assert Slice(date, 0, 4) == date[..a];
    assert Slice(date, 4, 6) == date[a..b];
    assert Slice(date, 6, 8) == date[b..n];
    assert date[..n] == date[..a] + date[a..b] + date[b..n];
  }

  /** `description.split('\n')[0]`: the description up to its first line break. */
  function DescriptionField(description: string): string
  {
    Split(description, "\n")[0]
  }

  /** The description field is the text before the first line break: a prefix of
      the description with no line break in it, which is either the whole
      description or followed by a line break. */
  lemma DescriptionFirstLine(description: string)
    ensures var d := DescriptionField(description);
            |d| <= |description| && d == description[..|d|]
            && '\n' !in d
            && (d == description || description[|d|] == '\n')
  {
    var d := DescriptionField(description);
    SplitFirst(description, "\n");
    if '\n' in d {
      var j :| 0 <= j < |d| && d[j] == '\n';
      OccursChar(d, '\n', j);
      assert false;
    }
    if d != description {
      OccursChar(description, '\n', |d|);
    }
  }
}
