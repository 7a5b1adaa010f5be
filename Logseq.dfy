/** The Logseq side of yt2logseq/logseq.py: reading and writing the `topic::`
    property line, and turning a summary into indented Logseq bullets with
    YouTube timestamp macros. */
module Logseq {
  import opened Wrappers
  import opened PyStr
  import Srt

  /** `parse_topics_line` fails when the line has no `::`: `split("::")[1]` is out of range. */
  datatype ParseError = IndexError

  const Brackets: set<char> := {'[', ']'}

  /** Neither end of `t` is a bracket. */
  predicate Unbracketed(t: string)
  {
    t == [] || (t[0] !in Brackets && t[|t| - 1] !in Brackets)
  }

  /** One topic value: `value.strip().strip("[]")`. */
  function CleanTopic(value: string): (t: string)
    ensures Unbracketed(t)
  {
    Strip(Strip(value, Whitespace), Brackets)
  }

  /** `parse_topics_line(line)`: the text after the first `::` (up to a second one),
      stripped, split at every comma, each piece cleaned of spaces and brackets.
      No value begins or ends with a bracket. */
  function ParseTopicsLine(line: string): (r: Result<seq<string>, ParseError>)
    ensures r.Success? ==> forall i :: 0 <= i < |r.value| ==>
              Unbracketed(r.value[i])
  {
    var parts := Split(line, "::");
    if |parts| < 2 then Failure(IndexError)
    else
      Success(CleanAll(Split(Strip(parts[1], Whitespace), ",")))
  }

  /** `value.strip().strip("[]")` for every piece, in order. */
  function CleanAll(values: seq<string>): (ts: seq<string>)
    ensures |ts| == |values|
    ensures forall i :: 0 <= i < |ts| ==> Unbracketed(ts[i])
  {
    seq(|values|, i requires 0 <= i < |values| => CleanTopic(values[i]))
  }

  /** Each topic as a page reference `[[t]]`. */
  function Bracketed(topics: seq<string>): seq<string>
  {
    seq(|topics|, i requires 0 <= i < |topics| => "[[" + topics[i] + "]]")
  }

  /** The property line written for a list of topics: `topic:: [[a]], [[b]]`. */
  function TopicsProperty(topics: seq<string>): string
  {
    "topic:: " + Join(", ", Bracketed(topics))
  }

  /** The topic line of `generate_logseq_page`: present whenever the metadata has a
      `topics` entry (`Some`), even an empty one; empty otherwise. */
  function TopicsLine(topics: Option<seq<string>>): (line: string)
    ensures topics.None? ==> line == ""
    ensures topics.Some? ==> |line| >= 8 && line[..8] == "topic:: "
  {
    match topics
    case None => ""
    case Some(ts) => TopicsProperty(ts)
  }

  /** A topic that survives being written and read back: no comma, no `::`, and no
      bracket at either end. */
  ghost predicate PlainTopic(t: string)
  {
    ',' !in t && !Contains(t, "::") && Unbracketed(t)
  }

  lemma DoubleColonAt(s: string, i: nat)
    ensures Occurs(s, "::", i) <==> i + 1 < |s| && s[i] == ':' && s[i + 1] == ':'
  {
    if i + 1 < |s| {
      assert s[i..i + 2] == [s[i], s[i + 1]];
    }
  }

  /** A string without a colon has no `::`. */
  lemma NoColon(s: string)
    requires ':' !in s
    ensures !Contains(s, "::")
  {
    forall i: nat ensures !Occurs(s, "::", i) {
      DoubleColonAt(s, i);
    }
  }

  /** Joining two strings without `::` makes no `::` unless a colon ends the first
      and another begins the second. */
  lemma NoDoubleColonConcat(a: string, b: string)
    requires !Contains(a, "::") && !Contains(b, "::")
    requires a == [] || b == [] || a[|a| - 1] != ':' || b[0] != ':'
    ensures !Contains(a + b, "::")
  {
    var s := a + b;
    forall i: nat ensures !Occurs(s, "::", i) {
      DoubleColonAt(s, i);
      if i + 1 < |s| {
        if i + 1 < |a| {
          DoubleColonAt(a, i);
          assert s[i] == a[i] && s[i + 1] == a[i + 1];
        } else if i >= |a| {
          DoubleColonAt(b, i - |a|);
          assert s[i] == b[i - |a|] && s[i + 1] == b[i + 1 - |a|];
        }
      }
    }
  }

  /** The written topic list starts with `[`, ends with `]` and has no `::`. */
  lemma {:induction false} JoinedTopicsShape(topics: seq<string>)
    requires |topics| >= 1
    requires forall i :: 0 <= i < |topics| ==> PlainTopic(topics[i])
    ensures var body := Join(", ", Bracketed(topics));
            |body| >= 4 && body[0] == '[' && body[|body| - 1] == ']' && !Contains(body, "::")
    decreases |topics|
  {
    var t := topics[0];
    NoColon("[[");
    NoColon("]]");
    NoColon(", ");
    var first := "[[" + t + "]]";
    NoDoubleColonConcat("[[", t);
    NoDoubleColonConcat("[[" + t, "]]");
    assert Bracketed(topics)[0] == first;
    if |topics| >= 2 {
      assert Bracketed(topics)[1..] == Bracketed(topics[1..]);
      JoinedTopicsShape(topics[1..]);
      var rest := Join(", ", Bracketed(topics[1..]));
      NoDoubleColonConcat(first, ", ");
      NoDoubleColonConcat(first + ", ", rest);
      assert Join(", ", Bracketed(topics)) == first + ", " + rest;
    }
  }

  /** A comma-separated list written with `", "` is the list of its pieces each but
      the first preceded by a space, written with `","`. */
  function SpaceEach(xs: seq<string>): seq<string>
  {
    seq(|xs|, i requires 0 <= i < |xs| => " " + xs[i])
  }

  lemma {:induction false} JoinSpaced(xs: seq<string>)
    requires |xs| >= 1
    ensures Join(",", SpaceEach(xs)) == " " + Join(", ", xs)
    decreases |xs|
  {
    if |xs| >= 2 {
      assert SpaceEach(xs)[1..] == SpaceEach(xs[1..]);
      JoinSpaced(xs[1..]);
    }
  }

  lemma CommaSpace(a: string, t: string)
    ensures a + ", " + t == a + "," + (" " + t)
  {
    assert ", " == "," + " ";
  }

  lemma CommaSpaceJoin(xs: seq<string>)
    requires |xs| >= 1
    ensures Join(", ", xs) == Join(",", [xs[0]] + SpaceEach(xs[1..]))
  {
    var pieces := [xs[0]] + SpaceEach(xs[1..]);
    if |xs| >= 2 {
      var tail := Join(", ", xs[1..]);
      JoinSpaced(xs[1..]);
      assert pieces[1..] == SpaceEach(xs[1..]);
      assert Join(",", pieces) == xs[0] + "," + (" " + tail);
      CommaSpace(xs[0], tail);
    } else {
      assert pieces == [xs[0]];
    }
  }

  lemma StripSpaceBracketed(t: string, lead: string)
    requires lead == "" || lead == " "
    ensures Strip(lead + "[[" + t + "]]", Whitespace) == "[[" + t + "]]"
  {
    var b := "[[" + t + "]]";
    assert lead + "[[" + t + "]]" == lead + b;
    assert ' ' in Whitespace && '[' !in Whitespace && ']' !in Whitespace;
    StripFramed(lead, b, Whitespace);
  }

  lemma StripEmptyBrackets()
    ensures Strip("[[]]", Brackets) == ""
  {
    assert TrimLeft("[[]]", Brackets) == TrimLeft("]]", Brackets) == TrimLeft("", Brackets);
  }

  lemma StripBracketsAround(t: string)
    requires t != [] && t[0] !in Brackets && t[|t| - 1] !in Brackets
    ensures Strip("[[" + t + "]]", Brackets) == t
  {
    var b := "[[" + t + "]]";
    assert TrimLeft(b, Brackets) == t + "]]" by {
      assert b == "[[" + (t + "]]");
      TrimLeftPrefix("[[", t + "]]", Brackets);
      TrimLeftStop(t + "]]", Brackets);
    }
    assert TrimRight(t + "]]", Brackets) == t by {
      TrimRightSuffix(t, "]]", Brackets);
      TrimRightStop(t, Brackets);
    }
  }

  lemma StripBrackets(t: string)
    requires Unbracketed(t)
    ensures Strip("[[" + t + "]]", Brackets) == t
  {
    if t == [] {
      assert "[[" + t + "]]" == "[[]]";
      StripEmptyBrackets();
    } else {
      StripBracketsAround(t);
    }
  }

  /** Cleaning `[[t]]`, with or without the space that follows a comma, gives `t`. */
  lemma CleanBracketed(t: string, lead: string)
    requires lead == "" || lead == " "
    requires Unbracketed(t)
    ensures CleanTopic(lead + "[[" + t + "]]") == t
  {
    StripSpaceBracketed(t, lead);
    StripBrackets(t);
  }

  /** `"topic::" + rest` splits at its only `::`. */
  lemma SplitTopicLine(rest: string)
    requires !Contains(rest, "::") && (rest == [] || rest[0] != ':')
    ensures Split("topic::" + rest, "::") == ["topic", rest]
  {
    var line := "topic::" + rest;
    forall j: nat | j < 5 ensures !Occurs(line, "::", j) {
      DoubleColonAt(line, j);
    }
    DoubleColonAt(line, 5);
    match IndexFrom(line, "::", 0)
    case None =>
      assert false;
    case Some(i) =>
      assert i == 5;
      assert line[..5] == "topic";
      assert line[7..] == rest;
      match IndexFrom(rest, "::", 0)
      case None =>
      case Some(_) =>
        assert false;
  }

  /** The pieces a written topic list splits into at its commas. */
  function Pieces(topics: seq<string>): seq<string>
    requires |topics| >= 1
  {
    var bs := Bracketed(topics);
    [bs[0]] + SpaceEach(bs[1..])
  }

  lemma PieceAt(topics: seq<string>, k: nat)
    requires |topics| >= 1 && k < |topics|
    ensures |Pieces(topics)| == |topics|
    ensures Pieces(topics)[k] == (if k == 0 then "" else " ") + "[[" + topics[k] + "]]"
  {
    if k > 0 {
      assert Pieces(topics)[k] == SpaceEach(Bracketed(topics)[1..])[k - 1];
    }
  }

  lemma PiecesSplit(topics: seq<string>)
    requires |topics| >= 1
    requires forall i :: 0 <= i < |topics| ==> PlainTopic(topics[i])
    ensures Split(Join(", ", Bracketed(topics)), ",") == Pieces(topics)
  {
    var pieces := Pieces(topics);
    CommaSpaceJoin(Bracketed(topics));
    PieceAt(topics, 0);
    forall k | 0 <= k < |pieces| ensures ',' !in pieces[k] {
      PieceAt(topics, k);
      assert ',' !in topics[k];
    }
    SplitJoin(pieces, ',');
  }

  lemma PiecesClean(topics: seq<string>)
    requires |topics| >= 1
    requires forall i :: 0 <= i < |topics| ==> PlainTopic(topics[i])
    ensures CleanAll(Pieces(topics)) == topics
  {
    PieceAt(topics, 0);
    forall k | 0 <= k < |topics| ensures CleanTopic(Pieces(topics)[k]) == topics[k] {
      PieceAt(topics, k);
      CleanBracketed(topics[k], if k == 0 then "" else " ");
    }
  }

  /** `strip()` removes the space after `topic::` and nothing of a `[...]` body. */
  lemma StripSpaced(body: string)
    requires |body| >= 2 && body[0] == '[' && body[|body| - 1] == ']'
    ensures Strip(" " + body, Whitespace) == body
  {
    assert ' ' in Whitespace && '[' !in Whitespace && ']' !in Whitespace;
    StripFramed(" ", body, Whitespace);
  }

  /** Round trip: reading back the topic line written for a non-empty list of plain
      topics gives the list back. */
  lemma TopicsRoundTrip(topics: seq<string>)
    requires |topics| >= 1
    requires forall i :: 0 <= i < |topics| ==> PlainTopic(topics[i])
    ensures ParseTopicsLine(TopicsProperty(topics)) == Success(topics)
  {
    var body := Join(", ", Bracketed(topics));
    var line := TopicsProperty(topics);
    JoinedTopicsShape(topics);
    assert Split(line, "::") == ["topic", " " + body] by {
      NoDoubleColonConcat(" ", body);
      assert line == "topic::" + (" " + body);
      SplitTopicLine(" " + body);
    }
    StripSpaced(body);
    PiecesSplit(topics);
    PiecesClean(topics);
  }

  /** An empty topic list still writes `topic:: `, which reads back as one empty topic. */
  lemma StripBlank()
    ensures Strip(" ", Whitespace) == ""
  {
    assert ' ' in Whitespace && '[' !in Whitespace && ']' !in Whitespace;
    StripAll(" ", Whitespace);
  }

  lemma EmptyTopicsReadBack()
    ensures TopicsLine(Some([])) == "topic:: "
    ensures ParseTopicsLine(TopicsLine(Some([]))) == Success([""])
  {
    assert TopicsLine(Some([])) == "topic:: " by {
      assert Bracketed([]) == [];
    }
    ParseBlankTopics();
  }

  lemma ParseBlankTopics()
    ensures ParseTopicsLine("topic:: ") == Success([""])
  {
    var parts := Split("topic:: ", "::");
    assert parts == ["topic", " "] by {
      assert "topic:: " == "topic::" + " ";
      SplitTopicLine(" ");
    }
    StripBlank();
    var pieces := Split(Strip(parts[1], Whitespace), ",");
    assert pieces == [""] by {
      SplitWithoutChar("", ',');
    }
    assert CleanAll(pieces) == [""] by {
      StripAll("", Whitespace);
      StripAll("", Brackets);
      assert CleanTopic("") == "";
    }
  }

  /** The line has no `::` exactly when `parse_topics_line` fails. */
  lemma ParseTopicsLineFails(line: string)
    ensures ParseTopicsLine(line).Failure? <==> !Contains(line, "::")
  {
    match IndexFrom(line, "::", 0)
    case None =>
    case Some(i) =>
      assert Occurs(line, "::", i);
  }

  /** For a line with `::`, `parse_topics_line` yields one value per comma of the
      segment after the first `::` (up to a second one), plus one, in order, each
      the cleaned piece of that segment. */
  lemma ParseTopicsLineValues(line: string)
    requires Contains(line, "::")
    ensures var segment := Split(line, "::")[1];
            var pieces := Split(Strip(segment, Whitespace), ",");
            ParseTopicsLine(line).Success?
            && |ParseTopicsLine(line).value| == Count(segment, ',') + 1
            && forall i :: 0 <= i < |pieces| ==> ParseTopicsLine(line).value[i] == CleanTopic(pieces[i])
  {
    ParseTopicsLineFails(line);
    var segment := Split(line, "::")[1];
    SplitCount(Strip(segment, Whitespace), ',');
    StripCount(segment, Whitespace, ',');
  }

  // ---------------------------------------------------------------------------
  // format_timestamps

  /** `n` spaces. */
  function Spaces(n: nat): (r: string)
    ensures |r| == n
  {
    seq(n, _ => ' ')
  }

  /** `re.sub("^ *- *", "", text)`: the pattern is anchored at the start, so at most
      one marker goes, together with the spaces on both sides of it. */
  function StripListMarker(text: string): (r: string)
    ensures |r| <= |text| && r == text[|text| - |r|..]
  {
    var rest := TrimLeft(text, {' '});
    if rest != [] && rest[0] == '-' then TrimLeft(rest[1..], {' '}) else text
  }

  /** `lstrip(" ")` removes a run of spaces. */
  lemma TrimSpaces(s: string)
    ensures var r := TrimLeft(s, {' '});
            s == Spaces(|s| - |r|) + r && (r == [] || r[0] != ' ')
  {
    var r := TrimLeft(s, {' '});
    var d := s[..|s| - |r|];
    assert forall i :: 0 <= i < |d| ==> d[i] == ' ' by {
      assert forall i :: 0 <= i < |d| ==> d[i] == s[i] && s[i] in {' '};
    }
    assert d == Spaces(|d|);
    assert s == d + r;
  }

  lemma SpacesBeforeDash(k: nat, rest: string)
    requires rest != [] && rest[0] == '-'
    ensures TrimLeft(Spaces(k) + rest, {' '}) == rest
  {
    TrimLeftPrefix(Spaces(k), rest, {' '});
    TrimLeftStop(rest, {' '});
  }

  lemma StripMarkerOf(k: nat, tail: string)
    ensures StripListMarker(Spaces(k) + "-" + tail) == TrimLeft(tail, {' '})
  {
    var rest := "-" + tail;
    assert Spaces(k) + "-" + tail == Spaces(k) + rest;
    SpacesBeforeDash(k, rest);
    assert rest[1..] == tail;
  }

  /** Text made of `k` spaces, a dash and more loses the spaces, the dash and the
      run of spaces after it, and nothing else: what is left does not start with a
      space. */
  lemma MarkerRemoved(text: string, k: nat)
    requires k < |text| && text[..k] == Spaces(k) && text[k] == '-'
    ensures var r := StripListMarker(text);
            var b := |text| - |r| - k - 1;
            b >= 0 && text == Spaces(k) + "-" + Spaces(b) + r && (r == [] || r[0] != ' ')
  {
    var tail := text[k + 1..];
    assert text == Spaces(k) + "-" + tail by {
      assert text == text[..k] + [text[k]] + tail;
    }
    var r := TrimLeft(tail, {' '});
    assert StripListMarker(text) == r by {
      StripMarkerOf(k, tail);
    }
    assert tail == Spaces(|tail| - |r|) + r && (r == [] || r[0] != ' ') by {
      TrimSpaces(tail);
    }
    assert |text| - |r| - k - 1 == |tail| - |r|;
    AppendAssoc(Spaces(k) + "-", Spaces(|tail| - |r|), r);
  }

  lemma AppendAssoc(a: string, b: string, c: string)
    ensures a + (b + c) == a + b + c
  {
  }

  /** Text that does not start with spaces and a dash is left as it is. */
  lemma NoMarkerUnchanged(text: string)
    requires forall k :: 0 <= k < |text| && text[..k] == Spaces(k) ==> text[k] != '-'
    ensures StripListMarker(text) == text
  {
    var rest := TrimLeft(text, {' '});
    var k := |text| - |rest|;
    TrimSpaces(text);
    if rest != [] {
      assert text[..k] == Spaces(k);
      assert text[k] == rest[0];
    }
  }

  /** The digit character for `d`. */
  function DigitChar(d: nat): (c: char)
    requires d < 10
    ensures '0' <= c <= '9'
  {
    (48 + d) as char
  }

  /** `d` as two decimal digits, zero-padded, as `%H`, `%M` and `%S` print it. */
  function Pad2(d: nat): (r: string)
    requires d < 100
    ensures |r| == 2
  {
    [DigitChar(d / 10), DigitChar(d % 10)]
  }

  /** `time.strftime('%H:%M:%S')`: hours, minutes and seconds, no fraction. */
  function Hms(t: Srt.Time): (r: string)
    ensures |r| == 8 && r[2] == ':' && r[5] == ':'
  {
    Pad2(t.hour) + ":" + Pad2(t.minute) + ":" + Pad2(t.second)
  }

  /** The value of a decimal digit character. */
  function DigitValue(c: char): Option<nat>
  {
    if '0' <= c <= '9' then Some(c as int - 48) else None
  }

  /** The value of two decimal digit characters. */
  function TwoDigits(a: char, b: char): Option<nat>
  {
    match (DigitValue(a), DigitValue(b))
    case (Some(x), Some(y)) => Some(10 * x + y)
    case _ => None
  }

  /** Reads `HH:MM:SS` back into hours, minutes and seconds. */
  function ParseHms(s: string): Option<(nat, nat, nat)>
  {
    if |s| != 8 || s[2] != ':' || s[5] != ':' then None
    else
      match (TwoDigits(s[0], s[1]), TwoDigits(s[3], s[4]), TwoDigits(s[6], s[7]))
      case (Some(h), Some(m), Some(sec)) => Some((h, m, sec))
      case _ => None
  }

  lemma Pad2RoundTrip(d: nat)
    requires d < 100
    ensures TwoDigits(Pad2(d)[0], Pad2(d)[1]) == Some(d)
  {
  }

  /** Round trip: the clock text of a time reads back as its hours, minutes and
      seconds; the microseconds are dropped. */
  lemma HmsRoundTrip(t: Srt.Time)
    ensures ParseHms(Hms(t)) == Some((t.hour, t.minute, t.second))
  {
    var r := Hms(t);
    Pad2RoundTrip(t.hour);
    Pad2RoundTrip(t.minute);
    Pad2RoundTrip(t.second);
    assert r[0] == Pad2(t.hour)[0] && r[1] == Pad2(t.hour)[1];
    assert r[3] == Pad2(t.minute)[0] && r[4] == Pad2(t.minute)[1];
    assert r[6] == Pad2(t.second)[0] && r[7] == Pad2(t.second)[1];
  }

  /** The indentation and bullet every summary line gets. */
  const Indent: string := "        - "

  /** The opening of Logseq's YouTube timestamp macro. */
  const TimestampTag: string := "{{youtube-timestamp "

  /** One rendered summary line, for the time and marker-free text of a line. */
  function FormatLine(time: Option<Srt.Time>, text: string): (line: string)
    ensures |line| >= |Indent| && line[..|Indent|] == Indent
  {
    match time
    case Some(t) => Indent + TimestampTag + Hms(t) + "}} " + text
    case None => Indent + text
  }

  /** The hours, minutes and seconds of an optional time. */
  function Clock(time: Option<Srt.Time>): Option<(nat, nat, nat)>
  {
    match time
    case Some(t) => Some((t.hour, t.minute, t.second))
    case None => None
  }

  /** Reads a rendered summary line back into its clock time, if it carries the
      timestamp macro, and its text; `None` for a line without the bullet. */
  function ReadBullet(line: string): Option<(Option<(nat, nat, nat)>, string)>
  {
    if |line| < |Indent| || line[..|Indent|] != Indent then None
    else
      var body := line[|Indent|..];
      if |body| >= 31 && body[..20] == TimestampTag && body[28..31] == "}} " && ParseHms(body[20..28]).Some? then
        Some((ParseHms(body[20..28]), body[31..]))
      else
        Some((None, body))
  }

  /** Round trip: a rendered line reads back as the clock time and the text it was
      made of, as long as a line without a time does not itself begin with the
      timestamp macro. */
  lemma FormatLineRoundTrip(time: Option<Srt.Time>, text: string)
    requires time.None? ==> !HasTimestampTag(text)
    ensures ReadBullet(FormatLine(time, text)) == Some((Clock(time), text))
  {
    var line := FormatLine(time, text);
    var body := line[|Indent|..];
    match time
    case Some(t) =>
      assert body == TimestampTag + Hms(t) + "}} " + text;
      assert body[..20] == TimestampTag;
      assert body[20..28] == Hms(t);
      assert body[28..31] == "}} ";
      assert body[31..] == text;
      HmsRoundTrip(t);
    case None =>
      assert body == text;
  }

  /** Why the read-back needs its condition: an untimed line whose text begins with
      the macro renders exactly as a timed line. */
  lemma FormatLineCollision()
    ensures FormatLine(None, TimestampTag + "01:02:03}} x")
            == FormatLine(Some(Srt.TimeOfDay(1, 2, 3, 0)), "x")
  {
    assert Hms(Srt.TimeOfDay(1, 2, 3, 0)) == "01:02:03";
  }

  /** `format_timestamps(summary)`: one rendered line per line of the summary, the
      time and text of each coming from `extract` (`extract_timestamp`). */
  function FormatTimestamps(summary: string, extract: string -> (Option<Srt.Time>, string)): seq<string>
  {
    RenderLines(Split(summary, "\n"), extract)
  }

  function RenderLines(lines: seq<string>, extract: string -> (Option<Srt.Time>, string)): (out: seq<string>)
    ensures |out| == |lines|
  {
    seq(|lines|, k requires 0 <= k < |lines| => FormatLine(extract(lines[k]).0, StripListMarker(extract(lines[k]).1)))
  }

  /** `format_timestamps` yields one line per `\n`-separated line of the summary,
      in order; each is the bullet for that line's time and its text without the
      list marker, and so begins with the indented bullet. */
  lemma FormatTimestampsLines(summary: string, extract: string -> (Option<Srt.Time>, string))
    ensures var lines := Split(summary, "\n");
            var out := FormatTimestamps(summary, extract);
            |out| == Count(summary, '\n') + 1
            && forall k :: 0 <= k < |out| ==>
                 var (time, text) := (extract(lines[k]).0, StripListMarker(extract(lines[k]).1));
                 out[k][..|Indent|] == Indent
                 && (time.Some? || !HasTimestampTag(text) ==> ReadBullet(out[k]) == Some((Clock(time), text)))
  {
    SplitCount(summary, '\n');
    var lines := Split(summary, "\n");
    var out := FormatTimestamps(summary, extract);
    forall k | 0 <= k < |out|
      ensures var (time, text) := (extract(lines[k]).0, StripListMarker(extract(lines[k]).1));
              out[k][..|Indent|] == Indent
              && (time.Some? || !HasTimestampTag(text) ==> ReadBullet(out[k]) == Some((Clock(time), text)))
    {
      var time := extract(lines[k]).0;
      var text := StripListMarker(extract(lines[k]).1);
      assert out[k] == FormatLine(time, text);
      if time.Some? || !HasTimestampTag(text) {
        FormatLineRoundTrip(time, text);
      }
    }
  }

  /** `text` begins with the timestamp macro's opening. */
  predicate HasTimestampTag(text: string)
  {
    |text| >= 20 && text[..20] == TimestampTag
  }

  /** The summary section of the page: the rendered lines joined with `\n`. */
  function SummarySection(summary: string, extract: string -> (Option<Srt.Time>, string)): string
  {
    Join("\n", FormatTimestamps(summary, extract))
  }

  lemma HmsNoNewline(t: Srt.Time)
    ensures '\n' !in Hms(t)
  {
    var r := Hms(t);
    assert r == [Pad2(t.hour)[0], Pad2(t.hour)[1], ':', Pad2(t.minute)[0], Pad2(t.minute)[1], ':',
                 Pad2(t.second)[0], Pad2(t.second)[1]];
  }

  /** A rendered line holds a line break only if its text does. */
  lemma FormatLineNoNewline(time: Option<Srt.Time>, text: string)
    requires '\n' !in text
    ensures '\n' !in FormatLine(time, text)
  {
    match time
    case Some(t) =>
      HmsNoNewline(t);
      assert FormatLine(time, text) == Indent + TimestampTag + Hms(t) + "}} " + text;
    case None =>
  }

  /** The summary section splits back into the rendered lines, one per line of the
      summary, as long as `extract` puts no line break into the text of a line. */
  lemma SummarySectionLines(summary: string, extract: string -> (Option<Srt.Time>, string))
    requires NoBreakAdded(Split(summary, "\n"), extract)
    ensures Split(SummarySection(summary, extract), "\n") == FormatTimestamps(summary, extract)
    ensures |Split(SummarySection(summary, extract), "\n")| == Count(summary, '\n') + 1
  {
    RenderedWithoutNewline(Split(summary, "\n"), extract);
    SplitCount(summary, '\n');
    SplitJoin(FormatTimestamps(summary, extract), '\n');
  }

  /** `extract` leaves the text of every line free of line breaks. */
  predicate NoBreakAdded(lines: seq<string>, extract: string -> (Option<Srt.Time>, string))
  {
    forall k :: 0 <= k < |lines| ==> '\n' !in extract(lines[k]).1
  }

  lemma RenderedWithoutNewline(lines: seq<string>, extract: string -> (Option<Srt.Time>, string))
    requires NoBreakAdded(lines, extract)
    ensures forall k :: 0 <= k < |lines| ==> '\n' !in RenderLines(lines, extract)[k]
  {
    forall k | 0 <= k < |lines| ensures '\n' !in RenderLines(lines, extract)[k] {
      var text := extract(lines[k]).1;
      var stripped := StripListMarker(text);
      assert '\n' !in stripped;
      FormatLineNoNewline(extract(lines[k]).0, stripped);
    }
  }
}
