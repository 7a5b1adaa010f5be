# yt2logseq, modelled in Dafny

yt2logseq turns a YouTube video into a Logseq page. This project models the logic around the language-model and download plumbing, and proves properties of it.

- **Subtitle chunker** (`Srt.dfy`). `StampedSRTLoader.load` of `yt2logseq/srt.py` packs consecutive subtitle cues into chunks ("documents"). Each cue text is followed by one space. A chunk closes when adding the next cue's text would make it longer than `chunk_size` characters. Each chunk carries:
  - the source path;
  - a start time: the start of its first cue, or of the file's first cue for the first chunk;
  - an end time: the end of the cue that closed it, or of the last cue for the final chunk.

  `Load` is a method of the class `StampedSRTLoader`, with the loop of the source. It is proved equal to the specification function `Documents`. `Documents` is built on `Groups`, a greedy partition of the cues. The proved facts about `Groups` and `Documents`:
  - it is the only greedy partition;
  - concatenating the chunks gives back every cue text in order;
  - the size bound;
  - oversized cues stand alone;
  - only the first chunk can be empty;
  - the start and end times;
  - the number of chunks.
- **Logseq formatting** (`Logseq.dfy`), from `yt2logseq/logseq.py`:
  - `parse_topics_line`, and the `topic::` property line written by `generate_logseq_page`, with a round trip between them;
  - `format_timestamps`: list-marker removal (`re.sub("^ *- *", "", text)`), `HH:MM:SS` rendering, and the indented bullet with the YouTube timestamp macro. Each rendered line reads back as its time and text, unless a line with no time has text that begins with `{{youtube-timestamp `.
  - the summary section, which is the rendered lines joined with `\n`.
- **Page fields of `yt2logseq/main.py`** (`MainPage.dfy`):
  - the topic line, empty when `topics` is `None` or empty;
  - the `YYYYMMDD` to `YYYY-MM-DD` date;
  - the first line of the description.

  `parse_topics_line` in main.py is the same function as in logseq.py. It is modelled once, as `Logseq.ParseTopicsLine`.
- **Python string operations** (`PyStr.dfy`): `str.split`, `str.join`, `str.strip`/`lstrip`/`rstrip` with a character set, slicing with clamped bounds, and `str.count` for one character. `Wrappers.dfy` holds `Option` and `Result`.

Code and documentation disagree in three places. The model follows the code:

- `load` measures chunk size in characters (`len`), although its docstring speaks of tokens.
- A closed chunk's end time is the end of the cue that overflowed it. That cue is the first cue of the *next* chunk.
- For an empty subtitle file, `load` raises at `parsed_info[0]`. It does not return `[]`, because the `except UnboundLocalError` branch is unreachable. The model returns `Failure(IndexError)`.

## Model

| member | source | states |
|---|---|---|
| Srt.StampedSRTLoader.constructor | yt2logseq/srt.py:10-12 | the loader remembers the file path it was given |
| Srt.StampedSRTLoader.Load | yt2logseq/srt.py:14-48 | an empty cue list fails with IndexError; otherwise the loop returns exactly `Documents(filePath, cues, chunkSize)` |
| Srt.GroupFrom | yt2logseq/srt.py:28-38 | there is always at least one group; the group being filled continues as the first group; every group after the first is non-empty |
| Srt.CloseStep | yt2logseq/srt.py:29-37 | when a cue overflows, the chunk being filled is the next document: its text, its start and the overflowing cue's end; the cue starts the next group |
| Srt.ExtendStep | yt2logseq/srt.py:38 | a cue that fits joins the group being filled, and the chunk text grows by the cue's text and one space |
| Srt.FinalStep | yt2logseq/srt.py:39-46 | after the loop, the chunk being filled is the last document and ends at the last cue's end |
| Srt.LoopState | yt2logseq/srt.py:28-38 | after `i` cues, the closed chunks are the first `Overflowed(i)` groups, and the rest follow from the pending cues |
| Srt.GroupFromFlatten | yt2logseq/srt.py:28-38 | the groups, concatenated, are the pending cues followed by the remaining cues: nothing is lost, repeated or reordered |
| Srt.ContentsPartition | yt2logseq/srt.py:28-45 | concatenating the page contents of all chunks gives each cue's text followed by one space, in order |
| Srt.GroupsAreGreedy | yt2logseq/srt.py:29-38 | a partition of the cues is the one `load` makes if and only if every group fits greedily and each next group's first cue overflows the group before it |
| Srt.ChunkBoundaries | yt2logseq/srt.py:26-45 | chunk `k` holds the consecutive cues from `at` to `next`, with the source path; it starts at its first cue's start, or at the first cue for the first chunk; a non-final chunk ends at the end of the next chunk's first cue, and the final chunk at the last cue's end |
| Srt.ChunkSizeBound | yt2logseq/srt.py:29-38 | a chunk of two or more cues, or a non-empty first chunk, is at most `chunk_size + 1` characters long |
| Srt.OversizedCueAlone | yt2logseq/srt.py:29-38 | a cue longer than `chunk_size` forms a group of its own, positioned at its index |
| Srt.EmptyChunks | yt2logseq/srt.py:25-37 | only the first chunk can be empty, and it is empty exactly when the first cue's text is longer than `chunk_size` |
| Srt.ChunkCount | yt2logseq/srt.py:29-45 | the number of chunks is one more than the number of cues for which the overflow test fired |
| PyStr.TrimLeft | yt2logseq/logseq.py:34 | `lstrip`: the result is a suffix, everything dropped is in the set, and the result does not begin with a character of the set |
| PyStr.TrimRight | yt2logseq/logseq.py:15 | `rstrip`: the result is a prefix, everything dropped is in the set, and the result does not end with a character of the set |
| PyStr.Strip | yt2logseq/logseq.py:15 | `strip`: the result neither begins nor ends with a character of the set |
| PyStr.StripSlice | yt2logseq/logseq.py:13-15 | `strip` keeps one contiguous slice of the string and removes only characters of the set, before and after it |
| PyStr.IndexFrom | yt2logseq/logseq.py:13 | `str.find`: the result is the first occurrence of the separator at or after `from`, and `None` only when there is none |
| PyStr.Split | yt2logseq/logseq.py:13 | `str.split` always yields at least one part |
| PyStr.JoinSplit | yt2logseq/logseq.py:63 | joining the parts of a split with the same separator gives back the string |
| PyStr.SplitJoin | yt2logseq/logseq.py:14 | splitting a join of at least one part, none containing the separator character, gives back the parts (`Join` of no parts is `""`, which splits to `[""]`) |
| PyStr.SplitCount | yt2logseq/logseq.py:32 | splitting at a character gives one part more than the character occurs |
| PyStr.SplitFirst | yt2logseq/main.py:169 | the first part of a split is a prefix without the separator, and it is either the whole string or followed by the separator |
| PyStr.StripCount | yt2logseq/logseq.py:13-14 | stripping characters other than `c` keeps the number of `c`s |
| PyStr.Slice | yt2logseq/main.py:174 | a slice is no longer than the string |
| Logseq.CleanTopic | yt2logseq/logseq.py:15 | `value.strip().strip("[]")` neither begins nor ends with a bracket |
| Logseq.ParseTopicsLine | yt2logseq/logseq.py:10-15 | no value parsed from a topic line begins or ends with a bracket (main.py:28-33 is the same function) |
| Logseq.CleanAll | yt2logseq/logseq.py:14-15 | one cleaned value per piece, none beginning or ending with a bracket |
| Logseq.ParseTopicsLineFails | yt2logseq/logseq.py:13 | parsing fails if and only if the line has no `::`, where `split("::")[1]` is out of range (also main.py:31) |
| Logseq.ParseTopicsLineValues | yt2logseq/logseq.py:13-15 | a line with `::` yields one value more than the commas in the segment between the first and the second `::` (or the end of the line), in order, each the cleaned piece (also main.py:31-33) |
| Logseq.TopicsLine | yt2logseq/logseq.py:42-45 | the line is empty when the metadata has no `topics`, and otherwise begins with `topic:: `, even for an empty list |
| Logseq.JoinedTopicsShape | yt2logseq/logseq.py:43 | for at least one topic, none with a comma, `::` or a bracket at either end, the joined `[[t]]` list begins with `[`, ends with `]` and has no `::` |
| Logseq.SplitTopicLine | yt2logseq/logseq.py:13 | `topic::` followed by a rest with no `::` and no leading `:` splits at `::` into exactly the key and that rest |
| Logseq.PiecesSplit | yt2logseq/logseq.py:14 | for topics with no comma, no `::` and no bracket at either end, the comma split of the written list gives one `[[t]]` piece per topic |
| Logseq.PiecesClean | yt2logseq/logseq.py:15 | for topics with no comma, no `::` and no bracket at either end, cleaning each piece gives back the topics |
| Logseq.CleanBracketed | yt2logseq/logseq.py:15 | cleaning ` [[t]]` or `[[t]]` gives back `t` when `t` has no bracket at either end |
| Logseq.TopicsRoundTrip | yt2logseq/logseq.py:43 | parsing the written topic line gives back exactly the topics, for topics without comma, `::` or a bracket at either end |
| Logseq.EmptyTopicsReadBack | yt2logseq/logseq.py:43 | an empty topic list writes `topic:: `, which reads back as one empty topic |
| Logseq.StripListMarker | yt2logseq/logseq.py:34 | the text without its marker is a suffix of the text |
| Logseq.MarkerRemoved | yt2logseq/logseq.py:34 | text that starts with spaces and `-` loses exactly those spaces, the `-` and the spaces after it; what is left does not begin with a space |
| Logseq.NoMarkerUnchanged | yt2logseq/logseq.py:34 | text that does not start with spaces followed by `-` is left unchanged |
| Logseq.StripMarkerOf | yt2logseq/logseq.py:34 | `k` spaces, `-` and a tail become the tail with its leading spaces removed |
| Logseq.TrimSpaces | yt2logseq/logseq.py:34 | the leading-space run removed is all spaces, and what is left does not begin with a space |
| Logseq.Hms | yt2logseq/logseq.py:36 | `strftime('%H:%M:%S')` is eight characters with colons at positions 2 and 5 |
| Logseq.Pad2RoundTrip | yt2logseq/logseq.py:36 | a zero-padded two-digit field reads back as its number |
| Logseq.HmsRoundTrip | yt2logseq/logseq.py:36 | the `HH:MM:SS` text reads back as the time's hour, minute and second |
| Logseq.FormatLine | yt2logseq/logseq.py:35-38 | every rendered line begins with eight spaces and `- ` |
| Logseq.FormatLineRoundTrip | yt2logseq/logseq.py:35-38 | a rendered line reads back as the clock time, if any, and the text it was made of, unless a line with no time has text that begins with `{{youtube-timestamp ` |
| Logseq.FormatLineCollision | yt2logseq/logseq.py:35-38 | an untimed line whose text begins with `{{youtube-timestamp 01:02:03}} ` renders the same as the line timed 01:02:03 with the rest of the text |
| Logseq.FormatLineNoNewline | yt2logseq/logseq.py:35-38 | rendering adds no line break |
| Logseq.RenderLines | yt2logseq/logseq.py:32-38 | one rendered line per input line |
| Logseq.FormatTimestampsLines | yt2logseq/logseq.py:30-38 | one output line per `\n`-separated summary line, in order; each begins with the indented bullet and reads back as that line's time and marker-free text |
| Logseq.SummarySectionLines | yt2logseq/logseq.py:63 | splitting the summary section at `\n` gives back exactly the rendered lines, one per summary line |
| MainPage.TopicsLine | yt2logseq/main.py:142-145 | the line is empty if and only if `topics` is `None` or empty, and otherwise begins with `topic:: ` |
| MainPage.TopicsLineRoundTrip | yt2logseq/main.py:28-33 | parsing a written topic line gives back the topics, for topics without comma, `::` or a bracket at either end |
| MainPage.PublishedDateLayout | yt2logseq/main.py:174 | an eight-character date becomes ten characters, with dashes at positions 4 and 7 and the date's characters around them in order |
| MainPage.PublishedDatePieces | yt2logseq/main.py:174 | for any length, the three slices together are the date's first eight characters (all of it if shorter), and the result is two characters longer |
| MainPage.DescriptionFirstLine | yt2logseq/main.py:169 | the description field is the text before the first line break: a prefix with no line break that is the whole description or is followed by one |

## Left out

- `pysrt.open` (yt2logseq/srt.py:24) and `.to_time()`: subtitle parsing belongs to a foreign library. `Load` takes the parsed cues as a parameter, and cue times are already `datetime.time` values (hour, minute, second, microsecond).
- `extract_timestamp` (yt2logseq/logseq.py:7, 33) is imported from `yt2logseq.srt`, which does not define it. It is a function parameter `extract` of the formatting functions, and nothing is assumed about it except by `Logseq.SummarySectionLines`, which requires that it adds no line break.
- `if time:` is read as "a time was extracted". A `datetime.time` is always truthy since Python 3.5.
- Logseq.FormatTimestampsLines and Logseq.FormatLineRoundTrip: the read-back holds only when a line with no time does not itself begin with `{{youtube-timestamp `. Such a line renders exactly as a timed line would, so no reader can tell them apart; `Logseq.FormatLineCollision` shows an instance.
- Logseq.SummarySectionLines: requires that `extract` adds no line break to the text it returns. `extract_timestamp` is not part of this model, so this cannot be shown.
- Logseq.TopicsRoundTrip and MainPage.TopicsLineRoundTrip: hold only for at least one topic with no comma, no `::` and no bracket at either end. Edge whitespace does not need excluding. An empty list reads back as `[""]`; `Logseq.EmptyTopicsReadBack` states this.
- `parse_topics_line` is a generator. The model returns the whole list, so lazy evaluation is not modelled.
- `gather_logseq_topics` (yt2logseq/logseq.py:18-28, yt2logseq/main.py:36-46) and `find_yt_dlp_file`: filesystem walking and file reading.
- `download_audio`, `extract_subtitles`, `assign_topics`, `generate_summary` and the `__main__` blocks: yt-dlp, whisper, transformers and language-model calls, and file I/O.
- yt2logseq/chains.py and yt2logseq/prompts.py are not part of this model. They hold language-model chain wiring and constant prompt text.
- The literal note templates of `generate_logseq_page`: their fixed text and the fields copied from the metadata are not modelled. Only the fields listed above are.
  - In yt2logseq/logseq.py:65-71 these are `title`, `description`, `author`, `language`, `publish_date` and `watch_url`, copied verbatim, plus the `', '.join` of `tags`.
  - In yt2logseq/main.py:168-175 these are `title`, `channel`, `language` and `original_url`, copied verbatim, plus the `', '.join` of `tags` and of `categories`.
- Logseq.TopicsLine: takes `Option<seq<string>>`, with `Some` for "the metadata has a `topics` key". A key that is present but holds `None` makes yt2logseq/logseq.py:43 raise `TypeError`; the model cannot express that case.
- Python's `str.strip()` with no argument strips Unicode whitespace. `PyStr.Whitespace` lists the characters `str.isspace` accepts, by code-point range.
