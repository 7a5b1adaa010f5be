/** The subtitle loader of yt2logseq/srt.py: it reads the cues of a `.srt`
    file and packs consecutive cue texts into chunks ("documents") that are
    summarised one at a time. Cue parsing belongs to the pysrt library and is
    not modelled: the loader is handed the parsed cues. */
module Srt {
  import opened Wrappers

  /** A `datetime.time` value, the result of pysrt's `to_time()`. */
  datatype TimeOfDay = TimeOfDay(hour: nat, minute: nat, second: nat, microsecond: nat)

  type Time = t: TimeOfDay | t.hour < 24 && t.minute < 60 && t.second < 60 && t.microsecond < 1000000
    witness TimeOfDay(0, 0, 0, 0)

  /** One subtitle: when it starts, when it ends, and what is said. */
  datatype Cue = Cue(start: Time, end: Time, text: string)

  /** The metadata attached to a chunk: the file it came from and its time span. */
  datatype Metadata = Metadata(source: string, start: Time, end: Time)

  /** A langchain `Document`: a chunk of subtitle text with its metadata. */
  datatype Document = Document(pageContent: string, metadata: Metadata)

  /** `load` raises before its loop when the file holds no subtitle. */
  datatype LoadError = IndexError

  /** The chunk text contributed by a run of cues: each text followed by one space. */
  function Spaced(cues: seq<Cue>): string
  {
    if cues == [] then "" else cues[0].text + " " + Spaced(cues[1..])
  }

  /** The concatenation of a sequence of sequences. */
  function Flatten<T>(xss: seq<seq<T>>): seq<T>
  {
    if xss == [] then [] else xss[0] + Flatten(xss[1..])
  }

  /** The grouping `load` makes, stated on cues rather than strings: `cur` is the
      group being filled; the next cue closes it when the group's text length plus
      the cue's text length exceeds `chunkSize`, and then starts the next group. */
  function GroupFrom(cues: seq<Cue>, chunkSize: int, cur: seq<Cue>): (gs: seq<seq<Cue>>)
    ensures |gs| >= 1
    ensures |cur| <= |gs[0]| && gs[0][..|cur|] == cur
    ensures forall k :: 1 <= k < |gs| ==> gs[k] != []
    decreases |cues|
  {
    if cues == [] then [cur]
    else if |Spaced(cur)| + |cues[0].text| > chunkSize then
      [cur] + GroupFrom(cues[1..], chunkSize, [cues[0]])
    else
      var gs := GroupFrom(cues[1..], chunkSize, cur + [cues[0]]);
      assert gs[0][..|cur|] == (gs[0][..|cur| + 1])[..|cur|];
      gs
  }

  /** The groups of cues behind the chunks, starting from an empty chunk. */
  function Groups(cues: seq<Cue>, chunkSize: int): seq<seq<Cue>>
  {
    GroupFrom(cues, chunkSize, [])
  }

  /** The documents `load` returns for a non-empty cue list: one per group, with
      the group's text; a chunk starts where its first cue starts (the first chunk
      where the first cue starts, even when it is empty), and ends where the cue
      that closed it ends, which is the first cue of the next chunk; the last chunk
      ends where the last cue ends. */
  function Documents(source: string, cues: seq<Cue>, chunkSize: int): seq<Document>
    requires cues != []
  {
    var gs := Groups(cues, chunkSize);
    seq(|gs|, k requires 0 <= k < |gs| =>
      Document(Spaced(gs[k]),
               Metadata(source,
                        if k == 0 then cues[0].start else gs[k][0].start,
                        if k + 1 < |gs| then gs[k + 1][0].end else cues[|cues| - 1].end)))
  }

  /** `StampedSRTLoader` of srt.py: it remembers the path of the subtitle file. */
  class StampedSRTLoader {
    const filePath: string

    constructor (filePath: string)
      ensures this.filePath == filePath
    {
      this.filePath := filePath;
    }

    /** `load(chunk_size)`, given the cues pysrt parsed from `filePath`. */
    method Load(cues: seq<Cue>, chunkSize: int := 512) returns (r: Result<seq<Document>, LoadError>)
      ensures cues == [] ==> r == Failure(IndexError)
      ensures cues != [] ==> r == Success(Documents(filePath, cues, chunkSize))
    {
      if |cues| == 0 {
        // parsed_info[0] raises before the loop starts
        return Failure(IndexError);
      }
      var currentChunk := "";
      var chunkStart := cues[0].start;
      var chunks: seq<Document> := [];
      ghost var docs := Documents(filePath, cues, chunkSize);
      ghost var gs := Groups(cues, chunkSize);
      ghost var closed: nat := 0;
      ghost var cur: seq<Cue> := [];
      for i := 0 to |cues|
        invariant closed < |gs| && gs[closed..] == GroupFrom(cues[i..], chunkSize, cur)
        invariant currentChunk == Spaced(cur)
        invariant closed > 0 ==> cur != [] && chunkStart == cur[0].start
        invariant closed == 0 ==> chunkStart == cues[0].start
        invariant chunks == docs[..closed]
      {
        var line := cues[i];
        if |currentChunk| + |line.text| > chunkSize {
          var metadata := Metadata(filePath, chunkStart, line.end);
          CloseStep(filePath, cues, chunkSize, i, closed, cur);
          chunks := chunks + [Document(currentChunk, metadata)];
          closed, cur := closed + 1, [line];
          currentChunk := "";
          chunkStart := line.start;
        } else {
          ExtendStep(cues, chunkSize, i, closed, cur);
          cur := cur + [line];
        }
        currentChunk := currentChunk + line.text + " ";
      }
      // the flush uses the end of the last cue
      var metadata := Metadata(filePath, chunkStart, cues[|cues| - 1].end);
      FinalStep(filePath, cues, chunkSize, closed, cur);
      chunks := chunks + [Document(currentChunk, metadata)];
      return Success(chunks);
    }
  }

  /** The loop of `load` when cue `i` overflows the chunk being filled: the chunk
      closes with the cue's end time and the cue starts the next group. */
  lemma CloseStep(source: string, cues: seq<Cue>, chunkSize: int, i: nat, closed: nat, cur: seq<Cue>)
    requires i < |cues|
    requires closed < |Groups(cues, chunkSize)|
    requires Groups(cues, chunkSize)[closed..] == GroupFrom(cues[i..], chunkSize, cur)
    requires closed > 0 ==> cur != []
    requires |Spaced(cur)| + |cues[i].text| > chunkSize
    ensures closed + 1 < |Groups(cues, chunkSize)|
    ensures Groups(cues, chunkSize)[closed + 1..] == GroupFrom(cues[i + 1..], chunkSize, [cues[i]])
    ensures Spaced([cues[i]]) == cues[i].text + " "
    ensures var docs := Documents(source, cues, chunkSize);
            docs[..closed + 1]
            == docs[..closed]
               + [Document(Spaced(cur), Metadata(source, if closed == 0 then cues[0].start else cur[0].start, cues[i].end))]
  {
    var gs := Groups(cues, chunkSize);
    var docs := Documents(source, cues, chunkSize);
    GroupFromStep(cues[i..], chunkSize, cur);
    assert cues[i..][1..] == cues[i + 1..];
    assert gs[closed] == cur;
    assert gs[closed + 1..] == gs[closed..][1..];
    assert docs[..closed + 1] == docs[..closed] + [docs[closed]];
  }

  /** After the loop of `load`, the group being filled is the last one; its chunk
      ends where the last cue ends. */
  lemma FinalStep(source: string, cues: seq<Cue>, chunkSize: int, closed: nat, cur: seq<Cue>)
    requires cues != []
    requires closed < |Groups(cues, chunkSize)|
    requires Groups(cues, chunkSize)[closed..] == GroupFrom(cues[|cues|..], chunkSize, cur)
    requires closed > 0 ==> cur != []
    ensures var docs := Documents(source, cues, chunkSize);
            docs == docs[..closed]
                    + [Document(Spaced(cur),
                                Metadata(source, if closed == 0 then cues[0].start else cur[0].start,
                                         cues[|cues| - 1].end))]
  {
    var gs := Groups(cues, chunkSize);
    var docs := Documents(source, cues, chunkSize);
    assert cues[|cues|..] == [];
    assert gs[closed..] == [cur];
    assert |gs| == closed + 1;
    assert docs == docs[..closed] + [docs[closed]];
  }

  /** The loop of `load` when cue `i` fits: it joins the group being filled. */
  lemma ExtendStep(cues: seq<Cue>, chunkSize: int, i: nat, closed: nat, cur: seq<Cue>)
    requires i < |cues|
    requires closed < |Groups(cues, chunkSize)|
    requires Groups(cues, chunkSize)[closed..] == GroupFrom(cues[i..], chunkSize, cur)
    requires |Spaced(cur)| + |cues[i].text| <= chunkSize
    ensures Groups(cues, chunkSize)[closed..] == GroupFrom(cues[i + 1..], chunkSize, cur + [cues[i]])
    ensures Spaced(cur + [cues[i]]) == Spaced(cur) + cues[i].text + " "
  {
    GroupFromStep(cues[i..], chunkSize, cur);
    assert cues[i..][1..] == cues[i + 1..];
    SpacedAppend(cur, [cues[i]]);
  }

  /** One step of the grouping: the next cue either closes `cur` or joins it. */
  lemma GroupFromStep(cues: seq<Cue>, chunkSize: int, cur: seq<Cue>)
    requires cues != []
    ensures |Spaced(cur)| + |cues[0].text| > chunkSize ==>
              GroupFrom(cues, chunkSize, cur) == [cur] + GroupFrom(cues[1..], chunkSize, [cues[0]])
    ensures |Spaced(cur)| + |cues[0].text| <= chunkSize ==>
              GroupFrom(cues, chunkSize, cur) == GroupFrom(cues[1..], chunkSize, cur + [cues[0]])
  {
  }

  lemma {:induction false} SpacedAppend(a: seq<Cue>, b: seq<Cue>)
    ensures Spaced(a + b) == Spaced(a) + Spaced(b)
    decreases |a|
  {
    if a != [] {
      assert (a + b)[1..] == a[1..] + b;
      SpacedAppend(a[1..], b);
    } else {
      assert a + b == b;
    }
  }

  lemma {:induction false} FlattenAppend<T>(a: seq<seq<T>>, b: seq<seq<T>>)
    ensures Flatten(a + b) == Flatten(a) + Flatten(b)
    decreases |a|
  {
    if a == [] {
      assert a + b == b;
    } else {
      assert (a + b)[1..] == a[1..] + b;
      FlattenAppend(a[1..], b);
    }
  }

  /** Group `k` sits in the flattening right after the groups before it. */
  lemma FlattenAt<T>(xss: seq<seq<T>>, k: nat)
    requires k < |xss|
    ensures Flatten(xss) == Flatten(xss[..k]) + xss[k] + Flatten(xss[k + 1..])
  {
    assert xss == xss[..k] + xss[k..];
    FlattenAppend(xss[..k], xss[k..]);
    assert xss[k..][1..] == xss[k + 1..];
  }

  lemma FlattenPrefixLength<T>(xss: seq<seq<T>>, k: nat)
    requires k < |xss|
    ensures |Flatten(xss[..k + 1])| == |Flatten(xss[..k])| + |xss[k]|
  {
    assert xss[..k + 1] == xss[..k] + [xss[k]];
    FlattenAppend(xss[..k], [xss[k]]);
    assert Flatten([xss[k]]) == xss[k] + Flatten([xss[k]][1..]);
  }

  /** Grouping neither drops, repeats nor reorders cues. */
  lemma {:induction false} GroupFromFlatten(cues: seq<Cue>, chunkSize: int, cur: seq<Cue>)
    ensures Flatten(GroupFrom(cues, chunkSize, cur)) == cur + cues
    decreases |cues|
  {
    if cues != [] {
      assert cues == [cues[0]] + cues[1..];
      if |Spaced(cur)| + |cues[0].text| > chunkSize {
        var rest := GroupFrom(cues[1..], chunkSize, [cues[0]]);
        GroupFromFlatten(cues[1..], chunkSize, [cues[0]]);
        assert ([cur] + rest)[1..] == rest;
      } else {
        GroupFromFlatten(cues[1..], chunkSize, cur + [cues[0]]);
      }
    }
  }

  /** The text of each group. */
  function GroupTexts(gs: seq<seq<Cue>>): seq<string>
  {
    seq(|gs|, k requires 0 <= k < |gs| => Spaced(gs[k]))
  }

  /** The page content of each document. */
  function PageContents(docs: seq<Document>): seq<string>
  {
    seq(|docs|, k requires 0 <= k < |docs| => docs[k].pageContent)
  }

  /** The text of a run of cues is the concatenation of the texts of its parts. */
  lemma {:induction false} SpacedFlatten(gs: seq<seq<Cue>>)
    ensures Flatten(GroupTexts(gs)) == Spaced(Flatten(gs))
    decreases |gs|
  {
    if gs != [] {
      SpacedFlatten(gs[1..]);
      assert GroupTexts(gs)[1..] == GroupTexts(gs[1..]);
      SpacedAppend(gs[0], Flatten(gs[1..]));
    }
  }

  /** Partition: the chunk texts, concatenated in order, are exactly every
      subtitle's text followed by one space, in the order of the subtitles. */
  lemma ContentsPartition(source: string, cues: seq<Cue>, chunkSize: int)
    requires cues != []
    ensures var docs := Documents(source, cues, chunkSize);
            Flatten(PageContents(docs)) == Spaced(cues)
  {
    var docs := Documents(source, cues, chunkSize);
    var gs := Groups(cues, chunkSize);
    assert PageContents(docs) == GroupTexts(gs);
    SpacedFlatten(gs);
    GroupFromFlatten(cues, chunkSize, []);
    assert [] + cues == cues;
  }

  /** Every cue of `g` from index `from` on was added without the overflow test
      firing: the text before it plus its own text fit in `chunkSize`. */
  ghost predicate FitsFrom(g: seq<Cue>, from: nat, chunkSize: int)
  {
    forall j :: from <= j < |g| ==> |Spaced(g[..j])| + |g[j].text| <= chunkSize
  }

  /** The greedy rule, stated on the groups alone: the groups partition the cues;
      a new group starts exactly at a cue whose text does not fit after the text
      of the group before it; every other cue fits after the text before it in
      its own group. The first group may be empty, no other one can be. */
  ghost predicate IsGreedyPartition(cues: seq<Cue>, chunkSize: int, gs: seq<seq<Cue>>)
  {
    |gs| >= 1 && Flatten(gs) == cues && FitsFrom(gs[0], 0, chunkSize)
    && forall k :: 1 <= k < |gs| ==>
         gs[k] != [] && |Spaced(gs[k - 1])| + |gs[k][0].text| > chunkSize && FitsFrom(gs[k], 1, chunkSize)
  }

  lemma {:induction false} GroupFromGreedy(cues: seq<Cue>, chunkSize: int, cur: seq<Cue>, from: nat)
    requires FitsFrom(cur, from, chunkSize)
    ensures var gs := GroupFrom(cues, chunkSize, cur);
            FitsFrom(gs[0], from, chunkSize)
            && forall k :: 1 <= k < |gs| ==>
                 gs[k] != [] && |Spaced(gs[k - 1])| + |gs[k][0].text| > chunkSize && FitsFrom(gs[k], 1, chunkSize)
    decreases |cues|
  {
    if cues != [] {
      var c := cues[0];
      if |Spaced(cur)| + |c.text| > chunkSize {
        GroupFromGreedy(cues[1..], chunkSize, [c], 1);
      } else {
        var next := cur + [c];
        forall j | from <= j < |next| ensures |Spaced(next[..j])| + |next[j].text| <= chunkSize {
          if j < |cur| {
            assert next[..j] == cur[..j];
          } else {
            assert next[..j] == cur;
          }
        }
        GroupFromGreedy(cues[1..], chunkSize, next, from);
      }
    }
  }

  lemma {:induction false} GreedyUnique(cues: seq<Cue>, chunkSize: int, cur: seq<Cue>, gs: seq<seq<Cue>>)
    requires |gs| >= 1 && Flatten(gs) == cur + cues
    requires |cur| <= |gs[0]| && gs[0][..|cur|] == cur && FitsFrom(gs[0], |cur|, chunkSize)
    requires forall k :: 1 <= k < |gs| ==>
               gs[k] != [] && |Spaced(gs[k - 1])| + |gs[k][0].text| > chunkSize && FitsFrom(gs[k], 1, chunkSize)
    ensures gs == GroupFrom(cues, chunkSize, cur)
    decreases |cues|
  {
    assert Flatten(gs) == gs[0] + Flatten(gs[1..]);
    if |gs| >= 2 {
      assert Flatten(gs[1..]) == gs[1] + Flatten(gs[2..]);
    }
    if cues == [] {
      assert gs[0] == cur;
      assert |gs| == 1;
    } else {
      var c := cues[0];
      assert (cur + cues)[|cur|] == c;
      if |Spaced(cur)| + |c.text| > chunkSize {
        if |gs[0]| > |cur| {
          assert false;
        }
        assert gs[0] == cur;
        assert Flatten(gs[1..]) == Flatten(gs)[|cur|..] == cues;
        assert |gs| >= 2;
        assert gs[1][0] == c;
        assert cues == [c] + cues[1..];
        assert gs[1][..1] == [c];
        GreedyUnique(cues[1..], chunkSize, [c], gs[1..]);
        assert gs == [cur] + gs[1..];
      } else {
        if |gs[0]| == |cur| {
          assert false;
        }
        assert gs[0][|cur|] == c;
        assert gs[0][..|cur| + 1] == cur + [c];
        assert cur + cues == (cur + [c]) + cues[1..];
        GreedyUnique(cues[1..], chunkSize, cur + [c], gs);
      }
    }
  }

  /** The groups behind the chunks are exactly the greedy partition of the cues:
      the grouping satisfies the greedy rule, and nothing else does. */
  lemma GroupsAreGreedy(cues: seq<Cue>, chunkSize: int, gs: seq<seq<Cue>>)
    ensures IsGreedyPartition(cues, chunkSize, gs) <==> gs == Groups(cues, chunkSize)
  {
    GroupFromGreedy(cues, chunkSize, [], 0);
    GroupFromFlatten(cues, chunkSize, []);
    if IsGreedyPartition(cues, chunkSize, gs) {
      GreedyUnique(cues, chunkSize, [], gs);
    }
  }

  /** Timestamp attribution: chunk `k` holds the cues from index `at` (the number
      of cues in the chunks before it) to `next`; its text is theirs, its source
      is the file, it starts where cue `at` starts, and it ends where cue `next`
      ends, that is where the first cue of the following chunk ends, or where the
      last cue ends for the last chunk. */
  lemma ChunkBoundaries(source: string, cues: seq<Cue>, chunkSize: int, k: nat)
    requires cues != [] && k < |Groups(cues, chunkSize)|
    ensures var docs := Documents(source, cues, chunkSize);
            var gs := Groups(cues, chunkSize);
            var at := |Flatten(gs[..k])|;
            var next := at + |gs[k]|;
            |docs| == |gs| && at < |cues| && next <= |cues|
            && docs[k].pageContent == Spaced(cues[at..next])
            && docs[k].metadata.source == source
            && docs[k].metadata.start == cues[at].start
            && (k + 1 < |docs| ==> next < |cues| && docs[k].metadata.end == cues[next].end)
            && (k + 1 == |docs| ==> next == |cues| && docs[k].metadata.end == cues[|cues| - 1].end)
  {
    var gs: seq<seq<Cue>> := Groups(cues, chunkSize);
    var docs := Documents(source, cues, chunkSize);
    var at := |Flatten(gs[..k])|;
    GroupSpan(cues, chunkSize, k);
    assert |docs| == |gs|;
    assert docs[k] == Document(Spaced(gs[k]),
                               Metadata(source,
                                        if k == 0 then cues[0].start else gs[k][0].start,
                                        if k + 1 < |gs| then gs[k + 1][0].end else cues[|cues| - 1].end));
    assert docs[k].metadata.start == cues[at].start;
  }

  /** Group `k` is the run of cues that starts after all earlier groups. */
  lemma GroupSpan(cues: seq<Cue>, chunkSize: int, k: nat)
    requires cues != [] && k < |Groups(cues, chunkSize)|
    ensures var gs := Groups(cues, chunkSize);
            var at := |Flatten(gs[..k])|;
            var next := at + |gs[k]|;
            at < |cues| && next <= |cues| && cues[at..next] == gs[k]
            && (k == 0 ==> at == 0)
            && (k > 0 ==> cues[at] == gs[k][0])
            && (k + 1 < |gs| ==> next < |cues| && cues[next] == gs[k + 1][0])
            && (k + 1 == |gs| ==> next == |cues|)
  {
    var gs := Groups(cues, chunkSize);
    assert Flatten(gs) == cues by {
      GroupFromFlatten(cues, chunkSize, []);
      assert [] + cues == cues;
    }
    PartSpan(cues, gs, k);
  }

  /** In a list of lists whose parts after the first are non-empty, part `k` is the
      run of the flattened list that starts after all earlier parts. */
  lemma PartSpan<T>(xs: seq<T>, xss: seq<seq<T>>, k: nat)
    requires Flatten(xss) == xs && xs != [] && k < |xss|
    requires forall j :: 1 <= j < |xss| ==> xss[j] != []
    ensures var at := |Flatten(xss[..k])|;
            var next := at + |xss[k]|;
            at < |xs| && next <= |xs| && xs[at..next] == xss[k]
            && (k == 0 ==> at == 0)
            && (k > 0 ==> xs[at] == xss[k][0])
            && (k + 1 < |xss| ==> next < |xs| && xs[next] == xss[k + 1][0])
            && (k + 1 == |xss| ==> next == |xs|)
  {
    var at := |Flatten(xss[..k])|;
    FlattenAt(xss, k);
    assert xs[at..at + |xss[k]|] == xss[k];
    if k == 0 {
      assert xss[..0] == [];
    }
    if k + 1 < |xss| {
      var next := at + |xss[k]|;
      assert xs[next] == xss[k + 1][0] by {
        FlattenPrefixLength(xss, k);
        FlattenAt(xss, k + 1);
      }
    } else {
      assert xss[k + 1..] == [];
    }
  }

  /** A chunk whose last subtitle was added without the overflow test firing (any
      chunk of two or more subtitles, and a non-empty first chunk) holds at most
      `chunkSize` characters plus the space after its last subtitle. */
  lemma ChunkSizeBound(source: string, cues: seq<Cue>, chunkSize: int, k: nat)
    requires cues != [] && k < |Groups(cues, chunkSize)|
    requires |Groups(cues, chunkSize)[k]| >= 2 || (k == 0 && Groups(cues, chunkSize)[0] != [])
    ensures |Documents(source, cues, chunkSize)[k].pageContent| <= chunkSize + 1
  {
    var gs := Groups(cues, chunkSize);
    var g := gs[k];
    GroupsAreGreedy(cues, chunkSize, gs);
    var j := |g| - 1;
    assert |Spaced(g[..j])| + |g[j].text| <= chunkSize;
    assert g == g[..j] + [g[j]];
    SpacedAppend(g[..j], [g[j]]);
  }

  lemma SpacedPrefixOne(g: seq<Cue>)
    requires g != []
    ensures |Spaced(g[..1])| == |g[0].text| + 1
  {
    assert g[..1] == [g[0]];
  }

  /** Where cue `i` sits among the groups: group `k`, position `j`. */
  lemma {:induction false} Locate<T>(xss: seq<seq<T>>, i: nat) returns (k: nat, j: nat)
    requires i < |Flatten(xss)|
    ensures k < |xss| && j < |xss[k]| && |Flatten(xss[..k])| + j == i && xss[k][j] == Flatten(xss)[i]
    decreases |xss|
  {
    assert xss != [];
    if i < |xss[0]| {
      k, j := 0, i;
      assert xss[..0] == [];
    } else {
      var k', j' := Locate(xss[1..], i - |xss[0]|);
      k, j := k' + 1, j';
      assert xss[..k][1..] == xss[1..][..k'];
      assert xss[..k] == [xss[0]] + xss[..k][1..];
      assert Flatten(xss[..k]) == xss[0] + Flatten(xss[1..][..k']);
    }
  }

  /** A subtitle longer than `chunkSize` is never merged: it forms a chunk of its own. */
  lemma OversizedCueAlone(cues: seq<Cue>, chunkSize: int, i: nat)
    requires i < |cues| && |cues[i].text| > chunkSize
    ensures var gs := Groups(cues, chunkSize);
            exists k :: 1 <= k < |gs| && gs[k] == [cues[i]] && |Flatten(gs[..k])| == i
  {
    var gs := Groups(cues, chunkSize);
    GroupsAreGreedy(cues, chunkSize, gs);
    var k, j := Locate(gs, i);
    if k == 0 || j >= 1 {
      assert false;
    }
    if |gs[k]| >= 2 {
      SpacedPrefixOne(gs[k]);
      assert false;
    }
    assert gs[k] == [cues[i]];
  }

  /** Only the first chunk can be empty, and it is empty exactly when the first
      subtitle alone is longer than `chunkSize`. */
  lemma EmptyChunks(source: string, cues: seq<Cue>, chunkSize: int)
    requires cues != []
    ensures var docs := Documents(source, cues, chunkSize);
            (forall k :: 1 <= k < |docs| ==> docs[k].pageContent != [])
            && (docs[0].pageContent == [] <==> |cues[0].text| > chunkSize)
  {
    var gs := Groups(cues, chunkSize);
    GroupFromStep(cues, chunkSize, []);
    if |cues[0].text| > chunkSize {
      assert gs[0] == [];
    } else {
      assert gs[0] != [];
    }
  }

  /** The cues of the chunk being filled when the loop of `load` reaches cue `i`,
      computed forward from the start, as the loop does. */
  function Pending(cues: seq<Cue>, chunkSize: int, i: nat): seq<Cue>
    requires i <= |cues|
  {
    if i == 0 then []
    else
      var p := Pending(cues, chunkSize, i - 1);
      if |Spaced(p)| + |cues[i - 1].text| > chunkSize then [cues[i - 1]] else p + [cues[i - 1]]
  }

  /** The overflow test of `load` fires at cue `i`. */
  predicate Overflows(cues: seq<Cue>, chunkSize: int, i: nat)
    requires i < |cues|
  {
    |Spaced(Pending(cues, chunkSize, i))| + |cues[i].text| > chunkSize
  }

  /** How many of the first `i` cues fired the overflow test. */
  function Overflowed(cues: seq<Cue>, chunkSize: int, i: nat): (n: nat)
    requires i <= |cues|
    ensures n <= i
  {
    if i == 0 then 0
    else Overflowed(cues, chunkSize, i - 1) + (if Overflows(cues, chunkSize, i - 1) then 1 else 0)
  }

  /** The state of the loop of `load` before cue `i`: as many chunks are closed as
      cues overflowed, and the rest of the grouping continues from the pending cues. */
  lemma {:induction false} LoopState(cues: seq<Cue>, chunkSize: int, i: nat)
    requires i <= |cues|
    ensures var gs := Groups(cues, chunkSize);
            var closed := Overflowed(cues, chunkSize, i);
            closed < |gs| && gs[closed..] == GroupFrom(cues[i..], chunkSize, Pending(cues, chunkSize, i))
  {
    if i > 0 {
      var gs := Groups(cues, chunkSize);
      var closed := Overflowed(cues, chunkSize, i - 1);
      var p := Pending(cues, chunkSize, i - 1);
      LoopState(cues, chunkSize, i - 1);
      GroupFromStep(cues[i - 1..], chunkSize, p);
      assert cues[i - 1..][1..] == cues[i..];
      if Overflows(cues, chunkSize, i - 1) {
        assert gs[closed + 1..] == gs[closed..][1..];
      }
    }
  }

  /** For a non-empty subtitle list, `load` returns one chunk more than the number
      of subtitles for which the overflow test fired. */
  lemma ChunkCount(source: string, cues: seq<Cue>, chunkSize: int)
    requires cues != []
    ensures |Documents(source, cues, chunkSize)| == 1 + Overflowed(cues, chunkSize, |cues|)
  {
    var gs := Groups(cues, chunkSize);
    LoopState(cues, chunkSize, |cues|);
    assert cues[|cues|..] == [];
    assert |gs[Overflowed(cues, chunkSize, |cues|)..]| == 1;
  }
}
