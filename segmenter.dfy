/**
  The transcript segmenter of voice_archive.py: a greedy single pass over
  timestamped words that closes the open segment on a long pause, on a segment
  that would grow too long, or on a change of speaker.

  `GroupWordsIntoSegments` is the loop as the source writes it. It is proved
  equal to `Segmentation`, which cuts the word list by the recursive reference
  `Partition` (take the longest prefix no split rule breaks, then repeat).
  `IsSegmentation` states declaratively what a correct cut is, and the lemmas
  show that `Partition` is one and that there is no other.
*/
module Segmenter {
  import opened Common
  import opened Strings

  /** A transcribed word; times are in seconds, the speaker label may be absent. */
  datatype Word = Word(text: string, start: real, end: real, speaker: Option<string>)

  /** A search-indexable piece of transcript. */
  datatype Segment = Segment(
    speaker: Option<string>,
    start: real,
    end: real,
    text: string,
    file: string,
    session: string)

  /** The defaults of `max_gap` and `max_duration`, in seconds. */
  const DefaultMaxGap: real := 1.0
  const DefaultMaxDuration: real := 20.0

  /**
    The flush condition: word `w`, coming right after `prev`, closes the
    segment opened by `first` when the pause exceeds `maxGap`, when the
    segment would last longer than `maxDuration`, or when the speaker differs.
  */
  predicate Splits(first: Word, prev: Word, w: Word, maxGap: real, maxDuration: real) {
    w.start - prev.end > maxGap || w.end - first.start > maxDuration || w.speaker != first.speaker
  }

  /** A non-empty run of words none of which, after the first, triggers a split. */
  predicate Cohesive(g: seq<Word>, maxGap: real, maxDuration: real) {
    |g| > 0 && forall j :: 0 < j < |g| ==> !Splits(g[0], g[j - 1], g[j], maxGap, maxDuration)
  }

  /**
    Raising either limit never adds a split, and a change of speaker splits
    whatever the limits.
  */
  lemma SplitsMonotone(first: Word, prev: Word, w: Word, gap1: real, dur1: real, gap2: real, dur2: real)
    requires gap1 <= gap2 && dur1 <= dur2
    ensures Splits(first, prev, w, gap2, dur2) ==> Splits(first, prev, w, gap1, dur1)
    ensures w.speaker != first.speaker ==> Splits(first, prev, w, gap2, dur2)
  {
  }

  /** The groups' words, one group after another. */
  function Flatten(groups: seq<seq<Word>>): (words: seq<Word>) {
    if groups == [] then [] else groups[0] + Flatten(groups[1..])
  }

  lemma {:induction false} FlattenSnoc(groups: seq<seq<Word>>, g: seq<Word>)
    ensures Flatten(groups + [g]) == Flatten(groups) + g
  {
    if groups == [] {
      assert [g][1..] == [];
    } else {
      assert (groups + [g])[1..] == groups[1..] + [g];
      FlattenSnoc(groups[1..], g);
    }
  }

  /**
    Group `next` starts right after group `prev` because its first word
    triggers a split against `prev`.
  */
  predicate Boundary(prev: seq<Word>, next: seq<Word>, maxGap: real, maxDuration: real) {
    prev != [] && next != [] && Splits(prev[0], prev[|prev| - 1], next[0], maxGap, maxDuration)
  }

  /**
    `groups` is a correct cut of `words`: together they are `words` in order,
    each group is cohesive, and every group after the first starts with a word
    that triggers a split against the group before it.
  */
  predicate IsSegmentation(words: seq<Word>, groups: seq<seq<Word>>, maxGap: real, maxDuration: real) {
    && Flatten(groups) == words
    && (forall i :: 0 <= i < |groups| ==> Cohesive(groups[i], maxGap, maxDuration))
    && (forall i :: 0 <= i < |groups| - 1 ==> Boundary(groups[i], groups[i + 1], maxGap, maxDuration))
  }

  /** A cohesive group in front of a correct cut, split from it, is a correct cut. */
  lemma SegmentationCons(a: seq<Word>, rest: seq<Word>, groups: seq<seq<Word>>, maxGap: real, maxDuration: real)
    requires Cohesive(a, maxGap, maxDuration)
    requires IsSegmentation(rest, groups, maxGap, maxDuration)
    requires groups != [] ==> Boundary(a, groups[0], maxGap, maxDuration)
    ensures IsSegmentation(a + rest, [a] + groups, maxGap, maxDuration)
  {
    var g := [a] + groups;
    assert g[1..] == groups;
    forall i | 0 <= i < |g| - 1
      ensures Boundary(g[i], g[i + 1], maxGap, maxDuration)
    {
      if i > 0 {
        assert g[i] == groups[i - 1] && g[i + 1] == groups[i];
      }
    }
  }

  /** Dropping the first group of a correct cut leaves a correct cut of the remaining words. */
  lemma SegmentationTail(words: seq<Word>, groups: seq<seq<Word>>, maxGap: real, maxDuration: real)
    requires IsSegmentation(words, groups, maxGap, maxDuration) && groups != []
    ensures |groups[0]| <= |words| && words[..|groups[0]|] == groups[0]
    ensures IsSegmentation(words[|groups[0]|..], groups[1..], maxGap, maxDuration)
  {
    var t := groups[1..];
    assert words == groups[0] + Flatten(t);
    forall i | 0 <= i < |t| - 1
      ensures Boundary(t[i], t[i + 1], maxGap, maxDuration)
    {
      assert t[i] == groups[i + 1] && t[i + 1] == groups[i + 2];
    }
  }

  /** A cohesive group after a correct cut, split from its last group, extends the cut. */
  lemma SegmentationSnoc(words: seq<Word>, groups: seq<seq<Word>>, b: seq<Word>, maxGap: real, maxDuration: real)
    requires IsSegmentation(words, groups, maxGap, maxDuration)
    requires Cohesive(b, maxGap, maxDuration)
    requires groups != [] ==> Boundary(groups[|groups| - 1], b, maxGap, maxDuration)
    ensures IsSegmentation(words + b, groups + [b], maxGap, maxDuration)
  {
    FlattenSnoc(groups, b);
    var g := groups + [b];
    forall i | 0 <= i < |g| - 1
      ensures Boundary(g[i], g[i + 1], maxGap, maxDuration)
    {
      if i < |groups| - 1 {
        assert g[i] == groups[i] && g[i + 1] == groups[i + 1];
      }
    }
  }

  /**
    The first index at or after `j` at which a word triggers a split against
    the segment opened by `words[0]`, or `|words|` when none does.
  */
  function CutFrom(words: seq<Word>, j: nat, maxGap: real, maxDuration: real): (n: nat)
    requires 1 <= j <= |words|
    ensures j <= n <= |words|
    ensures forall m :: j <= m < n ==> !Splits(words[0], words[m - 1], words[m], maxGap, maxDuration)
    ensures n < |words| ==> Splits(words[0], words[n - 1], words[n], maxGap, maxDuration)
    decreases |words| - j
  {
    if j == |words| || Splits(words[0], words[j - 1], words[j], maxGap, maxDuration) then j
    else CutFrom(words, j + 1, maxGap, maxDuration)
  }

  /**
    Reference cut: the longest cohesive prefix, then the cut of the rest.
    There are no more groups than words and none exactly when there are no words.
  */
  function Partition(words: seq<Word>, maxGap: real, maxDuration: real): (groups: seq<seq<Word>>)
    ensures forall i :: 0 <= i < |groups| ==> groups[i] != []
    ensures |groups| <= |words|
    ensures groups == [] <==> words == []
    decreases |words|
  {
    if words == [] then []
    else
      var n := CutFrom(words, 1, maxGap, maxDuration);
      [words[..n]] + Partition(words[n..], maxGap, maxDuration)
  }

  /** `Partition` is a correct cut. */
  lemma {:induction false} PartitionIsSegmentation(words: seq<Word>, maxGap: real, maxDuration: real)
    ensures IsSegmentation(words, Partition(words, maxGap, maxDuration), maxGap, maxDuration)
    decreases |words|
  {
    if words != [] {
      var n := CutFrom(words, 1, maxGap, maxDuration);
      var a, rest := words[..n], words[n..];
      PartitionIsSegmentation(rest, maxGap, maxDuration);
      var gs := Partition(rest, maxGap, maxDuration);
      assert Cohesive(a, maxGap, maxDuration);
      if gs != [] {
        SegmentationTail(rest, gs, maxGap, maxDuration);
        assert gs[0][0] == rest[0] == words[n];
      }
      SegmentationCons(a, rest, gs, maxGap, maxDuration);
      assert a + rest == words;
    }
  }

  /** The first group of a correct cut is non-empty and the word right after it splits from it. */
  lemma SplitAfterFirstGroup(words: seq<Word>, groups: seq<seq<Word>>, maxGap: real, maxDuration: real)
    requires IsSegmentation(words, groups, maxGap, maxDuration) && groups != []
    ensures 0 < |groups[0]| <= |words| && words[..|groups[0]|] == groups[0]
    ensures |groups[0]| < |words| ==>
              Splits(words[0], words[|groups[0]| - 1], words[|groups[0]|], maxGap, maxDuration)
  {
    var a := groups[0];
    var n := |a|;
    assert Cohesive(a, maxGap, maxDuration);
    SegmentationTail(words, groups, maxGap, maxDuration);
    if n < |words| {
      var t := groups[1..];
      assert Flatten(t) == words[n..] != [];
      assert t != [];
      assert Flatten(t) == t[0] + Flatten(t[1..]);
      assert Boundary(groups[0], groups[1], maxGap, maxDuration);
      assert words[n] == t[0][0];
    }
  }

  /**
    A cohesive prefix `b` of the words is no longer than the first group of a
    correct cut: the word right after that group triggers a split.
  */
  lemma FirstGroupMaximal(words: seq<Word>, groups: seq<seq<Word>>, b: seq<Word>, maxGap: real, maxDuration: real)
    requires IsSegmentation(words, groups, maxGap, maxDuration) && groups != []
    requires Cohesive(b, maxGap, maxDuration)
    requires |b| <= |words| && b == words[..|b|]
    ensures |b| <= |groups[0]|
  {
    SplitAfterFirstGroup(words, groups, maxGap, maxDuration);
    var n := |groups[0]|;
    if n < |b| {
      assert false;
    }
  }

  /** A correct cut is unique: the split rule leaves no choice. */
  lemma {:induction false} SegmentationUnique(words: seq<Word>, g1: seq<seq<Word>>, g2: seq<seq<Word>>, maxGap: real, maxDuration: real)
    requires IsSegmentation(words, g1, maxGap, maxDuration)
    requires IsSegmentation(words, g2, maxGap, maxDuration)
    ensures g1 == g2
    decreases |words|
  {
    if g1 != [] && g2 != [] {
      var a, b := g1[0], g2[0];
      SplitAfterFirstGroup(words, g1, maxGap, maxDuration);
      SplitAfterFirstGroup(words, g2, maxGap, maxDuration);
      FirstGroupMaximal(words, g1, b, maxGap, maxDuration);
      FirstGroupMaximal(words, g2, a, maxGap, maxDuration);
      assert a == b;
      SegmentationTail(words, g1, maxGap, maxDuration);
      SegmentationTail(words, g2, maxGap, maxDuration);
      SegmentationUnique(words[|a|..], g1[1..], g2[1..], maxGap, maxDuration);
      assert g1 == [a] + g1[1..] && g2 == [b] + g2[1..];
    } else if g1 != [] {
      SplitAfterFirstGroup(words, g1, maxGap, maxDuration);
    } else if g2 != [] {
      SplitAfterFirstGroup(words, g2, maxGap, maxDuration);
    }
  }

  /** Every correct cut is the reference one. */
  lemma SegmentationIsPartition(words: seq<Word>, groups: seq<seq<Word>>, maxGap: real, maxDuration: real)
    requires IsSegmentation(words, groups, maxGap, maxDuration)
    ensures groups == Partition(words, maxGap, maxDuration)
  {
    PartitionIsSegmentation(words, maxGap, maxDuration);
    SegmentationUnique(words, groups, Partition(words, maxGap, maxDuration), maxGap, maxDuration);
  }

  /** The texts of a list of words. */
  function Texts(g: seq<Word>): seq<string> {
    seq(|g|, i requires 0 <= i < |g| => g[i].text)
  }

  /**
    The segment a group becomes: speaker and start from its first word, end
    from its last word, text the words joined by single spaces.
  */
  function MakeSegment(g: seq<Word>, file: string, session: string): (seg: Segment)
    requires g != []
    ensures seg.file == file && seg.session == session
    ensures WellTimed(g) && Chronological(g) ==> seg.start <= seg.end
  {
    SpanOrdered(g);
    Segment(g[0].speaker, g[0].start, g[|g| - 1].end, Join(" ", Texts(g)), file, session)
  }

  /** One segment per group, in order. */
  function SegmentsOf(groups: seq<seq<Word>>, file: string, session: string): (segs: seq<Segment>)
    requires forall i :: 0 <= i < |groups| ==> groups[i] != []
  {
    seq(|groups|, i requires 0 <= i < |groups| => MakeSegment(groups[i], file, session))
  }

  lemma SegmentsOfSnoc(groups: seq<seq<Word>>, g: seq<Word>, file: string, session: string)
    requires forall i :: 0 <= i < |groups| ==> groups[i] != []
    requires g != []
    ensures SegmentsOf(groups + [g], file, session) == SegmentsOf(groups, file, session) + [MakeSegment(g, file, session)]
  {
  }

  lemma SegmentsOfCons(g: seq<Word>, groups: seq<seq<Word>>, file: string, session: string)
    requires forall i :: 0 <= i < |groups| ==> groups[i] != []
    requires g != []
    ensures SegmentsOf([g] + groups, file, session) == [MakeSegment(g, file, session)] + SegmentsOf(groups, file, session)
  {
    var segs := SegmentsOf([g] + groups, file, session);
    assert segs[1..] == SegmentsOf(groups, file, session);
  }

  /** The segments the segmenter emits for `words`. */
  function Segmentation(words: seq<Word>, file: string, session: string, maxGap: real, maxDuration: real): (segs: seq<Segment>) {
    SegmentsOf(Partition(words, maxGap, maxDuration), file, session)
  }

  /**
    What the segmenter's loop keeps: the closed groups `done` are a correct cut
    of the words before the open buffer `buf`, the buffer is cohesive, and its
    first word split from the last closed group.
  */
  ghost predicate Progress(prefix: seq<Word>, done: seq<seq<Word>>, buf: seq<Word>, maxGap: real, maxDuration: real) {
    && Flatten(done) + buf == prefix
    && IsSegmentation(Flatten(done), done, maxGap, maxDuration)
    && (buf == [] ==> done == [])
    && (buf != [] ==> Cohesive(buf, maxGap, maxDuration))
    && (done != [] ==> Boundary(done[|done| - 1], buf, maxGap, maxDuration))
  }

  lemma ProgressExtend(prefix: seq<Word>, done: seq<seq<Word>>, buf: seq<Word>, w: Word, maxGap: real, maxDuration: real)
    requires Progress(prefix, done, buf, maxGap, maxDuration) && buf != []
    requires !Splits(buf[0], buf[|buf| - 1], w, maxGap, maxDuration)
    ensures Progress(prefix + [w], done, buf + [w], maxGap, maxDuration)
  {
    assert Flatten(done) + (buf + [w]) == prefix + [w];
    var b := buf + [w];
    forall j | 0 < j < |b|
      ensures !Splits(b[0], b[j - 1], b[j], maxGap, maxDuration)
    {
      if j < |buf| {
        assert b[j - 1] == buf[j - 1] && b[j] == buf[j];
      }
    }
  }

  lemma ProgressClose(prefix: seq<Word>, done: seq<seq<Word>>, buf: seq<Word>, w: Word, maxGap: real, maxDuration: real)
    requires Progress(prefix, done, buf, maxGap, maxDuration) && buf != []
    requires Splits(buf[0], buf[|buf| - 1], w, maxGap, maxDuration)
    ensures Progress(prefix + [w], done + [buf], [w], maxGap, maxDuration)
  {
    SegmentationSnoc(Flatten(done), done, buf, maxGap, maxDuration);
    FlattenSnoc(done, buf);
  }

  /** Closing the buffer keeps every loop invariant: the cut, the non-empty groups and the emitted segments. */
  lemma CloseStep(prefix: seq<Word>, done: seq<seq<Word>>, buf: seq<Word>, w: Word, maxGap: real, maxDuration: real,
                  segments: seq<Segment>, file: string, session: string)
    requires Progress(prefix, done, buf, maxGap, maxDuration) && buf != []
    requires Splits(buf[0], buf[|buf| - 1], w, maxGap, maxDuration)
    requires forall k :: 0 <= k < |done| ==> done[k] != []
    requires segments == SegmentsOf(done, file, session)
    ensures Progress(prefix + [w], done + [buf], [w], maxGap, maxDuration)
    ensures forall k :: 0 <= k < |done + [buf]| ==> (done + [buf])[k] != []
    ensures segments + [MakeSegment(buf, file, session)] == SegmentsOf(done + [buf], file, session)
  {
    ProgressClose(prefix, done, buf, w, maxGap, maxDuration);
    SegmentsOfSnoc(done, buf, file, session);
  }

  lemma ProgressFinish(words: seq<Word>, done: seq<seq<Word>>, buf: seq<Word>, maxGap: real, maxDuration: real)
    requires Progress(words, done, buf, maxGap, maxDuration)
    ensures buf == [] ==> IsSegmentation(words, done, maxGap, maxDuration)
    ensures buf != [] ==> IsSegmentation(words, done + [buf], maxGap, maxDuration)
  {
    if buf != [] {
      SegmentationSnoc(Flatten(done), done, buf, maxGap, maxDuration);
    }
  }

  /**
    `_group_words_into_segments`: the greedy loop over the words with an open
    buffer, its start time and its speaker. It emits exactly the reference
    segmentation.
  */
  method GroupWordsIntoSegments(words: seq<Word>, fileName: string, sessionId: string, maxGap: real, maxDuration: real)
    returns (segments: seq<Segment>)
    ensures segments == Segmentation(words, fileName, sessionId, maxGap, maxDuration)
  {
    segments := [];
    var buf: seq<Word> := [];
    var segStart: real := 0.0;
    var segSpeaker: Option<string> := None;
    ghost var done: seq<seq<Word>> := [];
    for i := 0 to |words|
      invariant Progress(words[..i], done, buf, maxGap, maxDuration)
      invariant buf == [] <==> i == 0
      invariant buf != [] ==> segStart == buf[0].start && segSpeaker == buf[0].speaker
      invariant forall k :: 0 <= k < |done| ==> done[k] != []
      invariant segments == SegmentsOf(done, fileName, sessionId)
    {
      var w := words[i];
      assert words[..i + 1] == words[..i] + [w];
      if buf == [] {
        buf := [w];
        segStart := w.start;
        segSpeaker := w.speaker;
        continue;
      }
      var lastEnd := buf[|buf| - 1].end;
      var duration := w.end - segStart;
      if w.start - lastEnd > maxGap || duration > maxDuration || w.speaker != segSpeaker {
        var text := Join(" ", Texts(buf));
        assert Segment(segSpeaker, segStart, lastEnd, text, fileName, sessionId) == MakeSegment(buf, fileName, sessionId);
        CloseStep(words[..i], done, buf, w, maxGap, maxDuration, segments, fileName, sessionId);
        segments := segments + [Segment(segSpeaker, segStart, lastEnd, text, fileName, sessionId)];
        done := done + [buf];
        buf := [w];
        segStart := w.start;
        segSpeaker := w.speaker;
      } else {
        ProgressExtend(words[..i], done, buf, w, maxGap, maxDuration);
        buf := buf + [w];
      }
    }
    assert words[..|words|] == words;
    ProgressFinish(words, done, buf, maxGap, maxDuration);
    if buf != [] {
      var lastEnd := buf[|buf| - 1].end;
      var text := Join(" ", Texts(buf));
      assert Segment(segSpeaker, segStart, lastEnd, text, fileName, sessionId) == MakeSegment(buf, fileName, sessionId);
      segments := segments + [Segment(segSpeaker, segStart, lastEnd, text, fileName, sessionId)];
      SegmentsOfSnoc(done, buf, fileName, sessionId);
      done := done + [buf];
    }
    SegmentationIsPartition(words, done, maxGap, maxDuration);
  }

  /**
    What every emitted segment satisfies: it carries the caller's file and
    session; its speaker and start come from its first word, its end from its
    last word and its text is its words joined by single spaces; every later
    word shares the speaker, follows the previous word by at most `maxGap` and
    ends at most `maxDuration` after the segment's start. So a segment of two
    or more words spans at most `maxDuration`.
  */
  lemma SegmentProperties(words: seq<Word>, file: string, session: string, maxGap: real, maxDuration: real, k: nat)
    requires k < |Segmentation(words, file, session, maxGap, maxDuration)|
    ensures var seg := Segmentation(words, file, session, maxGap, maxDuration)[k];
            var g := Partition(words, maxGap, maxDuration)[k];
            && g != []
            && seg.file == file && seg.session == session
            && seg.speaker == g[0].speaker && seg.start == g[0].start && seg.end == g[|g| - 1].end
            && seg.text == Join(" ", Texts(g))
            && (forall j :: 0 < j < |g| ==>
                  && g[j].speaker == seg.speaker
                  && g[j].start - g[j - 1].end <= maxGap
                  && g[j].end - seg.start <= maxDuration)
            && (|g| > 1 ==> seg.end - seg.start <= maxDuration)
  {
    PartitionIsSegmentation(words, maxGap, maxDuration);
    var g := Partition(words, maxGap, maxDuration)[k];
    var seg := Segmentation(words, file, session, maxGap, maxDuration)[k];
    assert seg == MakeSegment(g, file, session);
    assert Cohesive(g, maxGap, maxDuration);
    forall j | 0 < j < |g|
      ensures g[j].speaker == seg.speaker && g[j].start - g[j - 1].end <= maxGap && g[j].end - seg.start <= maxDuration
    {
      assert !Splits(g[0], g[j - 1], g[j], maxGap, maxDuration);
    }
  }

  /** The texts of a list of segments. */
  function SegmentTexts(segs: seq<Segment>): seq<string> {
    seq(|segs|, i requires 0 <= i < |segs| => segs[i].text)
  }

  lemma TextsAppend(a: seq<Word>, b: seq<Word>)
    ensures Texts(a + b) == Texts(a) + Texts(b)
  {
  }

  lemma {:induction false} JoinGroupTexts(groups: seq<seq<Word>>, file: string, session: string)
    requires forall i :: 0 <= i < |groups| ==> groups[i] != []
    ensures Join(" ", SegmentTexts(SegmentsOf(groups, file, session))) == Join(" ", Texts(Flatten(groups)))
  {
    if |groups| == 1 {
      assert groups[1..] == [];
      assert Flatten(groups) == groups[0] + Flatten(groups[1..]) == groups[0];
      assert SegmentTexts(SegmentsOf(groups, file, session)) == [Join(" ", Texts(groups[0]))];
    } else if |groups| > 1 {
      var g, rest := groups[0], groups[1..];
      JoinGroupTexts(rest, file, session);
      var head := Join(" ", Texts(g));
      var tail := SegmentTexts(SegmentsOf(rest, file, session));
      assert SegmentTexts(SegmentsOf(groups, file, session)) == [head] + tail;
      assert Flatten(rest) == rest[0] + Flatten(rest[1..]);
      TextsAppend(g, Flatten(rest));
      JoinAppend(" ", Texts(g), Texts(Flatten(rest)));
      assert ([head] + tail)[1..] == tail;
    }
  }

  /**
    Coverage in terms of text: joining the segments' texts with single spaces
    gives the words' texts joined with single spaces, so no word is lost,
    repeated or moved.
  */
  lemma SegmentTextCoverage(words: seq<Word>, file: string, session: string, maxGap: real, maxDuration: real)
    ensures Join(" ", SegmentTexts(Segmentation(words, file, session, maxGap, maxDuration))) == Join(" ", Texts(words))
  {
    PartitionIsSegmentation(words, maxGap, maxDuration);
    JoinGroupTexts(Partition(words, maxGap, maxDuration), file, session);
  }

  /** Every word ends no earlier than it starts. */
  predicate WellTimed(words: seq<Word>) {
    forall j :: 0 <= j < |words| ==> words[j].start <= words[j].end
  }

  /** Every word starts no earlier than the previous one ends. */
  predicate Chronological(words: seq<Word>) {
    forall j :: 0 < j < |words| ==> words[j - 1].end <= words[j].start
  }

  /** A well-timed chronological group starts no later than it ends. */
  lemma SpanOrdered(g: seq<Word>)
    requires g != []
    ensures WellTimed(g) && Chronological(g) ==> g[0].start <= g[|g| - 1].end
  {
    if WellTimed(g) && Chronological(g) {
      ChainOrder(g, 0, |g| - 1);
    }
  }

  lemma {:induction false} ChainOrder(words: seq<Word>, i: nat, j: nat)
    requires WellTimed(words) && Chronological(words)
    requires i <= j < |words|
    ensures words[i].start <= words[j].end
    decreases j - i
  {
    if i < j {
      ChainOrder(words, i + 1, j);
    }
  }

  /** The segmentation emits the longest cohesive prefix first, then segments the rest. */
  lemma SegmentationUnfold(words: seq<Word>, file: string, session: string, maxGap: real, maxDuration: real)
    requires words != []
    ensures var n := CutFrom(words, 1, maxGap, maxDuration);
            Segmentation(words, file, session, maxGap, maxDuration)
            == [MakeSegment(words[..n], file, session)] + Segmentation(words[n..], file, session, maxGap, maxDuration)
  {
    var n := CutFrom(words, 1, maxGap, maxDuration);
    var tail := Partition(words[n..], maxGap, maxDuration);
    assert Partition(words, maxGap, maxDuration) == [words[..n]] + tail;
    SegmentsOfCons(words[..n], tail, file, session);
  }

  /** The first segment of non-empty words starts where the first word starts. */
  lemma FirstSegmentStart(words: seq<Word>, file: string, session: string, maxGap: real, maxDuration: real)
    requires words != []
    ensures Segmentation(words, file, session, maxGap, maxDuration) != []
    ensures Segmentation(words, file, session, maxGap, maxDuration)[0].start == words[0].start
  {
    SegmentationUnfold(words, file, session, maxGap, maxDuration);
  }

  /** Every segment ends no earlier than it starts and no earlier segment ends after a later one starts. */
  predicate OrderedSegments(segs: seq<Segment>) {
    && (forall k :: 0 <= k < |segs| ==> segs[k].start <= segs[k].end)
    && (forall k :: 0 < k < |segs| ==> segs[k - 1].end <= segs[k].start)
  }

  lemma OrderedCons(first: Segment, tail: seq<Segment>)
    requires first.start <= first.end && OrderedSegments(tail)
    requires tail != [] ==> first.end <= tail[0].start
    ensures OrderedSegments([first] + tail)
  {
    var segs := [first] + tail;
    forall k | 0 < k < |segs|
      ensures segs[k - 1].end <= segs[k].start
    {
      if k > 1 {
        assert segs[k - 1] == tail[k - 2] && segs[k] == tail[k - 1];
      }
    }
  }

  lemma TimingSuffix(words: seq<Word>, n: nat)
    requires WellTimed(words) && Chronological(words) && n <= |words|
    ensures WellTimed(words[n..]) && Chronological(words[n..])
  {
    var rest := words[n..];
    forall j | 0 < j < |rest|
      ensures rest[j - 1].end <= rest[j].start
    {
      assert rest[j - 1] == words[n + j - 1] && rest[j] == words[n + j];
    }
  }

  /**
    For well-timed words in chronological order, every segment ends no
    earlier than it starts and no segment overlaps the next.
  */
  lemma {:induction false} SegmentsOrdered(words: seq<Word>, file: string, session: string, maxGap: real, maxDuration: real)
    requires WellTimed(words) && Chronological(words)
    ensures OrderedSegments(Segmentation(words, file, session, maxGap, maxDuration))
    decreases |words|
  {
    if words != [] {
      var n := CutFrom(words, 1, maxGap, maxDuration);
      var rest := words[n..];
      var tail := Segmentation(rest, file, session, maxGap, maxDuration);
      var first := MakeSegment(words[..n], file, session);
      SegmentationUnfold(words, file, session, maxGap, maxDuration);
      TimingSuffix(words, n);
      SegmentsOrdered(rest, file, session, maxGap, maxDuration);
      ChainOrder(words, 0, n - 1);
      if tail != [] {
        FirstSegmentStart(rest, file, session, maxGap, maxDuration);
        assert words[n - 1].end <= words[n].start;
      }
      OrderedCons(first, tail);
    }
  }

  /** A pause longer than `max_gap` splits a single speaker's words. */
  lemma PauseSplitsExample()
    ensures Segmentation(
              [Word("hello", 0.0, 0.4, Some("A")), Word("there", 0.5, 0.9, Some("A")), Word("again", 5.0, 5.4, Some("A"))],
              "f.wav", "s1", DefaultMaxGap, DefaultMaxDuration)
            == [Segment(Some("A"), 0.0, 0.9, "hello there", "f.wav", "s1"),
                Segment(Some("A"), 5.0, 5.4, "again", "f.wav", "s1")]
  {
    var words := [Word("hello", 0.0, 0.4, Some("A")), Word("there", 0.5, 0.9, Some("A")), Word("again", 5.0, 5.4, Some("A"))];
    assert CutFrom(words, 1, DefaultMaxGap, DefaultMaxDuration) == 2;
    var last := words[2..];
    assert last == [Word("again", 5.0, 5.4, Some("A"))];
    assert CutFrom(last, 1, DefaultMaxGap, DefaultMaxDuration) == 1;
    assert last[..1] == last && last[1..] == [];
    assert Partition(last, DefaultMaxGap, DefaultMaxDuration) == [last];
    assert Partition(words, DefaultMaxGap, DefaultMaxDuration) == [words[..2], words[2..]];
    assert Texts(words[..2]) == ["hello", "there"];
    assert Join(" ", ["hello", "there"]) == "hello" + " " + Join(" ", ["there"]) == "hello there";
    assert Texts(last) == ["again"];
    assert MakeSegment(words[..2], "f.wav", "s1") == Segment(Some("A"), 0.0, 0.9, "hello there", "f.wav", "s1");
    assert MakeSegment(last, "f.wav", "s1") == Segment(Some("A"), 5.0, 5.4, "again", "f.wav", "s1");
  }

  /** A change of speaker splits even words that are close together. */
  lemma SpeakerTurnExample()
    ensures Segmentation(
              [Word("yes", 0.0, 1.0, Some("A")), Word("no", 1.1, 2.0, Some("B"))],
              "f.wav", "s1", 100.0, 100.0)
            == [Segment(Some("A"), 0.0, 1.0, "yes", "f.wav", "s1"),
                Segment(Some("B"), 1.1, 2.0, "no", "f.wav", "s1")]
  {
    var words := [Word("yes", 0.0, 1.0, Some("A")), Word("no", 1.1, 2.0, Some("B"))];
    assert CutFrom(words, 1, 100.0, 100.0) == 1;
    var last := words[1..];
    assert last == [Word("no", 1.1, 2.0, Some("B"))];
    assert CutFrom(last, 1, 100.0, 100.0) == 1;
    assert last[..1] == last && last[1..] == [];
    assert Partition(last, 100.0, 100.0) == [last];
    assert Partition(words, 100.0, 100.0) == [words[..1], words[1..]];
    assert Texts(words[..1]) == ["yes"];
    assert Texts(words[1..]) == ["no"];
  }
}
