/**
  The records `upsert_segments` in voice_archive.py sends to the vector
  index: segments are redacted, their non-blank texts embedded, and one
  record built per pair of segment and vector, with the id
  `session:file:i` and a metadata map. The embedding service is the abstract
  function `embed`; the index write itself is out of the model, so the batch
  of records is the result.

  As written, the pairing runs over all redacted segments while the vectors
  belong to the non-blank texts only (`UpsertSegments`, `UpsertBatch`);
  `UpsertSegmentsAligned` and `AlignedBatch` pair each non-blank segment with
  its own vector.
*/
module Indexing {
  import opened Common
  import opened Strings
  import opened Segmenter
  import opened Redaction
  import opened Mimetype

  /** The metadata dictionary stored with each vector; its six keys are the fields. */
  datatype Metadata = Metadata(text: string, speaker: string, start: real, end: real, file: string, session: string)

  /** One vector-index entry: its id, its embedding and its metadata. */
  datatype Record = Record(id: string, values: seq<real>, metadata: Metadata)

  /** The embedding service: a batch of texts to a batch of vectors. */
  type Embedder = seq<string> -> seq<seq<real>>

  /** The segments whose text is not blank, in order. */
  function NonBlank(segs: seq<Segment>): (kept: seq<Segment>)
    ensures |kept| <= |segs|
    ensures forall i :: 0 <= i < |kept| ==> !IsBlank(kept[i].text)
  {
    if segs == [] then []
    else
      var rest := NonBlank(segs[1..]);
      if IsBlank(segs[0].text) then rest else [segs[0]] + rest
  }

  /** Only blank texts are dropped: nothing is left exactly when every text is blank. */
  lemma {:induction false} NonBlankEmpty(segs: seq<Segment>)
    ensures NonBlank(segs) == [] <==> forall i :: 0 <= i < |segs| ==> IsBlank(segs[i].text)
  {
    if segs != [] {
      NonBlankEmpty(segs[1..]);
      assert forall i :: 1 <= i < |segs| ==> segs[i] == segs[1..][i - 1];
    }
  }

  /** A segment is kept exactly when it is one of the segments and its text is not blank. */
  lemma {:induction false} NonBlankMembers(segs: seq<Segment>, s: Segment)
    ensures s in NonBlank(segs) <==> s in segs && !IsBlank(s.text)
  {
    if segs != [] {
      NonBlankMembers(segs[1..], s);
      assert segs == [segs[0]] + segs[1..];
    }
  }

  /** The filter distributes over concatenation, so the kept segments stay in their order. */
  lemma {:induction false} NonBlankAppend(a: seq<Segment>, b: seq<Segment>)
    ensures NonBlank(a + b) == NonBlank(a) + NonBlank(b)
  {
    if a != [] {
      assert (a + b)[1..] == a[1..] + b;
      NonBlankAppend(a[1..], b);
    } else {
      assert a + b == b;
    }
  }

  /** `seg.speaker or "unknown"`: an absent or empty speaker is stored as `unknown`. */
  function SpeakerLabel(speaker: Option<string>): (shown: string)
    ensures shown != ""
    ensures shown == "unknown" <==> speaker == None || speaker == Some("") || speaker == Some("unknown")
    ensures speaker.Some? && speaker.value != "" ==> shown == speaker.value
  {
    if speaker.Some? && speaker.value != "" then speaker.value else "unknown"
  }

  /**
    The record id `f"{session}:{file}:{i}"`. It begins with the session and a
    colon, and whatever the session and file hold, it ends in the decimal
    position after its last colon.
  */
  function RecordId(session: string, file: string, i: nat): (id: string)
    ensures |session| < |id| && id[..|session|] == session && id[|session|] == ':'
    ensures var c := |session| + 1 + |file|;
            && c < |id| && id[c] == ':'
            && (forall j :: c < j < |id| ==> id[j] != ':')
            && id[c + 1..] == NatToString(i)
  {
    var id := (session + ":" + file + ":") + NatToString(i);
    var c := |session| + 1 + |file|;
    assert forall j :: c < j < |id| ==> id[j] == NatToString(i)[j - c - 1];
    id
  }

  /**
    The record built for segment `seg` at position `i` of the batch, holding
    vector `vec`: every field but the speaker is the segment's own, and the
    stored speaker is never empty.
  */
  function MakeRecord(seg: Segment, vec: seq<real>, i: nat): (r: Record)
    ensures r.id == RecordId(seg.session, seg.file, i) && r.values == vec
    ensures r.metadata.text == seg.text && r.metadata.start == seg.start && r.metadata.end == seg.end
    ensures r.metadata.file == seg.file && r.metadata.session == seg.session
    ensures r.metadata.speaker != ""
  {
    Record(RecordId(seg.session, seg.file, i), vec,
           Metadata(seg.text, SpeakerLabel(seg.speaker), seg.start, seg.end, seg.file, seg.session))
  }

  function Min(a: int, b: int): int {
    if a <= b then a else b
  }

  /** `enumerate(zip(segs, vectors))` turned into records: as many as the shorter list has items. */
  function ZipRecords(segs: seq<Segment>, vectors: seq<seq<real>>): (records: seq<Record>)
    ensures |records| == Min(|segs|, |vectors|)
    ensures forall i :: 0 <= i < |records| ==> records[i] == MakeRecord(segs[i], vectors[i], i)
  {
    seq(Min(|segs|, |vectors|), i requires 0 <= i < Min(|segs|, |vectors|) => MakeRecord(segs[i], vectors[i], i))
  }

  /** The batch `upsert_segments` writes, as written: the vectors of the non-blank texts zipped with all segments. */
  function UpsertBatch(redactor: Option<Redactor>, sub: Substitution, embed: Embedder, segments: seq<Segment>): (batch: seq<Record>)
    ensures |batch| <= |segments|
    ensures forall i :: 0 <= i < |batch| ==> batch[i].id == RecordId(segments[i].session, segments[i].file, i)
  {
    var segs := RedactedAll(redactor, sub, segments);
    var texts := SegmentTexts(NonBlank(segs));
    if segs == [] || texts == [] then [] else ZipRecords(segs, embed(texts))
  }

  /** The batch with each non-blank segment paired with the vector of its own text. */
  function AlignedBatch(redactor: Option<Redactor>, sub: Substitution, embed: Embedder, segments: seq<Segment>): (batch: seq<Record>) {
    var kept := NonBlank(RedactedAll(redactor, sub, segments));
    if kept == [] then [] else ZipRecords(kept, embed(SegmentTexts(kept)))
  }

  /** Ids at different positions differ, so no record of a batch overwrites another. */
  lemma RecordIdsDistinct(s1: string, f1: string, i: nat, s2: string, f2: string, j: nat)
    requires RecordId(s1, f1, i) == RecordId(s2, f2, j)
    ensures i == j
  {
    var id := RecordId(s1, f1, i);
    LastIndexOfAt(id, ':', |s1| + 1 + |f1|);
    LastIndexOfAt(id, ':', |s2| + 1 + |f2|);
    NatToStringInjective(i, j);
  }

  /** A colon in a session or file name lets two different files share an id. */
  lemma RecordIdCollision()
    ensures RecordId("a:b", "c.wav", 0) == RecordId("a", "b:c.wav", 0)
  {
  }

  /** Nothing is written when there are no segments or every text is blank after redaction. */
  lemma UpsertBatchEmpty(redactor: Option<Redactor>, sub: Substitution, embed: Embedder, segments: seq<Segment>)
    ensures var segs := RedactedAll(redactor, sub, segments);
            (segments == [] || forall i :: 0 <= i < |segs| ==> IsBlank(segs[i].text)) ==>
              UpsertBatch(redactor, sub, embed, segments) == []
  {
    var segs := RedactedAll(redactor, sub, segments);
    NonBlankEmpty(segs);
    if segments == [] || forall i :: 0 <= i < |segs| ==> IsBlank(segs[i].text) {
      assert NonBlank(segs) == [];
      assert SegmentTexts(NonBlank(segs)) == [];
    }
  }

  /**
    Otherwise record i comes from the i-th redacted segment and the i-th
    vector: id `session:file:i`, the redacted text, the speaker or `unknown`,
    the segment's times, file and session; and there are as many records as
    the shorter of the segment list and the vector list.
  */
  lemma UpsertBatchRecords(redactor: Option<Redactor>, sub: Substitution, embed: Embedder, segments: seq<Segment>)
    ensures var segs := RedactedAll(redactor, sub, segments);
            var texts := SegmentTexts(NonBlank(segs));
            var batch := UpsertBatch(redactor, sub, embed, segments);
            texts != [] ==>
              && |batch| == Min(|segments|, |embed(texts)|)
              && forall i :: 0 <= i < |batch| ==>
                   && batch[i].id == RecordId(segments[i].session, segments[i].file, i)
                   && batch[i].values == embed(texts)[i]
                   && batch[i].metadata == Metadata(RedactedSegment(redactor, sub, segments[i]).text,
                                                    SpeakerLabel(segments[i].speaker), segments[i].start,
                                                    segments[i].end, segments[i].file, segments[i].session)
  {
    var segs := RedactedAll(redactor, sub, segments);
    var texts := SegmentTexts(NonBlank(segs));
    if texts != [] {
      assert segs != [];
      var vectors := embed(texts);
      var batch := UpsertBatch(redactor, sub, embed, segments);
      assert batch == ZipRecords(segs, vectors);
      forall i | 0 <= i < |batch|
        ensures batch[i].values == vectors[i]
        ensures batch[i].metadata == Metadata(RedactedSegment(redactor, sub, segments[i]).text,
                                              SpeakerLabel(segments[i].speaker), segments[i].start,
                                              segments[i].end, segments[i].file, segments[i].session)
      {
        assert batch[i] == MakeRecord(segs[i], vectors[i], i);
      }
    }
  }

  /**
    As written the pairing is off as soon as a blank segment precedes a
    non-blank one: with one blank and then one spoken segment, and one vector
    per text, a single record is written and it carries the blank text with
    the vector of "hello"; "hello" itself is never indexed.
  */
  lemma UpsertMisalignment(embed: Embedder)
    requires |embed(["hello"])| == 1
    ensures var blank := Segment(None, 0.0, 1.0, "", "a.wav", "s");
            var spoken := Segment(Some("A"), 1.0, 2.0, "hello", "a.wav", "s");
            var batch := UpsertBatch(None, (p, r, t) => t, embed, [blank, spoken]);
            && |batch| == 1
            && batch[0].metadata.text == ""
            && batch[0].values == embed(["hello"])[0]
            && forall i :: 0 <= i < |batch| ==> batch[i].metadata.text != "hello"
  {
    var blank := Segment(None, 0.0, 1.0, "", "a.wav", "s");
    var spoken := Segment(Some("A"), 1.0, 2.0, "hello", "a.wav", "s");
    var sub: Substitution := (p, r, t) => t;
    var segs := RedactedAll(None, sub, [blank, spoken]);
    assert segs == [blank, spoken];
    assert !IsSpace("hello"[0]);
    assert [blank, spoken][1..] == [spoken];
    assert NonBlank([spoken]) == [spoken];
    assert NonBlank(segs) == [spoken];
    assert SegmentTexts([spoken]) == ["hello"];
  }

  /**
    The aligned batch, given one vector per non-blank text, has one record per
    non-blank segment, and each record's vector is the vector of the very
    text the record stores.
  */
  lemma AlignedBatchPairing(redactor: Option<Redactor>, sub: Substitution, embed: Embedder, segments: seq<Segment>)
    requires var kept := NonBlank(RedactedAll(redactor, sub, segments));
             |embed(SegmentTexts(kept))| == |kept|
    ensures var kept := NonBlank(RedactedAll(redactor, sub, segments));
            var texts := SegmentTexts(kept);
            var batch := AlignedBatch(redactor, sub, embed, segments);
            && |batch| == |kept|
            && forall i :: 0 <= i < |batch| ==>
                 && batch[i].metadata.text == texts[i]
                 && batch[i].values == embed(texts)[i]
                 && !IsBlank(texts[i])
                 && batch[i].id == RecordId(kept[i].session, kept[i].file, i)
  {
  }

  /** The payload loop of `upsert_segments`: one record per pair of `enumerate(zip(segs, vectors))`. */
  method BuildPayloads(segs: seq<Segment>, vectors: seq<seq<real>>) returns (batch: seq<Record>)
    ensures batch == ZipRecords(segs, vectors)
  {
    batch := [];
    var n := Min(|segs|, |vectors|);
    for i := 0 to n
      invariant |batch| == i
      invariant forall k :: 0 <= k < i ==> batch[k] == MakeRecord(segs[k], vectors[k], k)
    {
      batch := batch + [MakeRecord(segs[i], vectors[i], i)];
    }
  }

  /** `upsert_segments` as written: the count and the batch of records written. */
  method UpsertSegments(redactor: Option<Redactor>, sub: Substitution, embed: Embedder, segments: seq<Segment>)
    returns (count: nat, batch: seq<Record>)
    ensures batch == UpsertBatch(redactor, sub, embed, segments)
    ensures count == |batch|
  {
    var segs := RedactSegments(redactor, sub, segments);
    if segs == [] {
      return 0, [];
    }
    var texts := SegmentTexts(NonBlank(segs));
    if texts == [] {
      return 0, [];
    }
    batch := BuildPayloads(segs, embed(texts));
    count := |batch|;
  }

  /** `upsert_segments` with each non-blank segment zipped with the vector of its own text. */
  method UpsertSegmentsAligned(redactor: Option<Redactor>, sub: Substitution, embed: Embedder, segments: seq<Segment>)
    returns (count: nat, batch: seq<Record>)
    ensures batch == AlignedBatch(redactor, sub, embed, segments)
    ensures count == |batch|
  {
    var segs := RedactSegments(redactor, sub, segments);
    var kept := NonBlank(segs);
    if kept == [] {
      return 0, [];
    }
    batch := BuildPayloads(kept, embed(SegmentTexts(kept)));
    count := |batch|;
  }
}
