/**
  The decision logic of `transcribe_file_structured` in voice_archive.py. The
  provider call itself is out of the model: its answer (the first alternative
  of the first channel, or a failure) is an input, as are the file size and
  the freshly generated session id that is used when the caller gives none.
*/
module Transcription {
  import opened Common
  import opened Strings
  import opened Segmenter
  import opened Mimetype

  /** The first alternative of the provider's answer: its words, possibly none, and its transcript, possibly empty. */
  datatype Alternative = Alternative(words: seq<Word>, transcript: string)

  /** The provider answered with an alternative, or raised. */
  datatype ProviderResult = Failed | Answered(alt: Alternative)

  /** `os.path.basename` on a POSIX path: everything after the last `/`. */
  function Basename(path: string): (name: string)
    ensures EndsWith(path, name)
    ensures forall i :: 0 <= i < |name| ==> name[i] != '/'
    ensures (forall i :: 0 <= i < |path| ==> path[i] != '/') ==> name == path
    ensures |name| < |path| ==> path[|path| - |name| - 1] == '/'
  {
    path[LastIndexOf(path, '/') + 1..]
  }

  /** `session_id or str(uuid.uuid4())`: the caller's id unless it is absent or empty. */
  function ChooseSession(sessionId: Option<string>, generated: string): (session: string)
    ensures sessionId.Some? && sessionId.value != "" ==> session == sessionId.value
    ensures sessionId == None || sessionId == Some("") ==> session == generated
  {
    if sessionId.Some? && sessionId.value != "" then sessionId.value else generated
  }

  /**
    `transcribe_file_structured`: nothing for an empty or unreadable file or a
    failed call; the segmenter with its default limits when the answer has
    word timings; otherwise a single untimed segment without a speaker
    holding the whole transcript, or nothing when that is empty too. Every
    segment carries the file's base name and the chosen session.
  */
  method TranscribeStructured(path: string, size: int, sessionId: Option<string>, generated: string,
                              response: ProviderResult)
    returns (segments: seq<Segment>)
    ensures segments == [] <==>
              size <= 0 || response.Failed? || (response.alt.words == [] && response.alt.transcript == "")
    ensures forall i :: 0 <= i < |segments| ==>
              segments[i].file == Basename(path) && segments[i].session == ChooseSession(sessionId, generated)
    ensures size > 0 && response.Answered? && response.alt.words != [] ==>
              segments == Segmentation(response.alt.words, Basename(path), ChooseSession(sessionId, generated),
                                       DefaultMaxGap, DefaultMaxDuration)
    ensures size > 0 && response.Answered? && response.alt.words == [] && response.alt.transcript != "" ==>
              segments == [Segment(None, 0.0, 0.0, response.alt.transcript, Basename(path),
                                   ChooseSession(sessionId, generated))]
  {
    if size <= 0 {
      return [];
    }
    var fileName := Basename(path);
    var session := ChooseSession(sessionId, generated);
    if response.Failed? {
      return [];
    }
    var alt := response.alt;
    if alt.words != [] {
      segments := GroupWordsIntoSegments(alt.words, fileName, session, DefaultMaxGap, DefaultMaxDuration);
      forall i | 0 <= i < |segments|
        ensures segments[i].file == fileName && segments[i].session == session
      {
        SegmentProperties(alt.words, fileName, session, DefaultMaxGap, DefaultMaxDuration, i);
      }
      return;
    }
    if alt.transcript != "" {
      return [Segment(None, 0.0, 0.0, alt.transcript, fileName, session)];
    }
    return [];
  }
}
