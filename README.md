# Voice archive core, modelled in Dafny

This project models the logic behind a voice archive: a web app that transcribes
uploaded or downloaded audio, cuts each transcript into speaker-aware segments, masks
personal data, embeds the segments in a vector index and answers semantic searches.
It also scores searches against user-supplied relevant ids with nDCG, recall and
reciprocal rank. The model covers the pieces of `voice_archive.py`, `evaluate.py` and
`app.py` that compute something. The speech, embedding and vector-index services, the
file system and the HTML layer are inputs to the model or are left out.

Modules, one file each:

- `Common` (`common.dfy`): `Option` and `Result`.
- `Strings` (`strings.dfy`): the Python string operations the core uses, on `seq<char>`:
  - `strip`, ASCII `lower`, `startswith` and `endswith`;
  - `" ".join`, `replace` of one character, `splitlines` up to empty pieces,
    `split()`;
  - decimal rendering of a `nat`.
- `Segmenter` (`segmenter.dfy`): `_group_words_into_segments`.
  - The imperative loop, with its buffer, segment start and speaker, is proved equal to
    a recursive reference cut.
  - The reference cut is proved to be the one and only cut with the required properties.
- `Redaction` (`redaction.dfy`): `Redactor`, `redact_text` and `redact_segments`.
  - The regular expressions are one abstract substitution function `sub`.
  - The five rules, their order and the fold over them are modelled exactly.
  - `_REDACTOR` is an `Option<Redactor>`, `None` when redaction is switched off.
- `Mimetype` (`mimetype.dfy`): `_guess_mimetype` plus the extension fallback of
  `get_audio`.
  - The result of `mimetypes.guess_type` is an `Option<string>` input.
  - `os.path.splitext` is modelled on POSIX paths.
- `Transcription` (`transcription.dfy`): the decisions of `transcribe_file_structured`.
  - The provider's answer, the file size and the generated session id are inputs.
- `Indexing` (`indexing.dfy`): the batch of records `upsert_segments` writes, and its
  count.
- `Evaluate` (`evaluate.py` → `evaluate.dfy`): `dcg`, `ndcg_at_k`, `recall_at_k`, `mrr`.
  - Arithmetic is exact over `real`.
  - The discount `1/log2(i+2)` is an abstract function of the position. For the bounds
    it is positive and non-increasing.
- `Search` (`search.dfy`): the computations inside the `search_archives` route:
  - the session filter;
  - the ranked predicted ids;
  - parsing of the gold ids;
  - the inclusive score threshold;
  - the choice of the cutoff for the evaluation card.
- `Requests` (`requests.dfy`):
  - the URL checks of `process_url`;
  - the file-name checks of `upload_file`;
  - the suffix chosen for the temporary file;
  - the early returns of `highlight_query`.

Two places where the code promises a little more than it does:

- The segmenter's duration rule. The docstring calls `max_duration` the maximum duration
  of any segment (voice_archive.py:193, 201). The code tests every later word against the
  segment's start: `w.end - seg_start > max_duration` at voice_archive.py:225-228. So
  every segment of two or more words spans at most `max_duration`
  (`Segmenter.SegmentProperties`). The first word of a segment is never tested, so a
  single word longer than `max_duration` still forms a longer segment.
- Record ids. The comment at voice_archive.py:432 calls an id unique per session, file and segment. As
  written, two segments whose session or file contain `:` can share an id
  (`Indexing.RecordIdCollision`). Within one batch the positions still keep ids distinct
  (`Indexing.RecordIdsDistinct`).

## Model

| member | source | states |
|---|---|---|
| Segmenter.GroupWordsIntoSegments | voice_archive.py:181-243 | The loop over the words emits exactly the reference segmentation: the longest run of words that no split rule breaks, then the same for the rest. |
| Segmenter.CutFrom | voice_archive.py:224-235 | The segment opened by the first word stays open through every later word that triggers no split. It closes exactly at the first word that does: a pause longer than `max_gap`, an end more than `max_duration` after the segment start, or a different speaker. |
| Segmenter.SplitsMonotone | voice_archive.py:228 | Tighter limits split wherever looser ones do, and a speaker change splits whatever the limits. |
| Segmenter.MakeSegment | voice_archive.py:229-230 | A flushed segment carries the caller's file and session, and for well-timed chronological words it starts no later than it ends. |
| Segmenter.SpanOrdered | voice_archive.py:238-241 | A non-empty group of well-timed chronological words starts no later than its last word ends. |
| Segmenter.Partition | voice_archive.py:206-243 | No group is empty, there are no more groups than words, and there are no groups exactly when there are no words. |
| Segmenter.PartitionIsSegmentation | voice_archive.py:211-241 | Coverage: the groups concatenated are the input words, in order. Each group is cohesive, and each group after the first starts with a word that triggers a split against the group before. |
| Segmenter.SegmentationUnique | voice_archive.py:228-235 | Two cuts with these properties are equal, so the split rule decides every boundary: a new segment starts at a word exactly when a split condition holds. |
| Segmenter.SegmentationIsPartition | voice_archive.py:228-235 | Every cut with these properties is the reference cut. |
| Segmenter.SegmentationUnfold | voice_archive.py:229-233 | The first segment emitted is the longest cohesive prefix; the remaining segments are those of the words after it. |
| Segmenter.SegmentProperties | voice_archive.py:217-241 | Segment k carries the file and session. Its speaker and start come from its first word, its end from its last word, and its text is the words joined by single spaces. Every later word has the segment's speaker, a gap of at most `max_gap` and an end at most `max_duration` after the start, so a segment of two or more words spans at most `max_duration`. |
| Segmenter.FirstSegmentStart | voice_archive.py:217-221 | Non-empty words give at least one segment, and the first segment starts where the first word starts. |
| Segmenter.SegmentTextCoverage | voice_archive.py:229-241 | The segments' texts joined by spaces equal the words' texts joined by spaces: no word is dropped, repeated or moved. |
| Segmenter.JoinGroupTexts | voice_archive.py:229-241 | The texts of the segments of any groups, joined by spaces, are the texts of all their words joined by spaces. |
| Segmenter.SegmentsOrdered | voice_archive.py:229-241 | For well-timed words in chronological order, no segment ends before it starts, and no segment ends after the next one starts. |
| Segmenter.PauseSplitsExample | voice_archive.py:228 | With the default limits, a pause of 4.1 s closes a segment of one speaker. |
| Segmenter.SpeakerTurnExample | voice_archive.py:228 | A speaker change closes a segment even when the limits are generous. |
| Redaction.Redact | voice_archive.py:109-113 | Redacting applies the redactor's rules in list order, each to the previous output. With no rules the text is unchanged. |
| Redaction.ApplyRulesSnoc | voice_archive.py:111-112 | One more trip round the loop: the next rule rewrites what the rules before it produced. |
| Redaction.ApplyRulesAppend | voice_archive.py:110-112 | Folding two rule lists one after the other is folding their concatenation. |
| Redaction.DefaultRuleOrder | voice_archive.py:96-107 | The default redactor masks cards, then SSNs, then e-mail addresses, then phone numbers, then IPv4 addresses, with placeholders `[CARD]` `[SSN]` `[EMAIL]` `[PHONE]` `[IP]`. |
| Redaction.ApplyRulesFixpoint | voice_archive.py:109-113 | Text that no single rule changes is unchanged by the whole redactor. |
| Redaction.RedactText | voice_archive.py:143-152 | With redaction off the text passes unchanged; otherwise it is the fold of the rules. |
| Redaction.RedactedSegment | voice_archive.py:163-175 | Redacting a segment changes its text and nothing else; with redaction off the segment is unchanged. |
| Redaction.RedactedAll | voice_archive.py:163-175 | The redacted list has the input's length, and element i is segment i with only its text redacted. |
| Redaction.RedactSegments | voice_archive.py:155-175 | With redaction off the input list comes back. Otherwise the result has the same length, speaker, start, end, file and session are unchanged, and only the text is redacted. |
| Mimetype.Extension | voice_archive.py:134 | `os.path.splitext(path)[1]`: empty, or a suffix of the path that starts with its only `.`, holds no `/`, and follows a non-dot character of the last path component. |
| Mimetype.ExtensionSplit | voice_archive.py:134 | A last component holding a non-dot character, then `.` and a dot-free suffix, has exactly that `.`-suffix as its extension. |
| Mimetype.ExtensionNone | voice_archive.py:134 | A last component whose only dots are leading ones has no extension. |
| Mimetype.GuessMimetype | voice_archive.py:118-139 | The result is non-empty and lower-case. It is never a non-canonical WAV or MP3 alias. |
| Mimetype.GuessMimetypeCases | voice_archive.py:122-139 | WAV aliases in any case give `audio/wav`, and MP3 aliases give `audio/mpeg`. Any other guess is lower-cased. With no guess, `.wav` `.wave` `.wav64` `.bwav` give `audio/wav`, `.mp3` gives `audio/mpeg`, and anything else gives `application/octet-stream`; the extension is lower-cased first. |
| Mimetype.GuessMimetypeIdempotent | voice_archive.py:122-131 | Feeding a result back in as the guess returns it unchanged. |
| Mimetype.GuessUpperCaseWav | voice_archive.py:134-136 | `calls/Meeting.WAV` without a guess is `audio/wav`. |
| Mimetype.GuessWav64 | voice_archive.py:135-136 | `take.wav64` without a guess is `audio/wav`. |
| Mimetype.GuessEmptyGuess | voice_archive.py:123 | An empty guess is no guess: `song.mp3` gives `audio/mpeg`. |
| Mimetype.GuessDotFile | voice_archive.py:134-139 | `dir.v2/.wav` has no extension and gives `application/octet-stream`. |
| Mimetype.GuessAliasAnyCase | voice_archive.py:124-127 | The guess `Audio/X-WAV` normalises to `audio/wav`. |
| Mimetype.AudioMediaType | app.py:885-889 | A guessed type is served as-is. Without one, `audio/wav` is served exactly for a lower-cased `.wav` or `.wave` extension, and `audio/mpeg` for anything else. |
| Mimetype.AudioMediaTypeAgreement | app.py:886-889 | Without a guess, `get_audio` and `_guess_mimetype` agree exactly when the extension is `.wav`, `.wave` or `.mp3`. |
| Transcription.Basename | voice_archive.py:280 | `os.path.basename`: the suffix of the path after its last `/`, or the whole path when it holds none. |
| Transcription.ChooseSession | voice_archive.py:281 | The caller's session id unless it is absent or empty, else the generated one. |
| Transcription.TranscribeStructured | voice_archive.py:269-331 | No segments exactly when the file is empty or unreadable, the call failed, or the answer has neither words nor transcript. Words give the default-limit segmentation; a transcript alone gives one untimed segment without speaker. Every segment carries the base name and the chosen session. |
| Indexing.NonBlank | voice_archive.py:421 | The kept segments are no more than the input, and none is blank. |
| Indexing.NonBlankMembers | voice_archive.py:421 | A segment is kept exactly when it is in the input and its text is not blank. |
| Indexing.NonBlankAppend | voice_archive.py:421 | The filter distributes over concatenation, so the kept segments keep their order. |
| Indexing.NonBlankEmpty | voice_archive.py:421-424 | Nothing is kept exactly when every text is blank. |
| Indexing.SpeakerLabel | voice_archive.py:436 | The stored speaker is the segment's speaker, or `unknown` when it is absent or empty. |
| Indexing.ZipRecords | voice_archive.py:429-443 | There are as many records as the shorter of the two lists. Record i pairs segment i with vector i, under id `session:file:i` and with the six metadata fields. |
| Indexing.RecordId | voice_archive.py:432 | The id starts with the session and a `:`, has a `:` right after the file, and the text after that last `:` is the decimal position. |
| Indexing.MakeRecord | voice_archive.py:429-441 | A record carries the id of its segment's position and its vector; text, times, file and session are the segment's own, and the speaker label is never empty. |
| Indexing.UpsertBatch | voice_archive.py:425-443 | No more records than segments, and record i has the id of segment i at position i. |
| Indexing.RecordIdsDistinct | voice_archive.py:432 | Equal ids have equal positions, so records of one batch never share an id. |
| Indexing.RecordIdCollision | voice_archive.py:432 | Session `a:b` with file `c.wav` and session `a` with file `b:c.wav` give the same id. |
| Indexing.UpsertBatchEmpty | voice_archive.py:414-424 | Nothing is written when there are no segments or every redacted text is blank. |
| Indexing.UpsertBatchRecords | voice_archive.py:425-443 | Otherwise the count is the smaller of the number of segments and the number of vectors. Record i has the id `session:file:i` of segment i, the i-th vector and segment i's redacted metadata. |
| Indexing.UpsertMisalignment | voice_archive.py:421-429 | For a blank segment followed by `hello`, the one record stores the blank text with the vector of `hello`. `hello` itself is never indexed. |
| Indexing.BuildPayloads | voice_archive.py:427-443 | The payload loop builds exactly the zip of segments and vectors described above. |
| Indexing.UpsertSegments | voice_archive.py:399-447 | The method builds the batch described above, and the returned count is the number of records written. |
| Indexing.AlignedBatchPairing | voice_archive.py:421-429 | With each non-blank segment zipped with its own vector, there is one record per non-blank segment, and each record stores the text its vector was computed from. |
| Indexing.UpsertSegmentsAligned | voice_archive.py:399-447 | The corrected method builds the aligned batch, and the returned count is its size. |
| Evaluate.Take | evaluate.py:54 | `pred_ids[:k]`: the first k ids, or all of them when fewer. |
| Evaluate.Gains | evaluate.py:55 | One binary gain per id, 1 exactly for a gold id. |
| Evaluate.Dcg | evaluate.py:30-37 | For binary gains and a positive non-increasing discount, DCG lies between 0 and the sum of the largest discounts, one per relevant position. |
| Evaluate.IdealGains | evaluate.py:57 | The ideal gains keep the length and are binary and non-increasing. |
| Evaluate.IdealGainsSorted | evaluate.py:57 | The ideal gains are binary, non-increasing and a permutation of the gains. That is the descending sort. |
| Evaluate.SortedIsIdeal | evaluate.py:57 | Binary gains already non-increasing are their own descending sort. |
| Evaluate.DcgFromBound | evaluate.py:37 | For any positive non-increasing discount, the DCG of binary gains is at least 0 and at most the sum of the largest discounts, one per relevant position. |
| Evaluate.IdealDcg | evaluate.py:56-58 | The ideal DCG is exactly that sum. |
| Evaluate.NdcgAtK | evaluate.py:52-53 | A non-positive cutoff scores 0. |
| Evaluate.NdcgBounds | evaluate.py:40-59 | With a positive non-increasing discount, nDCG lies in [0, 1]. |
| Evaluate.NdcgNoHit | evaluate.py:55-59 | With no gold id among the first k predictions, nDCG is 0 for any discount. |
| Evaluate.NdcgPerfect | evaluate.py:55-59 | nDCG is 1 when the first k gains are non-increasing and one of them is relevant. This holds however many gold ids were missed. |
| Evaluate.RecallAtK | evaluate.py:62-72 | Recall is 0 for an empty gold set or a non-positive cutoff. Otherwise it is the number of distinct top-k ids in gold over the size of gold. It lies in [0, 1], and it is 1 exactly when every gold id is among the top k. |
| Evaluate.RecallDistinct | evaluate.py:71 | Recall depends only on the set of top-k ids. |
| Evaluate.RecallDuplicateExample | evaluate.py:71-72 | Predicting the same gold id twice retrieves one of two relevant ids: recall 0.5. |
| Evaluate.MrrFrom | evaluate.py:82-85 | From rank r on, the scan gives 0 exactly when nothing is relevant, and never more than 1/r. |
| Evaluate.MrrFromFirstHit | evaluate.py:82-84 | The scan returns one over the rank of the first relevant prediction. |
| Evaluate.Mrr | evaluate.py:75-85 | MRR is 0 exactly when no prediction is relevant, and it lies in [0, 1]. |
| Evaluate.MrrFirstHit | evaluate.py:82-84 | When the first relevant prediction is at zero-based position i, MRR is 1/(i+1). |
| Evaluate.RefundExample | evaluate.py:91-94 | First demo query: recall@5 is 1 and MRR is 1/2. nDCG@5 is (d1+d2)/(d0+d1) for discounts d. |
| Evaluate.LaunchExample | evaluate.py:95-98 | Second demo query: recall@5 is 1 and MRR is 1/2. nDCG@5 is d1/d0. |
| Search.SessionFilter | app.py:772-774 | A filter `session == scope` exists exactly when the checkbox is `on` and the scope is non-empty. |
| Search.PredIds | app.py:779 | No more ids than matches, and none of them empty. |
| Search.PredIdsAppend | app.py:779 | The extraction distributes over concatenation, so the ranked order is kept. |
| Search.PredIdsMembers | app.py:779 | An id is predicted exactly when it is non-empty and some match carries it. |
| Search.PredIdsAllPresent | app.py:779 | When every match has an id, the ids are the matches' ids position by position. |
| Search.GoldLines | app.py:782-783 | After commas become newlines and the text is split into lines, no line holds a comma or a line break. |
| Search.StripLineClean | app.py:783 | A stripped non-empty line is a clean id: non-empty, trimmed, with no comma or line break. |
| Search.ParseGoldIds | app.py:782-783 | Every parsed gold id is clean. |
| Search.ParseJoinedIds | app.py:782-783 | Clean ids joined by commas parse back to exactly the set of those ids. |
| Search.ReplaceJoin | app.py:782 | Comma-free ids joined by commas become the same ids joined by newlines once commas are replaced. |
| Search.JoinAvoids | app.py:782 | Ids and separators free of a character join into text free of it. |
| Search.JoinNoComma | app.py:782-783 | For clean ids joined by a comma-free separator, replacing commas changes nothing before the split. |
| Search.GoldFromLines | app.py:783 | When every line is blank or one of the clean ids, and every id is a line, the gold set is exactly the set of ids. |
| Search.ParseLineIds | app.py:782-783 | Clean ids pasted one per line with `\n` parse back to exactly the set of those ids. |
| Search.SplitCrLfStep | app.py:783 | A line ended by `\r\n` splits off as its own piece followed by one empty piece. |
| Search.SplitJoinCrLf | app.py:783 | Splitting text joined by `\r\n` gives only blank lines and the pieces, and every piece appears. |
| Search.ParseCrLfIds | app.py:782-783 | Clean ids pasted one per line with `\r\n`, as a browser submits a text area, parse back to exactly the set of those ids. |
| Search.SplitAtBreaksBlank | app.py:783 | Splitting blank text into lines gives only blank lines. |
| Search.BlankGoldEmpty | app.py:782-783 | Text made only of commas and blanks, the empty text included, gives no gold ids. |
| Search.SplitAtBreaksKeeps | app.py:783 | Every character that is not a line break lands in some line. |
| Search.GoldFromVisible | app.py:782-783 | One character that is neither a comma nor a blank is enough for a non-empty gold set. |
| Search.GoldEmptyIff | app.py:782-783 | The gold set is empty exactly when every character is a comma or a blank, so the evaluation card appears exactly otherwise. |
| Search.AboveThreshold | app.py:806 | Every kept match meets the threshold, and there are no more kept than given. |
| Search.AboveThresholdAppend | app.py:806 | The filter distributes over concatenation, so the original order is kept. |
| Search.AboveThresholdMembers | app.py:806 | A match is kept exactly when it is present and has a score at or above the threshold. |
| Search.ThresholdBoundary | app.py:806 | A score equal to the threshold is kept; a missing score is dropped. |
| Search.Evaluation | app.py:787-791 | Scores exist exactly when gold is non-empty. The cutoff is `min(top_k, len(pred_ids))`; nDCG and recall use that cutoff, and MRR uses the whole list. |
| Search.EvaluationBounds | app.py:787-791 | Every score shown lies in [0, 1]. |
| Search.EvaluationWholeList | app.py:788-791 | When `top_k` covers every prediction, recall is 1 exactly when every gold id was predicted. No predictions give 0 for all three scores. |
| Strings.TrimStart | app.py:627 | The left-trimmed text is a suffix of the input whose first character is not whitespace, and everything dropped is whitespace. |
| Strings.TrimEnd | app.py:627 | The right-trimmed text is a prefix of the input whose last character is not whitespace, and everything dropped is whitespace. |
| Strings.StripOffset | app.py:627 | The stripped text is the slice of the input that begins right after the leading whitespace. |
| Strings.StripTrimmed | app.py:627 | Stripping text that has no whitespace at either end returns it unchanged. |
| Strings.Strip | app.py:627 | The stripped text has no whitespace at either end and is no longer than the input. |
| Strings.Lower | voice_archive.py:124 | Lower-casing keeps the length, leaves no upper-case ASCII letter, and leaves lower-case text unchanged. |
| Strings.ReplaceChar | app.py:782 | Replacing one character by another keeps the length and changes exactly the positions that held it. |
| Strings.SplitAtBreaks | app.py:783 | Splitting into lines gives at least one piece, and no piece holds a line break. |
| Strings.SplitWhitespace | app.py:281 | `str.split()` yields non-empty tokens without whitespace, and none exactly for blank text. |
| Strings.SplitAtSpace | app.py:281 | Splitting at a whitespace character is splitting both sides and concatenating the tokens. |
| Strings.SplitJoinWords | app.py:281 | Non-empty whitespace-free words joined by single spaces split back into exactly those words. |
| Strings.NatToString | voice_archive.py:432 | `str(i)` is one or more decimal digits whose decimal value is i, with no leading zero, and two or more digits from 10 on. |
| Strings.StripEmpty | voice_archive.py:421 | Stripping leaves nothing exactly when every character is whitespace, so `s.strip()` is false exactly for blank text. |
| Strings.SplitJoinLines | app.py:783 | Splitting lines joined by newlines gives the lines back. |
| Strings.JoinAppend | voice_archive.py:229 | Joining two non-empty lists is joining each and gluing them with one separator. |
| Strings.NatToStringInjective | voice_archive.py:432 | Different positions render as different decimals. |
| Requests.ValidateUrl | app.py:623-637 | A missing or empty URL is reported as no URL. Otherwise the stripped URL is accepted exactly when it starts with `http://` or `https://` and, lower-cased, ends in `.mp3` or `.wav`. A bad scheme is reported before a bad extension. |
| Requests.BlankUrlRejected | app.py:623-633 | Any non-empty URL made only of blanks passes the emptiness test and is then rejected for its scheme. |
| Requests.UrlPadded | app.py:627-637 | A valid URL with one blank on either side is accepted, and the accepted value has the blanks removed. |
| Requests.AudioNameAnyCase | app.py:571 | The extension test ignores letter case: `a.MP3` is accepted and `a.mp4` is refused. |
| Requests.ValidateUpload | app.py:567-573 | No file is reported as such. A name is accepted exactly when, lower-cased, it ends in `.mp3` or `.wav`. |
| Requests.TempSuffix | app.py:580 | The temporary file gets `.wav` exactly for names ending in `.wav` in any case, and `.mp3` otherwise. |
| Requests.AcceptedSuffix | app.py:571-580 | An accepted name ends, lower-cased, in its temporary file's suffix. |
| Requests.LongTerms | app.py:281 | The kept terms are longer than two characters, and every such token is kept. None are kept exactly when no token is that long. |
| Requests.LongTermsMembers | app.py:281 | A term is kept exactly when it is a token longer than two characters. |
| Requests.LongTermsAppend | app.py:281 | The filter distributes over concatenation, so the terms keep the query's order. |
| Requests.HighlightQuery | app.py:273-285 | An empty text or query, or a query with no term longer than two characters, returns the text unchanged. Otherwise the long terms are marked. |
| Requests.ShortQueryUnchanged | app.py:281-283 | A query of at most two characters never changes the text. |

## Left out

- The speech-to-text call, the embedding call and the vector-index write and query are
  network calls into foreign SDKs. Their results are inputs: `ProviderResult`, `Embedder`
  and the list of matches.
- The httpx download, temporary files, `os.path.getsize`, `open` and `FileResponse` are
  file and network I/O. The file size is an input.
- `batch_transcribe` and `process_audio_file` exist for thread-pool concurrency and are
  not modelled.
- The HTML rendering, the scripts and the response helpers are UI and are not modelled.
- The module-level `sessions` dictionary is global mutable UI state. The session lookup
  in `get_audio` is not modelled.
- The regular expressions of the redactor and of `highlight_query` are one abstract
  function each (`sub`, `mark`). Only which rules run, and their order, are modelled.
- Floating point: times and scores are exact `real`s, and `math.log2` is an abstract
  discount. The `:.3f` formatting is not modelled.
- The environment reads are not modelled:
  - `REDACT_PII` becomes the choice between `None` and `Some(DefaultRedactor)`;
  - `mimetypes.guess_type` becomes an `Option<string>` input;
  - `uuid.uuid4()` becomes the `generated` input.
- The word objects are duck-typed in the source (`getattr` with defaults). They are
  modelled as a `Word` with every attribute present.
- The stored metadata dictionary is the `Metadata` datatype, one field per key.
- Strings.Lower: lower-cases ASCII letters only, where Python's `str.lower` is full
  Unicode. The suffixes and aliases the core compares against are ASCII. A non-ASCII
  letter whose lower case is ASCII, such as the Kelvin sign, is not lowered.
- Strings.SplitAtBreaks: adds empty pieces that `str.splitlines` does not produce, one
  between `\r` and `\n` and one after a final line break, and gives `[""]` for the
  empty text where `"".splitlines()` is `[]`. The gold-id parser drops empty lines, so
  the parsed set is the same.
- Mimetype.Extension: POSIX paths only; the Windows separators of `ntpath` are not
  modelled.
- Evaluate.NdcgPerfect: states one direction only. nDCG can also be 1 for some
  unsorted gains when the discount has ties.
- Transcription.TranscribeStructured: the provider's answer is its first alternative of
  the first channel, already extracted. An answer with no words attribute is an empty word
  list.

## Findings

| source | as written | input that shows it | evidently intended | confidence | as-written member | corrected member |
|---|---|---|---|---|---|---|
| voice_archive.py:421-429 | Blank texts are dropped before embedding, but the records zip the vectors with all segments. The vectors then pair with the wrong segments, and the last non-blank segments go unindexed. | Segments with texts `""` then `"hello"`, one vector per text: one record, storing `""` with the vector of `"hello"`. | Each non-blank segment is stored with the vector of its own text. | not executed | Indexing.UpsertMisalignment | Indexing.AlignedBatchPairing |
