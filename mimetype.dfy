/**
  Content-type choice for audio files: `_guess_mimetype` in voice_archive.py,
  which picks the type sent to the transcription service, and the fallback in
  `get_audio` in app.py, which picks the type the audio player is served.
  The result of Python's `mimetypes.guess_type` is an input: `None` when it
  has no guess.
*/
module Mimetype {
  import opened Common
  import opened Strings

  /** The index of the last `c` in `s`, or -1 when there is none. */
  function LastIndexOf(s: string, c: char): (i: int)
    ensures -1 <= i < |s|
    ensures i >= 0 ==> s[i] == c
    ensures forall j :: i < j < |s| ==> s[j] != c
  {
    if s == [] then -1
    else if s[|s| - 1] == c then |s| - 1
    else LastIndexOf(s[..|s| - 1], c)
  }

  /** The contract of `LastIndexOf` pins it down: the last `c` is at `i`. */
  lemma LastIndexOfAt(s: string, c: char, i: int)
    requires -1 <= i < |s|
    requires i >= 0 ==> s[i] == c
    requires forall j :: i < j < |s| ==> s[j] != c
    ensures LastIndexOf(s, c) == i
  {
  }

  /**
    `os.path.splitext(path)[1]` on a POSIX path: from the last dot of the last
    path component to the end, provided some character before that dot in
    the component is not a dot; otherwise empty (so `.wav` alone has none).
  */
  function Extension(path: string): (ext: string)
    ensures ext != [] ==> |ext| <= |path| && ext == path[|path| - |ext|..] && ext[0] == '.'
    ensures forall i :: 0 <= i < |ext| ==> ext[i] != '/'
    ensures forall i :: 1 <= i < |ext| ==> ext[i] != '.'
    ensures ext != [] ==> exists k :: 0 <= k < |path| - |ext| && path[k] != '.' && forall j :: k <= j < |path| ==> path[j] != '/'
  {
    var sep := LastIndexOf(path, '/');
    var dot := LastIndexOf(path, '.');
    if dot > sep && exists k :: sep + 1 <= k < dot && path[k] != '.' then path[dot..] else ""
  }

  /**
    A last component `n.x`, with no dot in `x` and some non-dot in `n`, has the
    extension `.x`, whatever directories `d` come before it.
  */
  lemma ExtensionSplit(d: string, n: string, x: string)
    requires forall j :: 0 <= j < |n| ==> n[j] != '/'
    requires forall j :: 0 <= j < |x| ==> x[j] != '/' && x[j] != '.'
    requires exists k :: 0 <= k < |n| && n[k] != '.'
    ensures Extension(d + n + "." + x) == "." + x
  {
    var path := d + n + "." + x;
    var dot := |d| + |n|;
    assert forall j :: dot < j < |path| ==> path[j] == x[j - dot - 1];
    LastIndexOfAt(path, '.', dot);
    var sep := LastIndexOf(path, '/');
    assert forall j :: |d| <= j < dot ==> path[j] == n[j - |d|];
    assert sep < |d|;
    var k :| 0 <= k < |n| && n[k] != '.';
    assert path[|d| + k] == n[k];
    assert path[dot..] == "." + x;
  }

  /**
    The converse: when the last component `n` (after `d`, empty or ending in
    `/`) has nothing but dots before any of its dots, there is no extension;
    this covers a component without a dot and one such as `.wav`.
  */
  lemma ExtensionNone(d: string, n: string)
    requires d == [] || d[|d| - 1] == '/'
    requires forall j :: 0 <= j < |n| ==> n[j] != '/'
    requires forall j, k :: 0 <= k < j < |n| && n[j] == '.' ==> n[k] == '.'
    ensures Extension(d + n) == ""
  {
    var path := d + n;
    assert forall j :: |d| <= j < |path| ==> path[j] == n[j - |d|];
    LastIndexOfAt(path, '/', |d| - 1);
    var dot := LastIndexOf(path, '.');
    if dot > |d| - 1 {
      assert n[dot - |d|] == '.';
      assert forall k :: |d| <= k < dot ==> path[k] == '.';
    }
  }

  /** Every spelling of WAV that `_guess_mimetype` folds into `audio/wav`. */
  const WavAliases: set<string> := {"audio/wav", "audio/x-wav", "audio/wave", "audio/x-pn-wav", "audio/vnd.wave"}

  /** Every spelling of MP3 that `_guess_mimetype` folds into `audio/mpeg`. */
  const Mp3Aliases: set<string> := {"audio/mpeg", "audio/mp3", "audio/mpeg3", "audio/x-mp3", "audio/x-mpeg"}

  /** The extensions `_guess_mimetype` takes for WAV when there is no guess. */
  const WavExtensions: set<string> := {".wav", ".wave", ".wav64", ".bwav"}

  /**
    `_guess_mimetype`: a non-empty guess is lower-cased and WAV or MP3 aliases
    become `audio/wav` or `audio/mpeg`; without one the lower-cased extension
    decides, and anything unknown is `application/octet-stream`. The result is
    never empty, holds no upper-case letter and is never a non-canonical alias.
  */
  function GuessMimetype(path: string, guessed: Option<string>): (mt: string)
    ensures mt != "" && IsLower(mt)
    ensures mt in WavAliases ==> mt == "audio/wav"
    ensures mt in Mp3Aliases ==> mt == "audio/mpeg"
  {
    if guessed.Some? && guessed.value != "" then
      var m := Lower(guessed.value);
      if m in WavAliases then "audio/wav"
      else if m in Mp3Aliases then "audio/mpeg"
      else m
    else
      var ext := Lower(Extension(path));
      if ext in WavExtensions then "audio/wav"
      else if ext == ".mp3" then "audio/mpeg"
      else "application/octet-stream"
  }

  /**
    Normalisation is idempotent: feeding the chosen type back in as the guess
    chooses it again.
  */
  lemma GuessMimetypeIdempotent(path: string, guessed: Option<string>)
    ensures GuessMimetype(path, Some(GuessMimetype(path, guessed))) == GuessMimetype(path, guessed)
  {
    var mt := GuessMimetype(path, guessed);
    assert Lower(mt) == mt;
  }

  /**
    The cases of `_guess_mimetype`: aliases in any letter case are folded, any
    other guess is returned lower-cased, and an absent or empty guess falls
    back to the extension in any letter case.
  */
  lemma GuessMimetypeCases(path: string, guessed: Option<string>)
    ensures guessed.Some? && guessed.value != "" && Lower(guessed.value) in WavAliases ==>
              GuessMimetype(path, guessed) == "audio/wav"
    ensures guessed.Some? && guessed.value != "" && Lower(guessed.value) in Mp3Aliases ==>
              GuessMimetype(path, guessed) == "audio/mpeg"
    ensures guessed.Some? && guessed.value != "" && Lower(guessed.value) !in WavAliases + Mp3Aliases ==>
              GuessMimetype(path, guessed) == Lower(guessed.value)
    ensures (guessed == None || guessed == Some("")) ==>
              GuessMimetype(path, guessed) ==
                (if Lower(Extension(path)) in WavExtensions then "audio/wav"
                 else if Lower(Extension(path)) == ".mp3" then "audio/mpeg"
                 else "application/octet-stream")
  {
  }

  /** An upper-case `.WAV` in a sub-directory is WAV. */
  lemma GuessUpperCaseWav()
    ensures GuessMimetype("calls/Meeting.WAV", None) == "audio/wav"
  {
    var p := "calls/Meeting.WAV";
    LastIndexOfAt(p, '/', 5);
    LastIndexOfAt(p, '.', 13);
    assert p[6] != '.';
    assert p[13..] == ".WAV";
    assert Lower(".WAV") == ".wav";
  }

  /** `.wav64` is one of the WAV extensions. */
  lemma GuessWav64()
    ensures GuessMimetype("take.wav64", None) == "audio/wav"
  {
    var p := "take.wav64";
    LastIndexOfAt(p, '/', -1);
    LastIndexOfAt(p, '.', 4);
    assert p[0] != '.';
    assert p[4..] == ".wav64";
    assert Lower(".wav64") == ".wav64";
  }

  /** An empty guess counts as no guess. */
  lemma GuessEmptyGuess()
    ensures GuessMimetype("song.mp3", Some("")) == "audio/mpeg"
  {
    assert "song.mp3" == "" + "song" + "." + "mp3";
    assert "song"[0] != '.';
    ExtensionSplit("", "song", "mp3");
    assert IsLower(".mp3");
    assert ".mp3"[1] != ".wav"[1];
    assert ".mp3" !in WavExtensions;
  }

  /** A file named `.wav` has no extension, whatever dots the directory holds. */
  lemma GuessDotFile()
    ensures GuessMimetype("dir.v2/.wav", None) == "application/octet-stream"
  {
    var p := "dir.v2/.wav";
    LastIndexOfAt(p, '/', 6);
    LastIndexOfAt(p, '.', 7);
    assert Extension(p) == "";
    assert Lower("") == "";
  }

  /** A guess wins over the extension, and aliases are matched in any letter case. */
  lemma GuessAliasAnyCase()
    ensures GuessMimetype("x.mp3", Some("Audio/X-WAV")) == "audio/wav"
  {
    assert Lower("Audio/X-WAV") == "audio/x-wav";
  }

  /**
    The content type `get_audio` serves: the guess unchanged when there is
    one, otherwise `audio/wav` for `.wav` and `.wave` in any letter case and
    `audio/mpeg` for everything else.
  */
  function AudioMediaType(path: string, guessed: Option<string>): (mt: string)
    ensures guessed.Some? && guessed.value != "" ==> mt == guessed.value
    ensures (guessed == None || guessed == Some("")) ==> (mt == "audio/wav" <==> Lower(Extension(path)) in {".wav", ".wave"})
    ensures (guessed == None || guessed == Some("")) ==> mt in {"audio/wav", "audio/mpeg"}
  {
    if guessed.Some? && guessed.value != "" then guessed.value
    else
      var ext := Lower(Extension(path));
      if ext in {".wav", ".wave"} then "audio/wav" else "audio/mpeg"
  }

  /**
    Without a guess the player's type and the transcription type agree on
    `.wav`, `.wave` and `.mp3` files, and differ on every other extension:
    `.wav64` and `.bwav` are WAV for transcription but served as MPEG, and an
    unknown extension is octet-stream for transcription but served as MPEG.
  */
  lemma AudioMediaTypeAgreement(path: string)
    ensures var ext := Lower(Extension(path));
            AudioMediaType(path, None) == GuessMimetype(path, None) <==> ext in {".wav", ".wave", ".mp3"}
  {
  }
}
