/**
  Input checks of the upload and URL routes of app.py, the suffix chosen for
  the temporary audio file, and the early returns of `highlight_query`. The
  download, the temporary files and the HTML responses are out of the model:
  each check returns the accepted value or the error it reports.
*/
module Requests {
  import opened Common
  import opened Strings

  /** The errors `process_url` reports before downloading. */
  datatype UrlError = NoUrl | BadScheme | NotAudio

  /** The errors `upload_file` reports before saving. */
  datatype UploadError = NoFile | BadFileType

  /** Lower-cased, the name ends in `.mp3` or `.wav`. */
  predicate AudioName(name: string) {
    EndsWith(Lower(name), ".mp3") || EndsWith(Lower(name), ".wav")
  }

  /** The URL begins with `http://` or `https://`. */
  predicate WebScheme(url: string) {
    StartsWith(url, "http://") || StartsWith(url, "https://")
  }

  /**
    `process_url`'s checks, in order: an absent or empty form field is "no
    URL"; the value is then stripped and must start with an http(s) scheme
    and, lower-cased, end in `.mp3` or `.wav`. The emptiness test comes
    before the strip, so a URL of spaces only fails the scheme test.
  */
  function ValidateUrl(audioUrl: Option<string>): (r: Result<string, UrlError>)
    ensures r == Err(NoUrl) <==> audioUrl == None || audioUrl == Some("")
    ensures r.Ok? <==> audioUrl.Some? && audioUrl.value != ""
                       && WebScheme(Strip(audioUrl.value)) && AudioName(Strip(audioUrl.value))
    ensures r == Err(BadScheme) <==> audioUrl.Some? && audioUrl.value != "" && !WebScheme(Strip(audioUrl.value))
    ensures r.Ok? ==> r.value == Strip(audioUrl.value) && Trimmed(r.value)
  {
    if audioUrl == None || audioUrl.value == "" then Err(NoUrl)
    else
      var url := Strip(audioUrl.value);
      if !WebScheme(url) then Err(BadScheme)
      else if !AudioName(url) then Err(NotAudio)
      else Ok(url)
  }

  /** A non-empty URL of blanks is not "no URL": it is rejected for its scheme. */
  lemma BlankUrlRejected(url: string)
    requires url != "" && IsBlank(url)
    ensures ValidateUrl(Some(url)) == Err(BadScheme)
  {
    StripEmpty(url);
  }

  /** One blank on either side of trimmed text is stripped off. */
  lemma StripPadded(v: string)
    requires v != [] && Trimmed(v)
    ensures Strip(" " + v + " ") == v
  {
    var u := " " + v + " ";
    assert u[1..] == v + " ";
    assert TrimStart(v + " ") == v + " ";
    assert TrimStart(u) == v + " ";
    assert (v + " ")[..|v|] == v;
  }

  /** A valid URL with one blank on either side is accepted, and the blanks are dropped. */
  lemma UrlPadded(v: string)
    requires v != [] && Trimmed(v) && WebScheme(v) && AudioName(v)
    ensures ValidateUrl(Some(" " + v + " ")) == Ok(v)
  {
    StripPadded(v);
  }

  /** The extension test ignores letter case: `a.MP3` is audio, `a.mp4` is not. */
  lemma AudioNameAnyCase()
    ensures AudioName("a.MP3")
    ensures !AudioName("a.mp4")
  {
    var l := Lower("a.MP3");
    assert l[1] == '.' && l[2] == 'm' && l[3] == 'p' && l[4] == '3';
    assert l[1..] == ".mp3";
    var m := Lower("a.mp4");
    assert m[4] == '4';
  }

  /**
    `upload_file`'s checks: a missing file (or one without a name) is "no
    file"; a name that does not end in `.mp3` or `.wav`, in any letter case,
    is refused.
  */
  function ValidateUpload(filename: Option<string>): (r: Result<string, UploadError>)
    ensures r == Err(NoFile) <==> filename == None
    ensures r.Ok? <==> filename.Some? && AudioName(filename.value)
    ensures r.Ok? ==> r.value == filename.value
  {
    if filename == None then Err(NoFile)
    else if !AudioName(filename.value) then Err(BadFileType)
    else Ok(filename.value)
  }

  /** The temporary file's suffix: `.wav` for a name ending in `.wav` in any letter case, else `.mp3`. */
  function TempSuffix(name: string): (suffix: string)
    ensures suffix == ".wav" || suffix == ".mp3"
    ensures suffix == ".wav" <==> EndsWith(Lower(name), ".wav")
  {
    if EndsWith(Lower(name), ".wav") then ".wav" else ".mp3"
  }

  /** An accepted name ends, lower-cased, in the suffix chosen for its temporary file. */
  lemma AcceptedSuffix(name: string)
    requires AudioName(name)
    ensures EndsWith(Lower(name), TempSuffix(name))
  {
  }

  /** The whitespace-separated query terms longer than two characters, in order. */
  function LongTerms(tokens: seq<string>): (terms: seq<string>)
    ensures forall i :: 0 <= i < |terms| ==> |terms[i]| > 2
    ensures forall i :: 0 <= i < |tokens| && |tokens[i]| > 2 ==> tokens[i] in terms
    ensures terms == [] <==> forall i :: 0 <= i < |tokens| ==> |tokens[i]| <= 2
  {
    if tokens == [] then []
    else
      var rest := LongTerms(tokens[1..]);
      assert forall i :: 1 <= i < |tokens| ==> tokens[i] == tokens[1..][i - 1];
      if |tokens[0]| > 2 then [tokens[0]] + rest else rest
  }

  /** A word is a term exactly when it is one of the tokens and is longer than two characters. */
  lemma {:induction false} LongTermsMembers(tokens: seq<string>, x: string)
    ensures x in LongTerms(tokens) <==> x in tokens && |x| > 2
  {
    if tokens != [] {
      LongTermsMembers(tokens[1..], x);
      ConsTail(tokens);
    }
  }

  /** The filter distributes over concatenation, so the terms keep the order of the query. */
  lemma {:induction false} LongTermsAppend(a: seq<string>, b: seq<string>)
    ensures LongTerms(a + b) == LongTerms(a) + LongTerms(b)
  {
    if a == [] {
      assert a + b == b;
    } else {
      var tail := a[1..];
      SliceAppend(a, b, 1);
      LongTermsAppend(tail, b);
      var head := if |a[0]| > 2 then [a[0]] else [];
      LongTermsUnfold(a);
      LongTermsUnfold(a + b);
      ConcatAssoc(head, LongTerms(tail), LongTerms(b));
    }
  }

  /** One step of the filter. */
  lemma LongTermsUnfold(tokens: seq<string>)
    requires tokens != []
    ensures LongTerms(tokens) == (if |tokens[0]| > 2 then [tokens[0]] else []) + LongTerms(tokens[1..])
  {
  }

  /**
    `highlight_query`: the text comes back unchanged when it or the query is
    empty, or when no query word is longer than two characters; otherwise
    `mark` wraps every occurrence of the long terms. The regular-expression
    substitution itself is the abstract `mark`.
  */
  function HighlightQuery(text: string, query: string, mark: (seq<string>, string) -> string): (r: string)
    ensures text == "" || query == "" ==> r == text
    ensures (forall i :: 0 <= i < |SplitWhitespace(query)| ==> |SplitWhitespace(query)[i]| <= 2) ==> r == text
    ensures text != "" && query != "" && LongTerms(SplitWhitespace(query)) != [] ==>
              r == mark(LongTerms(SplitWhitespace(query)), text)
  {
    if text == "" || query == "" then text
    else
      var terms := LongTerms(SplitWhitespace(query));
      if terms == [] then text else mark(terms, text)
  }

  /** No word is longer than the query it comes from. */
  lemma {:induction false} TokensShorter(s: string)
    ensures forall i :: 0 <= i < |SplitWhitespace(s)| ==> |SplitWhitespace(s)[i]| <= |s|
    decreases |s|
  {
    var t := TrimStart(s);
    if t != [] {
      var n := LeadingRun(t);
      TokensShorter(t[n..]);
    }
  }

  /** A query of at most two characters highlights nothing. */
  lemma ShortQueryUnchanged(text: string, query: string, mark: (seq<string>, string) -> string)
    requires |query| <= 2
    ensures HighlightQuery(text, query, mark) == text
  {
    TokensShorter(query);
  }
}
