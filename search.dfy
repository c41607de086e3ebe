/**
  The pure pieces of the `search_archives` handler in app.py: the session
  filter sent with the query, the ranked list of predicted ids, the parsing of
  the pasted gold ids, the choice of cutoff for the metrics and the
  similarity-threshold filter on the matches. The query to the vector index
  and the rendering of the result cards are out of the model; the index's
  matches are an input.
*/
module Search {
  import opened Common
  import opened Strings
  import opened Evaluate

  /** A metadata filter `{field: {"$eq": value}}`. */
  datatype Filter = FieldEq(field: string, value: string)

  /** A match returned by the index: its id and its similarity score, either possibly missing. */
  datatype Match = Match(id: Option<string>, score: Option<real>)

  /** The metric values shown for a search, and the cutoff they use. */
  datatype Scores = Scores(k: int, ndcg: real, recall: real, mrr: real)

  /**
    The session filter: present only when the "limit to session" box is
    checked and a session is given, and then it matches that session exactly.
  */
  function SessionFilter(limitToSession: string, sessionScope: string): (flt: Option<Filter>)
    ensures flt.Some? <==> limitToSession == "on" && sessionScope != ""
    ensures flt.Some? ==> flt.value == FieldEq("session", sessionScope)
  {
    if limitToSession == "on" && sessionScope != "" then Some(FieldEq("session", sessionScope)) else None
  }

  /** The match has an id that is present and not empty. */
  predicate HasId(m: Match) {
    m.id.Some? && m.id.value != ""
  }

  /** `[m.id for m in matches if getattr(m, "id", None)]`. */
  function PredIds(matches: seq<Match>): (ids: seq<string>)
    ensures |ids| <= |matches|
    ensures forall i :: 0 <= i < |ids| ==> ids[i] != ""
  {
    if matches == [] then []
    else
      var rest := PredIds(matches[1..]);
      if HasId(matches[0]) then [matches[0].id.value] + rest else rest
  }

  /** Predicted ids keep the ranking: the ids of a concatenation are the ids of each part, in order. */
  lemma {:induction false} PredIdsAppend(a: seq<Match>, b: seq<Match>)
    ensures PredIds(a + b) == PredIds(a) + PredIds(b)
  {
    if a != [] {
      assert (a + b)[1..] == a[1..] + b;
      PredIdsAppend(a[1..], b);
    } else {
      assert a + b == b;
    }
  }

  /** An id is predicted exactly when some match carries it and it is not empty. */
  lemma {:induction false} PredIdsMembers(matches: seq<Match>, x: string)
    ensures x in PredIds(matches) <==> x != "" && exists i :: 0 <= i < |matches| && matches[i].id == Some(x)
  {
    if matches != [] {
      PredIdsMembers(matches[1..], x);
      assert forall i :: 1 <= i < |matches| ==> matches[i] == matches[1..][i - 1];
      if exists i :: 0 <= i < |matches| && matches[i].id == Some(x) {
        var i :| 0 <= i < |matches| && matches[i].id == Some(x);
        if i > 0 {
          assert matches[1..][i - 1].id == Some(x);
        }
      }
    }
  }

  /** When every match has an id, every match contributes one, in order. */
  lemma {:induction false} PredIdsAllPresent(matches: seq<Match>)
    requires forall i :: 0 <= i < |matches| ==> HasId(matches[i])
    ensures |PredIds(matches)| == |matches|
    ensures forall i :: 0 <= i < |matches| ==> matches[i].id == Some(PredIds(matches)[i])
  {
    if matches != [] {
      assert forall i :: 0 <= i < |matches[1..]| ==> matches[1..][i] == matches[i + 1];
      PredIdsAllPresent(matches[1..]);
    }
  }

  /** A gold id as the parser produces it: not empty, trimmed, free of commas and line breaks. */
  predicate CleanId(x: string) {
    && x != ""
    && Trimmed(x)
    && forall j :: 0 <= j < |x| ==> x[j] != ',' && !IsLineBreak(x[j])
  }

  /** No character of `s` is `c`. */
  predicate Avoids(s: string, c: char) {
    forall j :: 0 <= j < |s| ==> s[j] != c
  }

  /** The gold text with commas turned into line feeds, cut into lines. */
  function GoldLines(goldText: string): (lines: seq<string>)
    ensures forall i, j :: 0 <= i < |lines| && 0 <= j < |lines[i]| ==> lines[i][j] != ',' && !IsLineBreak(lines[i][j])
  {
    var replaced := ReplaceChar(goldText, ',', '\n');
    assert Avoids(replaced, ',');
    SplitAtBreaksChars(replaced, ',');
    SplitAtBreaks(replaced)
  }

  /** A character absent from the text is absent from every line of it. */
  lemma {:induction false} SplitAtBreaksChars(s: string, c: char)
    requires Avoids(s, c)
    ensures forall i :: 0 <= i < |SplitAtBreaks(s)| ==> Avoids(SplitAtBreaks(s)[i], c)
  {
    if s != [] {
      assert Avoids(s[1..], c);
      SplitAtBreaksChars(s[1..], c);
      var rest := SplitAtBreaks(s[1..]);
      if !IsLineBreak(s[0]) {
        assert Avoids(rest[0], c);
        var first := [s[0]] + rest[0];
        assert Avoids(first, c) by {
          assert forall j :: 1 <= j < |first| ==> first[j] == rest[0][j - 1];
        }
        assert SplitAtBreaks(s) == [first] + rest[1..];
      }
    }
  }

  /** Stripping a line that is free of commas and breaks leaves a clean id, unless nothing is left. */
  lemma StripLineClean(line: string)
    requires forall j :: 0 <= j < |line| ==> line[j] != ',' && !IsLineBreak(line[j])
    ensures Strip(line) != "" ==> CleanId(Strip(line))
  {
    StripOffset(line);
  }

  /**
    The gold set: commas become line breaks, each line is stripped, empty
    lines are dropped, and the rest are collected into a set. Every gold id
    is therefore clean.
  */
  function ParseGoldIds(goldText: string): (gold: set<string>)
    ensures forall x :: x in gold ==> CleanId(x)
  {
    var lines := GoldLines(goldText);
    assert forall i :: 0 <= i < |lines| ==> (Strip(lines[i]) != "" ==> CleanId(Strip(lines[i]))) by {
      forall i | 0 <= i < |lines| {
        StripLineClean(lines[i]);
      }
    }
    set i | 0 <= i < |lines| && Strip(lines[i]) != "" :: Strip(lines[i])
  }

  /** Joining with commas undoes nothing a replacement of commas by line feeds cannot recover. */
  lemma {:induction false} ReplaceJoin(ids: seq<string>)
    requires forall i, j :: 0 <= i < |ids| && 0 <= j < |ids[i]| ==> ids[i][j] != ','
    ensures ReplaceChar(Join(",", ids), ',', '\n') == Join("\n", ids)
  {
    if |ids| == 1 {
      ReplaceCharAbsent(ids[0], ',', '\n');
    } else if |ids| > 1 {
      ReplaceJoin(ids[1..]);
      ReplaceCharAppend(ids[0] + ",", Join(",", ids[1..]), ',', '\n');
      ReplaceCharAppend(ids[0], ",", ',', '\n');
      ReplaceCharAbsent(ids[0], ',', '\n');
      assert ReplaceChar(",", ',', '\n') == "\n";
    }
  }

  /**
    Round trip: pasting a comma-separated list of clean ids gives back
    exactly the set of those ids.
  */
  lemma ParseJoinedIds(ids: seq<string>)
    requires |ids| >= 1
    requires forall i :: 0 <= i < |ids| ==> CleanId(ids[i])
    ensures ParseGoldIds(Join(",", ids)) == set i | 0 <= i < |ids| :: ids[i]
  {
    ReplaceJoin(ids);
    SplitJoinLines(ids);
    assert GoldLines(Join(",", ids)) == ids;
    forall i | 0 <= i < |ids|
      ensures Strip(ids[i]) == ids[i]
    {
      StripTrimmed(ids[i]);
    }
  }

  /** Ids and separators free of a character join into text free of it. */
  lemma {:induction false} JoinAvoids(sep: string, ids: seq<string>, c: char)
    requires Avoids(sep, c)
    requires forall i :: 0 <= i < |ids| ==> Avoids(ids[i], c)
    ensures Avoids(Join(sep, ids), c)
  {
    if |ids| > 1 {
      JoinAvoids(sep, ids[1..], c);
      var t := Join(sep, ids[1..]);
      assert Join(sep, ids) == ids[0] + sep + t;
      forall j | 0 <= j < |ids[0] + sep + t|
        ensures (ids[0] + sep + t)[j] != c
      {
        if j < |ids[0]| {
        } else if j < |ids[0]| + |sep| {
          assert (ids[0] + sep + t)[j] == sep[j - |ids[0]|];
        } else {
          assert (ids[0] + sep + t)[j] == t[j - |ids[0]| - |sep|];
        }
      }
    }
  }

  /**
    The gold set of a text whose lines are the clean ids, in any order and
    with any number of empty lines between them, is exactly the set of the ids.
  */
  /** Every line is blank or one of `ids`, and every id is one of the lines. */
  predicate LinesCover(lines: seq<string>, ids: seq<string>) {
    && (forall i :: 0 <= i < |lines| ==> lines[i] == "" || lines[i] in ids)
    && (forall j :: 0 <= j < |ids| ==> ids[j] in lines)
  }

  lemma GoldFromLines(goldText: string, lines: seq<string>, ids: seq<string>)
    requires forall i :: 0 <= i < |ids| ==> CleanId(ids[i])
    requires lines == GoldLines(goldText) && LinesCover(lines, ids)
    ensures ParseGoldIds(goldText) == set i | 0 <= i < |ids| :: ids[i]
  {
    var want := set i | 0 <= i < |ids| :: ids[i];
    forall j | 0 <= j < |ids|
      ensures Strip(ids[j]) == ids[j]
    {
      StripTrimmed(ids[j]);
    }
    forall x | x in ParseGoldIds(goldText)
      ensures x in want
    {
      var i :| 0 <= i < |lines| && Strip(lines[i]) != "" && x == Strip(lines[i]);
      assert lines[i] != "";
      var j :| 0 <= j < |ids| && ids[j] == lines[i];
      assert x == ids[j];
    }
    forall x | x in want
      ensures x in ParseGoldIds(goldText)
    {
      var j :| 0 <= j < |ids| && x == ids[j];
      var i :| 0 <= i < |lines| && lines[i] == ids[j];
      assert Strip(lines[i]) == x;
    }
  }

  /** Clean ids joined by a comma-free separator leave the comma replacement nothing to do. */
  lemma JoinNoComma(sep: string, ids: seq<string>)
    requires Avoids(sep, ',')
    requires forall i :: 0 <= i < |ids| ==> CleanId(ids[i])
    ensures GoldLines(Join(sep, ids)) == SplitAtBreaks(Join(sep, ids))
  {
    forall i | 0 <= i < |ids|
      ensures Avoids(ids[i], ',')
    {
    }
    JoinAvoids(sep, ids, ',');
    ReplaceCharAbsent(Join(sep, ids), ',', '\n');
  }

  /** Round trip: clean ids pasted one per line give back exactly the set of those ids. */
  lemma ParseLineIds(ids: seq<string>)
    requires |ids| >= 1
    requires forall i :: 0 <= i < |ids| ==> CleanId(ids[i])
    ensures ParseGoldIds(Join("\n", ids)) == set i | 0 <= i < |ids| :: ids[i]
  {
    var text := Join("\n", ids);
    JoinNoComma("\n", ids);
    SplitJoinLines(ids);
    GoldFromLines(text, ids, ids);
  }

  /** A break-free piece followed by `\r\n` splits off as its own piece and an empty one. */
  lemma SplitCrLfStep(p: string, t: string)
    requires forall j :: 0 <= j < |p| ==> !IsLineBreak(p[j])
    ensures SplitAtBreaks(p + "\r\n" + t) == [p, ""] + SplitAtBreaks(t)
  {
    assert p + "\r\n" + t == p + ['\r'] + ("\n" + t);
    SplitAtBreaksPrefix(p, '\r', "\n" + t);
    assert [] + ['\n'] + t == "\n" + t;
    SplitAtBreaksPrefix([], '\n', t);
  }

  /** Splitting text joined by `\r\n` gives the pieces with an empty line between each two. */
  lemma {:induction false} SplitJoinCrLf(parts: seq<string>)
    requires |parts| >= 1
    requires forall i, j :: 0 <= i < |parts| && 0 <= j < |parts[i]| ==> !IsLineBreak(parts[i][j])
    ensures LinesCover(SplitAtBreaks(Join("\r\n", parts)), parts)
  {
    if |parts| == 1 {
      SplitAtBreaksNone(parts[0]);
    } else {
      var tail := parts[1..];
      SplitJoinCrLf(tail);
      var rest := SplitAtBreaks(Join("\r\n", tail));
      SplitCrLfStep(parts[0], Join("\r\n", tail));
      var lines := SplitAtBreaks(Join("\r\n", parts));
      assert lines == [parts[0], ""] + rest;
      forall i | 0 <= i < |lines|
        ensures lines[i] == "" || lines[i] in parts
      {
        if i >= 2 {
          assert lines[i] == rest[i - 2];
        }
      }
      forall j | 0 <= j < |parts|
        ensures parts[j] in lines
      {
        if j > 0 {
          assert parts[j] == tail[j - 1];
        }
      }
    }
  }

  /**
    Round trip: clean ids pasted one per line with `\r\n` line ends, as a
    browser submits a text area, give back exactly the set of those ids.
  */
  lemma ParseCrLfIds(ids: seq<string>)
    requires |ids| >= 1
    requires forall i :: 0 <= i < |ids| ==> CleanId(ids[i])
    ensures ParseGoldIds(Join("\r\n", ids)) == set i | 0 <= i < |ids| :: ids[i]
  {
    var text := Join("\r\n", ids);
    JoinNoComma("\r\n", ids);
    SplitJoinCrLf(ids);
    GoldFromLines(text, SplitAtBreaks(text), ids);
  }

  /** Every line of blank text is blank. */
  lemma {:induction false} SplitAtBreaksBlank(s: string)
    requires IsBlank(s)
    ensures forall i :: 0 <= i < |SplitAtBreaks(s)| ==> IsBlank(SplitAtBreaks(s)[i])
  {
    if s != [] {
      assert IsBlank(s[1..]);
      SplitAtBreaksBlank(s[1..]);
      var rest := SplitAtBreaks(s[1..]);
      if !IsLineBreak(s[0]) {
        var first := [s[0]] + rest[0];
        assert IsBlank(first) by {
          assert forall j :: 1 <= j < |first| ==> first[j] == rest[0][j - 1];
        }
        assert SplitAtBreaks(s) == [first] + rest[1..];
      }
    }
  }

  /** Text of nothing but whitespace and commas, the empty text included, names no gold id. */
  lemma BlankGoldEmpty(goldText: string)
    requires forall j :: 0 <= j < |goldText| ==> goldText[j] == ',' || IsSpace(goldText[j])
    ensures ParseGoldIds(goldText) == {}
  {
    var replaced := ReplaceChar(goldText, ',', '\n');
    assert IsBlank(replaced);
    SplitAtBreaksBlank(replaced);
    var lines := GoldLines(goldText);
    forall i | 0 <= i < |lines|
      ensures Strip(lines[i]) == ""
    {
      StripEmpty(lines[i]);
    }
  }

  /** A character that is not a line break ends up in some line. */
  lemma {:induction false} SplitAtBreaksKeeps(s: string, p: nat)
    requires p < |s| && !IsLineBreak(s[p])
    ensures exists i :: 0 <= i < |SplitAtBreaks(s)| && s[p] in SplitAtBreaks(s)[i]
    decreases p
  {
    var rest := SplitAtBreaks(s[1..]);
    if p == 0 {
      assert SplitAtBreaks(s)[0] == [s[0]] + rest[0];
      assert s[0] in SplitAtBreaks(s)[0];
    } else {
      SplitAtBreaksKeeps(s[1..], p - 1);
      var i :| 0 <= i < |rest| && s[p] in rest[i];
      if IsLineBreak(s[0]) {
        assert SplitAtBreaks(s)[i + 1] == rest[i];
      } else if i == 0 {
        assert SplitAtBreaks(s)[0] == [s[0]] + rest[0];
        assert s[p] in SplitAtBreaks(s)[0];
      } else {
        assert SplitAtBreaks(s)[i] == rest[i];
      }
    }
  }

  /** A character other than whitespace and commas makes the gold set non-empty. */
  lemma GoldFromVisible(goldText: string, p: nat)
    requires p < |goldText| && goldText[p] != ',' && !IsSpace(goldText[p])
    ensures ParseGoldIds(goldText) != {}
  {
    var replaced := ReplaceChar(goldText, ',', '\n');
    assert replaced[p] == goldText[p];
    SplitAtBreaksKeeps(replaced, p);
    var lines := GoldLines(goldText);
    var i :| 0 <= i < |lines| && goldText[p] in lines[i];
    StripEmpty(lines[i]);
    assert Strip(lines[i]) in ParseGoldIds(goldText);
  }

  /** No gold id is parsed exactly when the text holds nothing but whitespace and commas. */
  lemma GoldEmptyIff(goldText: string)
    ensures ParseGoldIds(goldText) == {} <==> forall j :: 0 <= j < |goldText| ==> goldText[j] == ',' || IsSpace(goldText[j])
  {
    if forall j :: 0 <= j < |goldText| ==> goldText[j] == ',' || IsSpace(goldText[j]) {
      BlankGoldEmpty(goldText);
    } else {
      var p :| 0 <= p < |goldText| && goldText[p] != ',' && !IsSpace(goldText[p]);
      GoldFromVisible(goldText, p);
    }
  }

  /** The match has a score, and it is at least the threshold. */
  predicate Passes(m: Match, threshold: real) {
    m.score.Some? && m.score.value >= threshold
  }

  /** `[m for m in matches if m.score is not None and m.score >= threshold]`. */
  function AboveThreshold(matches: seq<Match>, threshold: real): (kept: seq<Match>)
    ensures |kept| <= |matches|
    ensures forall i :: 0 <= i < |kept| ==> Passes(kept[i], threshold)
  {
    if matches == [] then []
    else
      var rest := AboveThreshold(matches[1..], threshold);
      if Passes(matches[0], threshold) then [matches[0]] + rest else rest
  }

  /** The filter keeps the order: filtering a concatenation filters each part. */
  lemma {:induction false} AboveThresholdAppend(a: seq<Match>, b: seq<Match>, threshold: real)
    ensures AboveThreshold(a + b, threshold) == AboveThreshold(a, threshold) + AboveThreshold(b, threshold)
  {
    if a != [] {
      assert (a + b)[1..] == a[1..] + b;
      AboveThresholdAppend(a[1..], b, threshold);
    } else {
      assert a + b == b;
    }
  }

  /** A match is kept exactly when it is one of the matches and passes; a score equal to the threshold passes. */
  lemma {:induction false} AboveThresholdMembers(matches: seq<Match>, threshold: real, m: Match)
    ensures m in AboveThreshold(matches, threshold) <==> m in matches && Passes(m, threshold)
  {
    if matches != [] {
      AboveThresholdMembers(matches[1..], threshold, m);
      assert matches == [matches[0]] + matches[1..];
    }
  }

  /** A match scored exactly at the threshold survives; one without a score never does. */
  lemma ThresholdBoundary(id: Option<string>, threshold: real)
    ensures AboveThreshold([Match(id, Some(threshold))], threshold) == [Match(id, Some(threshold))]
    ensures AboveThreshold([Match(id, None)], threshold) == []
  {
  }

  /**
    The evaluation card: computed only when some gold id was given, with the
    cutoff `min(top_k, len(pred_ids))` for nDCG and recall, while the
    reciprocal rank looks at the whole ranked list.
  */
  function Evaluation(pred: seq<string>, gold: set<string>, topK: int, disc: Discount): (r: Option<Scores>)
    ensures r.None? <==> gold == {}
    ensures r.Some? ==> r.value.k <= topK && r.value.k <= |pred| && (r.value.k == topK || r.value.k == |pred|)
    ensures r.Some? ==> r.value.ndcg == NdcgAtK(pred, gold, r.value.k, disc)
    ensures r.Some? ==> r.value.recall == RecallAtK(pred, gold, r.value.k) && r.value.mrr == Mrr(pred, gold)
  {
    if gold == {} then None
    else
      var k := if topK <= |pred| then topK else |pred|;
      Some(Scores(k, NdcgAtK(pred, gold, k, disc), RecallAtK(pred, gold, k), Mrr(pred, gold)))
  }

  /** With a valid discount every shown score lies in [0, 1]. */
  lemma EvaluationBounds(pred: seq<string>, gold: set<string>, topK: int, disc: Discount)
    requires ValidDiscount(disc)
    ensures var r := Evaluation(pred, gold, topK, disc);
            r.Some? ==> 0.0 <= r.value.ndcg <= 1.0 && 0.0 <= r.value.recall <= 1.0 && 0.0 <= r.value.mrr <= 1.0
  {
    if gold != {} {
      var k := if topK <= |pred| then topK else |pred|;
      NdcgBounds(pred, gold, k, disc);
    }
  }

  /**
    Asking for at least as many results as were predicted cuts nothing off:
    recall is then 1 exactly when every gold id was predicted. With no
    prediction at all every score is 0.
  */
  lemma EvaluationWholeList(pred: seq<string>, gold: set<string>, topK: int, disc: Discount)
    requires gold != {}
    ensures var r := Evaluation(pred, gold, topK, disc).value;
            topK >= |pred| > 0 ==> (r.recall == 1.0 <==> forall x :: x in gold ==> x in pred)
    ensures var r := Evaluation(pred, gold, topK, disc).value;
            pred == [] ==> r.ndcg == 0.0 && r.recall == 0.0 && r.mrr == 0.0
  {
    if topK >= |pred| > 0 {
      assert Take(pred, |pred|) == pred;
    }
  }
}
