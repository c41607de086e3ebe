/**
  The handful of Python `str` operations the voice archive relies on, written
  over `seq<char>`: whitespace stripping, ASCII lower-casing, prefix and suffix
  tests, `sep.join`, line and whitespace splitting, and `str(n)` for a natural
  number.
*/
module Strings {

  /** Python's `str.isspace` for a single character. */
  predicate IsSpace(c: char) {
    var n := c as int;
    n == 32 || 9 <= n <= 13 || 28 <= n <= 31 || n == 0x85 || n == 0xA0 || n == 0x1680
    || 0x2000 <= n <= 0x200A || n == 0x2028 || n == 0x2029 || n == 0x202F || n == 0x205F
    || n == 0x3000
  }

  /** The characters at which Python's `str.splitlines` ends a line. */
  predicate IsLineBreak(c: char) {
    var n := c as int;
    10 <= n <= 13 || 28 <= n <= 30 || n == 0x85 || n == 0x2028 || n == 0x2029
  }

  /** No character of `s` satisfies `IsSpace`. */
  predicate NoSpace(s: string) {
    forall i :: 0 <= i < |s| ==> !IsSpace(s[i])
  }

  /** `s` is empty or neither begins nor ends with whitespace. */
  predicate Trimmed(s: string) {
    s == [] || (!IsSpace(s[0]) && !IsSpace(s[|s| - 1]))
  }

  /** The number of leading whitespace characters of `s`. */
  function SpaceRun(s: string): (n: nat)
    ensures n <= |s|
    ensures forall i :: 0 <= i < n ==> IsSpace(s[i])
    ensures n == |s| || !IsSpace(s[n])
  {
    if s == [] || !IsSpace(s[0]) then 0 else 1 + SpaceRun(s[1..])
  }

  /** Python's `str.lstrip()`: drops the leading whitespace. */
  function TrimStart(s: string): (r: string)
    ensures |r| <= |s| && r == s[|s| - |r|..]
    ensures r == [] || !IsSpace(r[0])
    ensures forall i :: 0 <= i < |s| - |r| ==> IsSpace(s[i])
  {
    s[SpaceRun(s)..]
  }

  /** Python's `str.rstrip()`: drops the trailing whitespace. */
  function TrimEnd(s: string): (r: string)
    ensures |r| <= |s| && r == s[..|r|]
    ensures r == [] || !IsSpace(r[|r| - 1])
    ensures forall i :: |r| <= i < |s| ==> IsSpace(s[i])
  {
    if s != [] && IsSpace(s[|s| - 1]) then
      var r := TrimEnd(s[..|s| - 1]);
      assert s[..|s| - 1][..|r|] == s[..|r|];
      r
    else s
  }

  /** Python's `str.strip()`: drops the whitespace at both ends. */
  function Strip(s: string): (r: string)
    ensures Trimmed(r)
    ensures |r| <= |s|
  {
    TrimEnd(TrimStart(s))
  }

  /** Every character is whitespace. */
  predicate IsBlank(s: string) {
    forall i :: 0 <= i < |s| ==> IsSpace(s[i])
  }

  /** Stripping leaves nothing exactly when the text is blank: `not s.strip()` is `IsBlank(s)`. */
  lemma StripEmpty(s: string)
    ensures Strip(s) == [] <==> IsBlank(s)
  {
    var t := TrimStart(s);
    if Strip(s) == [] {
      assert |t| == 0;
    } else {
      var r := Strip(s);
      assert r[0] == t[0] == s[|s| - |t|];
    }
  }

  /** The stripped text is the slice of `s` that starts after its leading whitespace. */
  lemma StripOffset(s: string)
    ensures var off := |s| - |TrimStart(s)|;
            && off + |Strip(s)| <= |s|
            && forall j :: 0 <= j < |Strip(s)| ==> Strip(s)[j] == s[off + j]
  {
  }

  /** Stripping text that is already trimmed changes nothing. */
  lemma StripTrimmed(s: string)
    requires Trimmed(s)
    ensures Strip(s) == s
  {
    if s != [] {
      assert TrimStart(s) == s;
    }
  }

  /** Python's `str.lower` restricted to ASCII letters. */
  function LowerChar(c: char): char {
    if 'A' <= c <= 'Z' then (c as int + 32) as char else c
  }

  /** No character is upper case once lowered. */
  lemma LowerCharIsLower()
    ensures forall c :: !('A' <= LowerChar(c) <= 'Z')
  {
    forall c
      ensures !('A' <= LowerChar(c) <= 'Z')
    {
      if 'A' <= c <= 'Z' {
        assert 'a' as int <= c as int + 32 <= 'z' as int;
      }
    }
  }

  /**
    Lower-cases every ASCII letter of `s`: the result has the same length and
    no upper-case letter, and text without one is left as it is.
  */
  function Lower(s: string): (lowered: string)
    ensures |lowered| == |s| && IsLower(lowered)
    ensures IsLower(s) ==> lowered == s
  {
    LowerCharIsLower();
    seq(|s|, i requires 0 <= i < |s| => LowerChar(s[i]))
  }

  /** `s` holds no upper-case ASCII letter. */
  predicate IsLower(s: string) {
    forall i :: 0 <= i < |s| ==> !('A' <= s[i] <= 'Z')
  }

  /** Python's `s.startswith(p)`. */
  predicate StartsWith(s: string, p: string) {
    |p| <= |s| && s[..|p|] == p
  }

  /** Python's `s.endswith(p)`. */
  predicate EndsWith(s: string, p: string) {
    |p| <= |s| && s[|s| - |p|..] == p
  }

  /** Python's `sep.join(parts)`. */
  function Join(sep: string, parts: seq<string>): (joined: string) {
    if |parts| == 0 then ""
    else if |parts| == 1 then parts[0]
    else parts[0] + sep + Join(sep, parts[1..])
  }

  /** Joining two non-empty lists is joining each and gluing them with one separator. */
  lemma {:induction false} JoinAppend(sep: string, a: seq<string>, b: seq<string>)
    requires |a| > 0 && |b| > 0
    ensures Join(sep, a + b) == Join(sep, a) + sep + Join(sep, b)
  {
    if |a| == 1 {
      assert (a + b)[1..] == b;
    } else {
      assert (a + b)[1..] == a[1..] + b;
      JoinAppend(sep, a[1..], b);
    }
  }

  /** Python's `s.replace(old, new)` for single characters. */
  function ReplaceChar(s: string, from: char, to: char): (r: string)
    ensures |r| == |s|
    ensures forall i :: 0 <= i < |s| ==> r[i] == (if s[i] == from then to else s[i])
  {
    if s == [] then [] else [if s[0] == from then to else s[0]] + ReplaceChar(s[1..], from, to)
  }

  /** Replacing characters works piece by piece. */
  lemma ReplaceCharAppend(a: string, b: string, from: char, to: char)
    ensures ReplaceChar(a + b, from, to) == ReplaceChar(a, from, to) + ReplaceChar(b, from, to)
  {
    var l := ReplaceChar(a + b, from, to);
    var r := ReplaceChar(a, from, to) + ReplaceChar(b, from, to);
    assert forall i :: 0 <= i < |l| ==> l[i] == r[i];
  }

  /** Text without the character is left alone. */
  lemma ReplaceCharAbsent(s: string, from: char, to: char)
    requires forall i :: 0 <= i < |s| ==> s[i] != from
    ensures ReplaceChar(s, from, to) == s
  {
    assert forall i :: 0 <= i < |s| ==> ReplaceChar(s, from, to)[i] == s[i];
  }

  /**
    Cuts `s` at every line-break character and keeps the pieces in between,
    empty pieces included. Pieces between a carriage return and the line feed
    after it, which Python's `str.splitlines` does not produce, are empty.
  */
  function SplitAtBreaks(s: string): (parts: seq<string>)
    ensures |parts| >= 1
    ensures forall i, j :: 0 <= i < |parts| && 0 <= j < |parts[i]| ==> !IsLineBreak(parts[i][j])
  {
    if s == [] then [""]
    else
      var rest := SplitAtBreaks(s[1..]);
      if IsLineBreak(s[0]) then [""] + rest else [[s[0]] + rest[0]] + rest[1..]
  }

  /** A piece free of line breaks, followed by a break, splits off as its own first piece. */
  lemma {:induction false} SplitAtBreaksPrefix(p: string, b: char, rest: string)
    requires forall j :: 0 <= j < |p| ==> !IsLineBreak(p[j])
    requires IsLineBreak(b)
    ensures SplitAtBreaks(p + [b] + rest) == [p] + SplitAtBreaks(rest)
  {
    if p == [] {
      assert (p + [b] + rest)[1..] == rest;
    } else {
      assert (p + [b] + rest)[1..] == p[1..] + [b] + rest;
      SplitAtBreaksPrefix(p[1..], b, rest);
      assert [p[0]] + p[1..] == p;
    }
  }

  /** A string free of line breaks is a single piece. */
  lemma {:induction false} SplitAtBreaksNone(p: string)
    requires forall j :: 0 <= j < |p| ==> !IsLineBreak(p[j])
    ensures SplitAtBreaks(p) == [p]
  {
    if p != [] {
      SplitAtBreaksNone(p[1..]);
      assert [p[0]] + p[1..] == p;
    }
  }

  /** Splitting undoes joining with a line feed, for pieces free of line breaks. */
  lemma {:induction false} SplitJoinLines(parts: seq<string>)
    requires |parts| >= 1
    requires forall i, j :: 0 <= i < |parts| && 0 <= j < |parts[i]| ==> !IsLineBreak(parts[i][j])
    ensures SplitAtBreaks(Join("\n", parts)) == parts
  {
    if |parts| == 1 {
      SplitAtBreaksNone(parts[0]);
    } else {
      SplitJoinLines(parts[1..]);
      SplitAtBreaksPrefix(parts[0], '\n', Join("\n", parts[1..]));
      assert [parts[0]] + parts[1..] == parts;
    }
  }

  /** The number of leading characters of `s` that are not whitespace. */
  function LeadingRun(s: string): (n: nat)
    ensures n <= |s|
    ensures forall i :: 0 <= i < n ==> !IsSpace(s[i])
    ensures n == |s| || IsSpace(s[n])
  {
    if s == [] || IsSpace(s[0]) then 0 else 1 + LeadingRun(s[1..])
  }

  lemma TokensCons(token: string, rest: seq<string>)
    requires token != [] && NoSpace(token)
    requires forall i :: 0 <= i < |rest| ==> rest[i] != [] && NoSpace(rest[i])
    ensures forall i :: 0 <= i < |[token] + rest| ==> ([token] + rest)[i] != [] && NoSpace(([token] + rest)[i])
  {
    assert forall i :: 1 <= i < |[token] + rest| ==> ([token] + rest)[i] == rest[i - 1];
  }

  /**
    Python's `str.split()` with no argument: the maximal runs of
    non-whitespace characters, in order.
  */
  function SplitWhitespace(s: string): (tokens: seq<string>)
    ensures forall i :: 0 <= i < |tokens| ==> tokens[i] != [] && NoSpace(tokens[i])
    ensures tokens == [] <==> IsBlank(s)
    decreases |s|
  {
    var t := TrimStart(s);
    if t == [] then []
    else
      var n := LeadingRun(t);
      var rest := SplitWhitespace(t[n..]);
      TokensCons(t[..n], rest);
      assert !IsSpace(s[|s| - |t|]);
      [t[..n]] + rest
  }

  /** The contract of `SpaceRun` pins it down. */
  lemma {:induction false} SpaceRunAt(s: string, n: nat)
    requires n <= |s|
    requires forall i :: 0 <= i < n ==> IsSpace(s[i])
    requires n == |s| || !IsSpace(s[n])
    ensures SpaceRun(s) == n
  {
    if n > 0 {
      SpaceRunAt(s[1..], n - 1);
    }
  }

  /** The contract of `LeadingRun` pins it down. */
  lemma {:induction false} LeadingRunAt(s: string, n: nat)
    requires n <= |s|
    requires forall i :: 0 <= i < n ==> !IsSpace(s[i])
    requires n == |s| || IsSpace(s[n])
    ensures LeadingRun(s) == n
  {
    if n > 0 {
      LeadingRunAt(s[1..], n - 1);
    }
  }

  /** Blank text in front is skipped by `lstrip`. */
  lemma TrimStartBlank(w: string, s: string)
    requires IsBlank(w)
    ensures TrimStart(w + s) == TrimStart(s)
  {
    var m := SpaceRun(s);
    var t := w + s;
    SuffixAppend(w, s, m);
    assert forall i :: 0 <= i < |w| + m ==> IsSpace(t[i]) by {
      forall i | 0 <= i < |w| + m
        ensures IsSpace(t[i])
      {
        if i < |w| {
          assert t[i] == w[i];
        } else {
          assert t[i] == s[i - |w|];
        }
      }
    }
    SpaceRunAt(t, |w| + m);
  }

  /** Dropping `a` and then `m` more leaves the same suffix as dropping `m` from `b`. */
  lemma SuffixAppend<T>(a: seq<T>, b: seq<T>, m: nat)
    requires m <= |b|
    ensures (a + b)[|a| + m..] == b[m..]
    ensures |a| + m < |a + b| ==> (a + b)[|a| + m] == b[m]
  {
  }

  /** Text with something visible keeps its `lstrip` when more text follows. */
  lemma TrimStartAppend(a: string, r: string)
    requires TrimStart(a) != []
    ensures TrimStart(a + r) == TrimStart(a) + r
  {
    var m := SpaceRun(a);
    SpaceRunAt(a + r, m);
    assert (a + r)[m..] == a[m..] + r;
  }

  /** Cutting a concatenation inside its first part. */
  lemma SliceAppend<T>(t: seq<T>, r: seq<T>, n: nat)
    requires n <= |t|
    ensures (t + r)[..n] == t[..n]
    ensures (t + r)[n..] == t[n..] + r
  {
  }

  lemma ConcatAssoc<T>(a: seq<T>, b: seq<T>, c: seq<T>)
    ensures a + b + c == a + (b + c)
  {
  }

  lemma SliceWhole<T>(s: seq<T>)
    ensures s[0..] == s && s[..|s|] == s && s[|s|..] == []
  {
  }

  lemma ConsTail<T>(s: seq<T>)
    requires s != []
    ensures [s[0]] + s[1..] == s
  {
  }

  /** A blank followed by one more whitespace character is blank. */
  lemma BlankSnoc(a: string, c: char)
    requires IsBlank(a) && IsSpace(c)
    ensures IsBlank(a + [c])
  {
  }

  /** One step of `str.split()`: the first word is the leading run after the leading whitespace. */
  lemma SplitUnfold(s: string)
    requires TrimStart(s) != []
    ensures var t := TrimStart(s);
            SplitWhitespace(s) == [t[..LeadingRun(t)]] + SplitWhitespace(t[LeadingRun(t)..])
  {
  }

  /** `str.split()` looks only at what `lstrip` leaves. */
  lemma SplitSameTrim(x: string, y: string)
    requires TrimStart(x) == TrimStart(y)
    ensures SplitWhitespace(x) == SplitWhitespace(y)
  {
    if TrimStart(x) != [] {
      SplitUnfold(x);
      SplitUnfold(y);
    }
  }

  /** A non-empty word without whitespace splits into itself. */
  lemma SplitWord(w: string)
    requires w != [] && NoSpace(w)
    ensures SplitWhitespace(w) == [w]
  {
    SpaceRunAt(w, 0);
    SliceWhole(w);
    LeadingRunAt(w, |w|);
    SplitUnfold(w);
    SplitEmpty();
  }

  lemma SplitEmpty()
    ensures SplitWhitespace([]) == []
  {
  }

  /** Leading whitespace does not change the words. */
  lemma SplitAfterBlank(w: string, s: string)
    requires IsBlank(w)
    ensures SplitWhitespace(w + s) == SplitWhitespace(s)
  {
    TrimStartBlank(w, s);
    SplitSameTrim(w + s, s);
  }

  /** Text that starts at a blank, appended to text with a word, leaves that first word whole. */
  lemma SplitHead(a: string, r: string)
    requires TrimStart(a) != []
    requires r == [] || IsSpace(r[0])
    ensures var t := TrimStart(a);
            var n := LeadingRun(t);
            SplitWhitespace(a + r) == [t[..n]] + SplitWhitespace(t[n..] + r)
  {
    var t := TrimStart(a);
    TrimStartAppend(a, r);
    var n := LeadingRun(t);
    LeadingRunAt(t + r, n);
    SplitUnfold(a + r);
    SliceAppend(t, r, n);
  }

  /** Whitespace separates: the words on either side of a blank are split apart, in order. */
  lemma {:induction false} SplitAtSpace(a: string, c: char, b: string)
    requires IsSpace(c)
    ensures SplitWhitespace(a + [c] + b) == SplitWhitespace(a) + SplitWhitespace(b)
    decreases |a|
  {
    var t := TrimStart(a);
    if t == [] {
      BlankSnoc(a, c);
      SplitAfterBlank(a + [c], b);
    } else {
      var n := LeadingRun(t);
      var rest := t[n..];
      ConcatAssoc(a, [c], b);
      SplitHead(a, [c] + b);
      ConcatAssoc(rest, [c], b);
      SplitUnfold(a);
      SplitAtSpace(rest, c, b);
      ConcatAssoc([t[..n]], SplitWhitespace(rest), SplitWhitespace(b));
    }
  }

  /** Round trip: non-empty words without whitespace, joined by spaces, split back into the same words. */
  lemma {:induction false} SplitJoinWords(ts: seq<string>)
    requires |ts| >= 1
    requires forall i :: 0 <= i < |ts| ==> ts[i] != [] && NoSpace(ts[i])
    ensures SplitWhitespace(Join(" ", ts)) == ts
  {
    if |ts| == 1 {
      SplitWord(ts[0]);
    } else {
      var tail := ts[1..];
      SplitJoinWords(tail);
      SplitWord(ts[0]);
      SplitAtSpace(ts[0], ' ', Join(" ", tail));
      ConsTail(ts);
    }
  }

  /** The decimal digit for `d`. */
  function DigitChar(d: nat): char
    requires d < 10
  {
    ('0' as int + d) as char
  }

  /** The number a string of decimal digits denotes, most significant digit first. */
  function DecimalValue(s: string): nat
    requires forall i :: 0 <= i < |s| ==> '0' <= s[i] <= '9'
  {
    if s == [] then 0 else DecimalValue(s[..|s| - 1]) * 10 + (s[|s| - 1] as int - '0' as int)
  }

  /**
    Python's `str(n)` for a natural number: its decimal digits, most
    significant first, without a leading zero; they denote `n`.
  */
  function NatToString(n: nat): (s: string)
    ensures |s| >= 1
    ensures forall i :: 0 <= i < |s| ==> '0' <= s[i] <= '9'
    ensures n >= 10 ==> |s| >= 2
    ensures DecimalValue(s) == n
    ensures |s| > 1 ==> s[0] != '0'
  {
    if n < 10 then [DigitChar(n)]
    else
      var high := NatToString(n / 10);
      var s := high + [DigitChar(n % 10)];
      assert s[..|s| - 1] == high;
      assert s[0] == high[0];
      s
  }

  /** Distinct numbers have distinct decimal spellings. */
  lemma {:induction false} NatToStringInjective(a: nat, b: nat)
    requires NatToString(a) == NatToString(b)
    ensures a == b
  {
    var s := NatToString(a);
    if a < 10 && b < 10 {
      assert DigitChar(a) == s[0] == DigitChar(b);
    } else if a >= 10 && b >= 10 {
      assert s[..|s| - 1] == NatToString(a / 10) && s[..|s| - 1] == NatToString(b / 10);
      NatToStringInjective(a / 10, b / 10);
      assert DigitChar(a % 10) == s[|s| - 1] == DigitChar(b % 10);
    }
  }
}
