/**
  The PII redactor of voice_archive.py. A redactor holds an ordered list of
  rules, each a pattern and the placeholder that replaces its matches, and
  redacting applies the rules one after another, each to the output of the
  one before. What a pattern matches is the regular-expression engine's
  business and is supplied as the abstract substitution `sub`; the model fixes
  the rules, their order and the fold over them.
*/
module Redaction {
  import opened Common
  import opened Segmenter

  /** The five shapes of personal data the redactor masks. */
  datatype Pattern = CardNumber | Ssn | Email | Phone | IPv4

  /** Every match of `pattern` is replaced by `placeholder`. */
  datatype Rule = Rule(pattern: Pattern, placeholder: string)

  /** `sub(p, repl, text)` is Python's `p.sub(repl, text)` for the compiled pattern `p`. */
  type Substitution = (Pattern, string, string) -> string

  /** A redactor and the rules it was built with. */
  datatype Redactor = Redactor(patterns: seq<Rule>)

  /** The rules `Redactor()` installs, in the order it applies them. */
  const DefaultRules: seq<Rule> := [
    Rule(CardNumber, "[CARD]"),
    Rule(Ssn, "[SSN]"),
    Rule(Email, "[EMAIL]"),
    Rule(Phone, "[PHONE]"),
    Rule(IPv4, "[IP]")
  ]

  /** `Redactor()`: a redactor over the default rules. */
  const DefaultRedactor: Redactor := Redactor(DefaultRules)

  /** The left fold of the rules over `text`: the first rule sees `text`, each later rule the previous output. */
  function ApplyRules(sub: Substitution, rules: seq<Rule>, text: string): (r: string)
    decreases |rules|
  {
    if rules == [] then text
    else ApplyRules(sub, rules[1..], sub(rules[0].pattern, rules[0].placeholder, text))
  }

  /** One more trip round the loop: the next rule rewrites what the rules before it produced. */
  lemma ApplyRulesSnoc(sub: Substitution, rules: seq<Rule>, rule: Rule, text: string)
    ensures ApplyRules(sub, rules + [rule], text) == sub(rule.pattern, rule.placeholder, ApplyRules(sub, rules, text))
  {
    ApplyRulesAppend(sub, rules, [rule], text);
    assert [rule][1..] == [];
  }

  /** Applying two rule lists in a row is applying their concatenation. */
  lemma {:induction false} ApplyRulesAppend(sub: Substitution, a: seq<Rule>, b: seq<Rule>, text: string)
    ensures ApplyRules(sub, a + b, text) == ApplyRules(sub, b, ApplyRules(sub, a, text))
    decreases |a|
  {
    if a == [] {
      assert a + b == b;
    } else {
      assert (a + b)[1..] == a[1..] + b;
      ApplyRulesAppend(sub, a[1..], b, sub(a[0].pattern, a[0].placeholder, text));
    }
  }

  /** The default redactor masks cards, then SSNs, then emails, then phone numbers, then IPv4 addresses. */
  lemma DefaultRuleOrder(sub: Substitution, text: string)
    ensures ApplyRules(sub, DefaultRules, text)
            == sub(IPv4, "[IP]", sub(Phone, "[PHONE]", sub(Email, "[EMAIL]", sub(Ssn, "[SSN]", sub(CardNumber, "[CARD]", text)))))
  {
    var r := DefaultRules;
    var t1 := sub(CardNumber, "[CARD]", text);
    var t2 := sub(Ssn, "[SSN]", t1);
    var t3 := sub(Email, "[EMAIL]", t2);
    var t4 := sub(Phone, "[PHONE]", t3);
    assert r[1..][1..][1..][1..][1..] == [];
    assert ApplyRules(sub, r[1..][1..][1..][1..], t4) == sub(IPv4, "[IP]", t4);
    assert ApplyRules(sub, r[1..][1..][1..], t3) == ApplyRules(sub, r[1..][1..][1..][1..], t4);
    assert ApplyRules(sub, r[1..][1..], t2) == ApplyRules(sub, r[1..][1..][1..], t3);
    assert ApplyRules(sub, r[1..], t1) == ApplyRules(sub, r[1..][1..], t2);
  }

  /**
    Text that no rule changes, such as text holding only placeholders, comes
    out of the fold unchanged.
  */
  lemma {:induction false} ApplyRulesFixpoint(sub: Substitution, rules: seq<Rule>, text: string)
    requires forall i :: 0 <= i < |rules| ==> sub(rules[i].pattern, rules[i].placeholder, text) == text
    ensures ApplyRules(sub, rules, text) == text
    decreases |rules|
  {
    if rules != [] {
      assert forall i :: 0 <= i < |rules[1..]| ==> rules[1..][i] == rules[i + 1];
      ApplyRulesFixpoint(sub, rules[1..], text);
    }
  }

  /** `Redactor.redact`: runs the rules over the text in list order. */
  method Redact(redactor: Redactor, sub: Substitution, text: string) returns (redacted: string)
    ensures redacted == ApplyRules(sub, redactor.patterns, text)
    ensures redactor.patterns == [] ==> redacted == text
  {
    redacted := text;
    var rules := redactor.patterns;
    for i := 0 to |rules|
      invariant redacted == ApplyRules(sub, rules[..i], text)
    {
      ApplyRulesSnoc(sub, rules[..i], rules[i], text);
      assert rules[..i + 1] == rules[..i] + [rules[i]];
      redacted := sub(rules[i].pattern, rules[i].placeholder, redacted);
    }
    assert rules[..|rules|] == rules;
  }

  /**
    `redact_text`: the module-level redactor is absent when redaction is
    switched off, and then the text passes through unchanged.
  */
  method RedactText(redactor: Option<Redactor>, sub: Substitution, text: string) returns (r: string)
    ensures redactor == None ==> r == text
    ensures redactor.Some? ==> r == ApplyRules(sub, redactor.value.patterns, text)
  {
    if redactor == None {
      return text;
    }
    r := Redact(redactor.value, sub, text);
  }

  /** The segment `redact_segments` makes of `s`: only the text changes, and only when a redactor is installed. */
  function RedactedSegment(redactor: Option<Redactor>, sub: Substitution, s: Segment): (r: Segment)
    ensures r == s.(text := r.text)
    ensures redactor == None ==> r == s
  {
    if redactor == None then s else s.(text := ApplyRules(sub, redactor.value.patterns, s.text))
  }

  /** `RedactedSegment` applied to every segment, in order. */
  function RedactedAll(redactor: Option<Redactor>, sub: Substitution, segments: seq<Segment>): (r: seq<Segment>)
    ensures |r| == |segments|
    ensures forall i :: 0 <= i < |r| ==> r[i] == RedactedSegment(redactor, sub, segments[i])
  {
    seq(|segments|, i requires 0 <= i < |segments| => RedactedSegment(redactor, sub, segments[i]))
  }

  /**
    `redact_segments`: with redaction off the very same list comes back; with
    it on, a list of the same length whose segments keep speaker, start, end,
    file and session and carry redacted text.
  */
  method RedactSegments(redactor: Option<Redactor>, sub: Substitution, segments: seq<Segment>)
    returns (redacted: seq<Segment>)
    ensures redactor == None ==> redacted == segments
    ensures redactor.Some? ==>
              && |redacted| == |segments|
              && forall i :: 0 <= i < |segments| ==>
                   redacted[i] == segments[i].(text := ApplyRules(sub, redactor.value.patterns, segments[i].text))
    ensures redacted == RedactedAll(redactor, sub, segments)
  {
    if redactor == None {
      return segments;
    }
    redacted := [];
    for i := 0 to |segments|
      invariant |redacted| == i
      invariant forall k :: 0 <= k < i ==>
                  redacted[k] == segments[k].(text := ApplyRules(sub, redactor.value.patterns, segments[k].text))
    {
      var s := segments[i];
      var text := Redact(redactor.value, sub, s.text);
      redacted := redacted + [Segment(s.speaker, s.start, s.end, text, s.file, s.session)];
    }
  }
}
