/** Checking a model's proposal against the case sources, exactly or up to white space. */
module ExcerptMatch {
  import opened Results
  import opened Text

  // `" ".join(s.split())`

  function Split(s: string): seq<string> {
    if s == "" then []
    else
      var n := |s| - 1;
      var words := Split(s[..n]);
      if IsSpace(s[n]) then words
      else if words == [] || IsSpace(s[n - 1]) then words + [[s[n]]]
      else words[..|words| - 1] + [words[|words| - 1] + [s[n]]]
  }

  function Join(words: seq<string>): string {
    if words == [] then ""
    else if |words| == 1 then words[0]
    else Join(words[..|words| - 1]) + " " + words[|words| - 1]
  }

  function Normalize(s: string): string {
    Join(Split(s))
  }

  predicate IsWord(w: string) {
    w != "" && forall i :: 0 <= i < |w| ==> !IsSpace(w[i])
  }

  lemma {:induction false} SplitGivesWords(s: string)
    ensures forall i :: 0 <= i < |Split(s)| ==> IsWord(Split(s)[i])
  {
    if s != "" {
      SplitGivesWords(s[..|s| - 1]);
    }
  }

  lemma JoinMore(words: seq<string>, w: string)
    ensures Join(words + [w]) == if words == [] then w else Join(words) + " " + w
  {
  }

  lemma JoinLonger(before: seq<string>, w: string, c: char)
    ensures Join(before + [w + [c]]) == Join(before + [w]) + [c]
  {
  }

  lemma Associative(a: string, b: string, c: string)
    ensures a + (b + c) == (a + b) + c
  {
  }

  lemma JoinEmptyIff(words: seq<string>)
    requires forall i :: 0 <= i < |words| ==> IsWord(words[i])
    ensures Join(words) == "" <==> words == []
    ensures words != [] ==> !IsSpace(Join(words)[|Join(words)| - 1])
  {
  }

  /** Normalizing one more character. */
  lemma NormalizeStep(s: string, c: char)
    ensures var n := Normalize(s);
      Normalize(s + [c]) == if IsSpace(c) then n else if n != "" && IsSpace(s[|s| - 1]) then n + " " + [c] else n + [c]
    ensures Normalize(s) != "" ==> s != "" && !IsSpace(Normalize(s)[|Normalize(s)| - 1])
  {
    hide Join;
    assert (s + [c])[..|s|] == s;
    SplitGivesWords(s);
    JoinEmptyIff(Split(s));
    JoinMore(Split(s), [c]);
    if Split(s) != [] {
      var words, n := Split(s), |Split(s)| - 1;
      JoinLonger(words[..n], words[n], c);
      assert words[..n] + [words[n]] == words;
    }
  }

  lemma NormalizeEmpty()
    ensures Normalize("") == ""
  {
  }

  predicate TouchesSpace(a: string, b: string) {
    (a != "" && IsSpace(a[|a| - 1])) || (b != "" && IsSpace(b[0]))
  }

  function Separator(a: string, b: string): string {
    if Normalize(a) != "" && Normalize(b) != "" && TouchesSpace(a, b) then " " else ""
  }

  /** The last character of `b` continues a word of `b`. */
  lemma ConcatContinues(a: string, b: string, c: char)
    requires !IsSpace(c) && b != "" && Normalize(b) != ""
    requires Normalize(a + b) == Normalize(a) + Separator(a, b) + Normalize(b)
    ensures Normalize(a + b + [c]) == Normalize(a) + Separator(a, b + [c]) + Normalize(b + [c])
  {
    NormalizeStep(a + b, c);
    NormalizeStep(b, c);
    hide Normalize;
    assert (a + b)[|a + b| - 1] == b[|b| - 1] && (b + [c])[0] == b[0];
    var start := Normalize(a) + Separator(a, b);
    Associative(start, Normalize(b), [c]);
    Associative(start, Normalize(b), " ");
    Associative(start, Normalize(b) + " ", [c]);
  }

  /** The last character of `b` starts its only word. */
  lemma ConcatStarts(a: string, b: string, c: char)
    requires !IsSpace(c) && Normalize(b) == "" && (b != "" ==> IsSpace(b[0]) && IsSpace(b[|b| - 1]))
    requires Normalize(a + b) == Normalize(a) + Separator(a, b) + Normalize(b)
    ensures Normalize(a + b + [c]) == Normalize(a) + Separator(a, b + [c]) + Normalize(b + [c])
  {
    NormalizeStep(a + b, c);
    NormalizeStep(b, c);
    hide Normalize;
    if b == "" {
      assert a + b == a;
    } else {
      assert (a + b)[|a + b| - 1] == b[|b| - 1] && (b + [c])[0] == b[0];
    }
  }

  /** The normal form of a concatenation is made of the two normal forms. */
  lemma {:induction false} NormalizeConcat(a: string, b: string)
    ensures Normalize(a + b) == Normalize(a) + Separator(a, b) + Normalize(b)
  {
    hide Normalize;
    NormalizeEmpty();
    if b == "" {
      assert a + b == a;
    } else {
      var n := |b| - 1;
      var b', c := b[..n], b[n];
      assert a + b == a + b' + [c] && b == b' + [c];
      NormalizeConcat(a, b');
      SpacesOnly(b');
      if IsSpace(c) {
        NormalizeStep(a + b', c);
        NormalizeStep(b', c);
      } else if Normalize(b') == "" {
        ConcatStarts(a, b', c);
      } else {
        ConcatContinues(a, b', c);
      }
    }
  }

  lemma {:induction false} SpacesOnly(s: string)
    ensures Normalize(s) == "" && s != "" ==> IsSpace(s[0]) && IsSpace(s[|s| - 1])
  {
    hide Normalize;
    if s != "" {
      var n := |s| - 1;
      assert s == s[..n] + [s[n]];
      NormalizeStep(s[..n], s[n]);
      SpacesOnly(s[..n]);
    }
  }

  predicate StandsAt(text: string, part: string, i: nat)
    requires i <= |text|
  {
    part <= text[i..]
  }

  predicate Contains(text: string, part: string) {
    exists i :: 0 <= i <= |text| && StandsAt(text, part, i)
  }

  lemma ContainsConcat(a: string, part: string, b: string)
    ensures Contains(a + part + b, part)
  {
    var text := a + part + b;
    assert text[|a|..] == part + b;
    assert StandsAt(text, part, |a|);
  }

  /** An exact match stays a match when both sides are normalized. */
  lemma NormalizingOnlyWidens(text: string, part: string)
    requires Contains(text, part)
    ensures Contains(Normalize(text), Normalize(part))
  {
    hide Normalize;
    var i :| 0 <= i <= |text| && StandsAt(text, part, i);
    var a, b := text[..i], text[i + |part|..];
    assert text == a + part + b;
    NormalizeConcat(a, part);
    NormalizeConcat(a + part, b);
    var before, after := Normalize(a) + Separator(a, part), Separator(a + part, b) + Normalize(b);
    assert Normalize(text) == before + Normalize(part) + after;
    ContainsConcat(before, Normalize(part), after);
  }

  lemma {:induction false} NormalizeIdempotent(s: string)
    ensures Normalize(Normalize(s)) == Normalize(s)
  {
    hide Normalize;
    NormalizeEmpty();
    if s == "" {
    } else {
      var n := |s| - 1;
      var before, c := s[..n], s[n];
      assert s == before + [c];
      NormalizeIdempotent(before);
      NormalizeStep(before, c);
      var r := Normalize(before);
      if !IsSpace(c) {
        assert IsSpace(' ');
        NormalizeStep(r, ' ');
        NormalizeStep(r + " ", c);
        NormalizeStep(r, c);
      }
    }
  }

  // White space is all that normalizing changes.

  function Squeeze(s: string): string {
    if s == "" then "" else Squeeze(s[..|s| - 1]) + (if IsSpace(s[|s| - 1]) then "" else [s[|s| - 1]])
  }

  lemma {:induction false} SqueezeConcat(a: string, b: string)
    ensures Squeeze(a + b) == Squeeze(a) + Squeeze(b)
  {
    if b == "" {
      assert a + b == a;
    } else {
      var n := |b| - 1;
      assert (a + b)[..|a| + n] == a + b[..n];
      SqueezeConcat(a, b[..n]);
    }
  }

  /** Leaving white space out keeps every other character, as often as it occurs, and nothing else. */
  lemma {:induction false} SqueezeKeepsOthers(s: string, c: char)
    ensures multiset(Squeeze(s))[c] == if IsSpace(c) then 0 else multiset(s)[c]
  {
    if s != "" {
      assert s == s[..|s| - 1] + [s[|s| - 1]];
      SqueezeKeepsOthers(s[..|s| - 1], c);
    }
  }

  lemma {:induction false} NormalizeKeepsText(s: string)
    ensures Squeeze(Normalize(s)) == Squeeze(s)
  {
    hide Normalize;
    NormalizeEmpty();
    if s != "" {
      var n := |s| - 1;
      var before, c := s[..n], s[n];
      assert s == before + [c];
      NormalizeKeepsText(before);
      NormalizeStep(before, c);
      SqueezeConcat(before, [c]);
      SqueezeConcat(Normalize(before), [c]);
      SqueezeConcat(Normalize(before) + " ", [c]);
      SqueezeConcat(Normalize(before), " ");
      assert IsSpace(' ') && Squeeze(" ") == "";
    }
  }

  /** A normalized match still means that the excerpt's characters stand in the source, in order and without a gap but for white space. */
  lemma NormalizedMatchIsSound(text: string, part: string)
    requires Contains(Normalize(text), Normalize(part))
    ensures Contains(Squeeze(text), Squeeze(part))
  {
    hide Normalize, Squeeze;
    var t, p := Normalize(text), Normalize(part);
    var i :| 0 <= i <= |t| && StandsAt(t, p, i);
    assert t == t[..i] + p + t[i + |p|..];
    SqueezeConcat(t[..i] + p, t[i + |p|..]);
    SqueezeConcat(t[..i], p);
    NormalizeKeepsText(text);
    NormalizeKeepsText(part);
    ContainsConcat(Squeeze(t[..i]), Squeeze(p), Squeeze(t[i + |p|..]));
  }

  // The proposal.

  datatype Source = Source(title: string, locator: string, content: string)

  /** The model's answer once decoded; a field of another type than a string counts as absent. */
  datatype Answer = NotJson | NotObject | Candidate(option: Option<string>, sourceId: Option<string>, excerpt: Option<string>)

  datatype ProposalError = ResponseNotJson | ResponseNotObject | OptionNotOffered | SourceNotInCase | ExcerptMissing | ExcerptNotFound

  datatype Match = Exact | NormalizedWhitespace

  datatype Proposal = Proposal(
    value: Option<string>,
    sourceId: Option<string>,
    excerpt: Option<string>,
    matched: Option<Match>,
    error: Option<ProposalError>)

  function Refused(e: ProposalError): Proposal {
    Proposal(None, None, None, None, Some(e))
  }

  function ValidatedSourceProposal(answer: Answer, options: seq<string>, catalog: map<string, Source>): Proposal {
    match answer
    case NotJson => Refused(ResponseNotJson)
    case NotObject => Refused(ResponseNotObject)
    case Candidate(option, sourceId, excerpt) =>
      if option.None? || option.value !in options then Refused(OptionNotOffered)
      else if sourceId.None? || sourceId.value !in catalog then Refused(SourceNotInCase)
      else if excerpt.None? || Blank(excerpt.value) then Refused(ExcerptMissing)
      else
        var content := catalog[sourceId.value].content;
        if Contains(content, excerpt.value) then Proposal(option, sourceId, excerpt, Some(Exact), None)
        else if Contains(Normalize(content), Normalize(excerpt.value)) then
          Proposal(option, sourceId, excerpt, Some(NormalizedWhitespace), None)
        else Proposal(None, sourceId, excerpt, None, Some(ExcerptNotFound))
  }

  /**
   A proposal has a value exactly when its option is offered, its source known and its excerpt,
   not blank, found in the source up to white space; and it then says truly how it was found.
   */
  lemma ProposalIsGrounded(answer: Answer, options: seq<string>, catalog: map<string, Source>)
    ensures var p := ValidatedSourceProposal(answer, options, catalog);
      && (p.value.Some? <==>
            && answer.Candidate? && answer.option.Some? && answer.option.value in options
            && answer.sourceId.Some? && answer.sourceId.value in catalog
            && answer.excerpt.Some? && !Blank(answer.excerpt.value)
            && Contains(Normalize(catalog[answer.sourceId.value].content), Normalize(answer.excerpt.value)))
      && (p.value.Some? ==>
            && p.value == answer.option && p.sourceId == answer.sourceId && p.excerpt == answer.excerpt && p.error.None?
            && (p.matched == Some(Exact) <==> Contains(catalog[answer.sourceId.value].content, answer.excerpt.value))
            && Contains(Squeeze(catalog[answer.sourceId.value].content), Squeeze(answer.excerpt.value)))
      && (p.value.None? <==> p.error.Some?)
  {
    hide Normalize, Squeeze, Contains;
    if answer.Candidate? && answer.sourceId.Some? && answer.sourceId.value in catalog && answer.excerpt.Some? {
      var content, excerpt := catalog[answer.sourceId.value].content, answer.excerpt.value;
      if Contains(content, excerpt) {
        NormalizingOnlyWidens(content, excerpt);
      }
      if Contains(Normalize(content), Normalize(excerpt)) {
        NormalizedMatchIsSound(content, excerpt);
      }
    }
  }
}
