/**
 Sessions answered one question at a time: each submitted answer is stored and then followed, so
 that the answers given along the way lead where following all of them together leads.
 */
module SubmittedAnswers {
  import opened Results
  import opened Text
  import opened DecisionGraph
  import opened Questionnaire
  import opened AnswerPath

  /**
   One answer to the question shown: it is the answer now stored, every other answer stays, and the
   session shows the node that the new answer selects, or stays on the question.
   */
  lemma SubmitFollowsAnswer(g: Graph, fold: Fold, s: Session, answer: string, now: int)
    requires WellFormed(g) && s.currentNodeId.Some? && s.currentNodeId.value in NodeIds(g) - ConclusionIds(g)
    ensures var id, s' := s.currentNodeId.value, Submit(g, fold, s, s.currentNodeId.value, answer, false, now);
      var e := NextEdge(g, fold, s'.responses, id);
      && (forall x :: AnswerOf(s'.responses, x) == if x == id then Some(answer) else AnswerOf(s.responses, x))
      && s'.currentNodeId == Some(if e.Some? then e.value.target else id)
      && s'.currentNodeId.value in NodeIds(g)
      && (s'.currentNodeId.value in ConclusionIds(g) ==> s'.conclusionReached == s'.currentNodeId && s'.completedAt == Some(now))
      && (s'.currentNodeId.value !in ConclusionIds(g) ==> s'.conclusionReached == s.conclusionReached && s'.completedAt == s.completedAt)
  {
    hide NextEdge, NodeIds, ConclusionIds;
    var id := s.currentNodeId.value;
    PutAnswerStores(s.responses, id, answer);
    var stored := s.(responses := PutAnswer(s.responses, id, answer));
    NextTakesEdge(g, fold, stored, now);
    QuestionsRecordNothing(g, fold, stored, now);
  }

  lemma QuestionsRecordNothing(g: Graph, fold: Fold, s: Session, now: int)
    requires WellFormed(g) && s.currentNodeId.Some?
    ensures var s' := Navigate(g, fold, s, Next, now);
      s'.currentNodeId.Some? && s'.currentNodeId.value !in ConclusionIds(g) ==>
        s'.conclusionReached == s.conclusionReached && s'.completedAt == s.completedAt
  {
    var u := Determine(g, fold, s, Next);
    if u.nextId.Some? {
      NodeLookup(g, u.nextId.value);
    }
  }

  /** `n` submissions, each the chosen answer to the question shown; at a conclusion there is none left to answer. */
  function SubmitAll(g: Graph, fold: Fold, s: Session, choice: string -> string, n: nat, now: int): Session {
    if n == 0 then s
    else
      var t := SubmitAll(g, fold, s, choice, n - 1, now);
      if t.currentNodeId.None? || t.currentNodeId.value in ConclusionIds(g) then t
      else Submit(g, fold, t, t.currentNodeId.value, choice(t.currentNodeId.value), false, now)
  }

  /** `r` holds the chosen answer of every question. */
  predicate Chosen(g: Graph, choice: string -> string, r: seq<Response>) {
    forall n :: n in g.nodes && n.Question? ==> AnswerOf(r, n.id) == Some(choice(n.id))
  }

  lemma NextEdgeReadsOneAnswer(g: Graph, fold: Fold, r1: seq<Response>, r2: seq<Response>, id: string)
    requires AnswerOf(r1, id) == AnswerOf(r2, id)
    ensures NextEdge(g, fold, r1, id) == NextEdge(g, fold, r2, id)
  {
  }

  /** After `n` submissions the session shows node `n` of the path of all the answers, or its last one. */
  lemma {:induction false} SubmissionsWalkPath(
    g: Graph, fold: Fold, s: Session, choice: string -> string, r: seq<Response>, n: nat, now: int, rank: string -> nat)
    requires WellFormed(g) && Ranked(g, rank) && s.currentNodeId.Some? && s.currentNodeId.value in NodeIds(g) - ConclusionIds(g)
    requires Chosen(g, choice, r)
    ensures var path, t := Path(g, fold, r, s.currentNodeId.value, rank), SubmitAll(g, fold, s, choice, n, now);
      var id := path[if n < |path| then n else |path| - 1];
      && t.currentNodeId == Some(id) && id in NodeIds(g)
      && (id in ConclusionIds(g) ==> t.conclusionReached == Some(id) && t.completedAt == Some(now))
      && (forall k :: 0 <= k < n && k < |path| && path[k] !in ConclusionIds(g) ==> AnswerOf(t.responses, path[k]) == Some(choice(path[k])))
      && (forall x :: x !in path ==> AnswerOf(t.responses, x) == AnswerOf(s.responses, x))
  {
    hide Path, NextEdge, ConclusionIds, NodeIds, Ranked, Submit;
    if n > 0 {
      var path, t := Path(g, fold, r, s.currentNodeId.value, rank), SubmitAll(g, fold, s, choice, n - 1, now);
      SubmissionsWalkPath(g, fold, s, choice, r, n - 1, now, rank);
      PathStep(g, fold, r, s.currentNodeId.value, n - 1, rank);
      var id := t.currentNodeId.value;
      if id !in ConclusionIds(g) {
        QuestionById(g, id);
        SubmitFollowsAnswer(g, fold, t, choice(id), now);
        NextEdgeReadsOneAnswer(g, fold, Submit(g, fold, t, id, choice(id), false, now).responses, r, id);
      }
    }
  }

  /**
   On a validated acyclic graph, answering question after question with offered options reaches, in
   fewer submissions than the graph has nodes, exactly the conclusion that following all the
   answers together means, and stores the answers of the questions passed and no others.
   */
  lemma SubmissionsReachConclusion(
    g: Graph, fold: Fold, s: Session, choice: string -> string, r: seq<Response>, now: int, rank: string -> nat)
    requires ValidateGraph(g).None? && ConclusionIds(g) != {} && Ranked(g, rank) && NoWhitespaceConditions(g)
    requires AnswersOffered(g, r) && Chosen(g, choice, r)
    requires s.currentNodeId.Some? && s.currentNodeId == EntryNodeId(g)
    ensures var path, o := Path(g, fold, r, EntryNodeId(g).value, rank), Follow(g, fold, r, EntryNodeId(g).value, rank);
      && o.Reached? && 0 < |path| - 1 < |g.nodes|
      && forall n: nat :: n >= |path| - 1 ==>
        var t := SubmitAll(g, fold, s, choice, n, now);
        && t.currentNodeId == Some(o.conclusion) && t.conclusionReached == Some(o.conclusion) && t.completedAt == Some(now)
        && (forall k :: 0 <= k < |path| - 1 ==> AnswerOf(t.responses, path[k]) == Some(choice(path[k])))
        && forall x :: x !in path ==> AnswerOf(t.responses, x) == AnswerOf(s.responses, x)
  {
    hide ValidateGraph, SubmitAll, Path, Follow, NodeIds, ConclusionIds, EntryNodeId, AnswersOffered, NoWhitespaceConditions, Ranked, Chosen;
    ValidIsWellFormed(g);
    ValidEntry(g);
    var entry := EntryNodeId(g).value;
    TrimmedConditionsReach(g, fold, r, entry, rank);
    FollowEndsPath(g, fold, r, entry, rank);
    PathShorterThanGraph(g, fold, r, entry, rank);
    var path := Path(g, fold, r, entry, rank);
    assert path[0] == entry;
    forall n: nat | n >= |path| - 1
      ensures var t := SubmitAll(g, fold, s, choice, n, now);
        && t.currentNodeId == Some(path[|path| - 1]) && t.conclusionReached == Some(path[|path| - 1]) && t.completedAt == Some(now)
        && (forall k :: 0 <= k < |path| - 1 ==> AnswerOf(t.responses, path[k]) == Some(choice(path[k])))
        && forall x :: x !in path ==> AnswerOf(t.responses, x) == AnswerOf(s.responses, x)
    {
      SubmissionsWalkPath(g, fold, s, choice, r, n, now, rank);
    }
  }

  /** "Next" warns exactly when it cannot leave a question for want of an answer, or of an edge for the answer given. */
  lemma NextWarnsIff(g: Graph, fold: Fold, s: Session)
    requires WellFormed(g) && s.currentNodeId.Some? && s.currentNodeId.value in NodeIds(g)
    ensures var id, warning := s.currentNodeId.value, Determine(g, fold, s, Next).warning;
      if id in ConclusionIds(g) then warning.None?
      else
        && (warning == Some(AnswerFirst) <==> !Answered(s.responses, id) && IsRequired(g, id))
        && (warning == Some(UnexpectedAnswer) <==>
              Answered(s.responses, id) && HasConditionalEdges(g, id) && NextEdge(g, fold, s.responses, id).None?)
        && (warning.None? <==> NextEdge(g, fold, s.responses, id).Some? || (OutgoingEdges(g, id) == [] && (Answered(s.responses, id) || !IsRequired(g, id))))
  {
  }

  /** "Previous" undoes "next" where no other question that leads to the node shown is answered. */
  lemma PreviousUndoesNext(g: Graph, fold: Fold, s: Session, now: int, later: int)
    requires WellFormed(g) && s.currentNodeId.Some? && s.currentNodeId.value in NodeIds(g) - ConclusionIds(g)
    requires Answered(s.responses, s.currentNodeId.value)
    requires var shown := Navigate(g, fold, s, Next, now).currentNodeId;
      && shown.Some? && shown != s.currentNodeId
      && forall e :: e in g.edges && e.target == shown.value && Answered(s.responses, e.source) ==> e.source == s.currentNodeId.value
    ensures Navigate(g, fold, Navigate(g, fold, s, Next, now), Previous, later).currentNodeId == s.currentNodeId
  {
    hide Navigate, NextEdge, ConclusionIds, NodeIds;
    var id, t := s.currentNodeId.value, Navigate(g, fold, s, Next, now);
    NextTakesEdge(g, fold, s, now);
    NextEdgeLeaves(g, fold, s.responses, id);
    var e := NextEdge(g, fold, s.responses, id).value;
    var incoming := IncomingEdges(g, e.target);
    EdgesIntoExactly(g.edges, e.target, e);
    PreviousShows(g, fold, t, later);
    LastAnsweredExists(incoming, s.responses, e);
    var k: nat :| LastAnsweredAt(incoming, s.responses, k);
    EdgesIntoExactly(g.edges, e.target, incoming[k]);
  }

  lemma {:induction false} LastAnsweredExists(edges: seq<Edge>, r: seq<Response>, e: Edge)
    requires e in edges && Answered(r, e.source)
    ensures exists k: nat :: LastAnsweredAt(edges, r, k)
  {
    var n := |edges| - 1;
    if Answered(r, edges[n].source) {
      assert LastAnsweredAt(edges, r, n);
    } else {
      LastAnsweredExists(edges[..n], r, e);
      var k: nat :| LastAnsweredAt(edges[..n], r, k);
      assert LastAnsweredAt(edges, r, k);
    }
  }
}
