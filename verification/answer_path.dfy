/**
 What repeated "next" means: the session follows the answers from question to question until it
 reaches a conclusion, or a question it cannot leave.
 */
module AnswerPath {
  import opened Collections
  import opened Results
  import opened Text
  import opened DecisionGraph
  import opened Questionnaire

  /** Every edge leads to a node of smaller rank; such a ranking exists exactly for graphs without cycles. */
  ghost predicate Ranked(g: Graph, rank: string -> nat) {
    forall e :: e in g.edges ==> rank(e.target) < rank(e.source)
  }

  datatype Outcome = Reached(conclusion: string) | Held(question: string)

  /** The edge that "next" takes from a question, or none when it stays. */
  function NextEdge(g: Graph, fold: Fold, r: seq<Response>, id: string): Option<Edge> {
    var out := OutgoingEdges(g, id);
    if !Answered(r, id) && IsRequired(g, id) then None
    else if Answered(r, id) && HasConditionalEdges(g, id) then
      var matched := MatchedEdge(fold, out, AnswerOf(r, id).value);
      if matched.Some? then matched else UnconditionedEdge(out)
    else if out == [] then None
    else Some(out[0])
  }

  lemma NextEdgeLeaves(g: Graph, fold: Fold, r: seq<Response>, id: string)
    ensures var e := NextEdge(g, fold, r, id); e.Some? ==> e.value in g.edges && e.value.source == id
  {
    var out, e := OutgoingEdges(g, id), NextEdge(g, fold, r, id);
    if e.Some? {
      if Answered(r, id) {
        var answer := AnswerOf(r, id).value;
        FirstFinds(out, e => HasCondition(e) && SameLabel(fold, e.condition.value, answer));
      }
      FirstFinds(out, e => !HasCondition(e));
      EdgesFromExactly(g.edges, id, e.value);
    }
  }

  /**
   Edge `k` is the one the answers select: where some edge is conditional, the first stored of those
   labelled with the answer, else of those without a condition; otherwise the first of all, once
   the question is answered or if it is optional.
   */
  predicate Selected(g: Graph, fold: Fold, r: seq<Response>, id: string, k: nat) {
    if Answered(r, id) && HasConditionalEdges(g, id) then
      var labelled := e => HasCondition(e) && SameLabel(fold, e.condition.value, AnswerOf(r, id).value);
      || FirstFrom(g.edges, id, labelled, k)
      || (FirstFrom(g.edges, id, e => !HasCondition(e), k) && forall e :: e in g.edges && e.source == id ==> !labelled(e))
    else (Answered(r, id) || !IsRequired(g, id)) && FirstFrom(g.edges, id, e => true, k)
  }

  /** "Next" takes the selected edge of the graph as it is stored, and stays exactly when there is none. */
  lemma NextTakesSelected(g: Graph, fold: Fold, r: seq<Response>, id: string)
    ensures forall k: nat :: Selected(g, fold, r, id, k) ==> NextEdge(g, fold, r, id) == Some(g.edges[k])
    ensures NextEdge(g, fold, r, id).None? <==> forall k: nat :: !Selected(g, fold, r, id, k)
  {
    forall k: nat | Selected(g, fold, r, id, k) ensures NextEdge(g, fold, r, id) == Some(g.edges[k]) {
      SelectedIsTaken(g, fold, r, id, k);
    }
    if NextEdge(g, fold, r, id).Some? {
      TakenIsSelected(g, fold, r, id);
    }
  }

  lemma SelectedIsTaken(g: Graph, fold: Fold, r: seq<Response>, id: string, k: nat)
    requires Selected(g, fold, r, id, k)
    ensures NextEdge(g, fold, r, id) == Some(g.edges[k])
  {
    var out := OutgoingEdges(g, id);
    if Answered(r, id) && HasConditionalEdges(g, id) {
      var answer := AnswerOf(r, id).value;
      var stored := e => HasCondition(e) && SameLabel(fold, e.condition.value, AnswerOf(r, id).value);
      FirstAgrees(out, e => HasCondition(e) && SameLabel(fold, e.condition.value, answer), stored);
      if FirstFrom(g.edges, id, stored, k) {
        FirstOfEdgesFrom(g.edges, id, stored, k);
      } else {
        FirstOfEdgesFrom(g.edges, id, e => !HasCondition(e), k);
        FirstFinds(out, stored);
        if First(out, stored).Some? {
          EdgesFromExactly(g.edges, id, First(out, stored).value);
        }
      }
    } else {
      FirstOfEdgesFrom(g.edges, id, e => true, k);
    }
  }

  lemma TakenIsSelected(g: Graph, fold: Fold, r: seq<Response>, id: string)
    requires NextEdge(g, fold, r, id).Some?
    ensures exists k: nat :: Selected(g, fold, r, id, k)
  {
    var out := OutgoingEdges(g, id);
    if Answered(r, id) && HasConditionalEdges(g, id) {
      var answer := AnswerOf(r, id).value;
      var stored := e => HasCondition(e) && SameLabel(fold, e.condition.value, AnswerOf(r, id).value);
      FirstAgrees(out, e => HasCondition(e) && SameLabel(fold, e.condition.value, answer), stored);
      FirstFinds(out, stored);
      if First(out, stored).Some? {
        FirstFromExists(g.edges, id, stored);
        var k: nat :| FirstFrom(g.edges, id, stored, k);
        assert Selected(g, fold, r, id, k);
      } else {
        FirstFinds(out, e => !HasCondition(e));
        FirstFromExists(g.edges, id, e => !HasCondition(e));
        var k: nat :| FirstFrom(g.edges, id, e => !HasCondition(e), k);
        forall e | e in g.edges && e.source == id ensures !stored(e) {
          EdgesFromExactly(g.edges, id, e);
        }
        assert Selected(g, fold, r, id, k);
      }
    } else {
      assert out[0] in out;
      FirstFromExists(g.edges, id, e => true);
      var k: nat :| FirstFrom(g.edges, id, e => true, k);
      assert Selected(g, fold, r, id, k);
    }
  }

  /** The meaning of a set of answers: follow them from node to node. */
  function Follow(g: Graph, fold: Fold, r: seq<Response>, id: string, rank: string -> nat): Outcome
    requires Ranked(g, rank)
    decreases rank(id)
  {
    if id in ConclusionIds(g) then Reached(id)
    else
      var e := NextEdge(g, fold, r, id);
      NextEdgeLeaves(g, fold, r, id);
      if e.None? then Held(id) else Follow(g, fold, r, e.value.target, rank)
  }

  /** The nodes that following the answers visits, in order. */
  function Path(g: Graph, fold: Fold, r: seq<Response>, id: string, rank: string -> nat): (path: seq<string>)
    requires Ranked(g, rank)
    ensures path != [] && path[0] == id
    decreases rank(id)
  {
    if id in ConclusionIds(g) then [id]
    else
      var e := NextEdge(g, fold, r, id);
      NextEdgeLeaves(g, fold, r, id);
      if e.None? then [id] else [id] + Path(g, fold, r, e.value.target, rank)
  }

  lemma {:induction false} FollowEndsPath(g: Graph, fold: Fold, r: seq<Response>, id: string, rank: string -> nat)
    requires Ranked(g, rank)
    ensures var path, o := Path(g, fold, r, id, rank), Follow(g, fold, r, id, rank);
      && (o.Reached? <==> path[|path| - 1] in ConclusionIds(g))
      && path[|path| - 1] == (if o.Reached? then o.conclusion else o.question)
      && forall k :: 0 <= k < |path| - 1 ==> path[k] !in ConclusionIds(g)
    decreases rank(id)
  {
    var e := NextEdge(g, fold, r, id);
    NextEdgeLeaves(g, fold, r, id);
    if id !in ConclusionIds(g) && e.Some? {
      FollowEndsPath(g, fold, r, e.value.target, rank);
    }
  }

  // A path visits each node at most once, so it is shorter than the graph.

  lemma {:induction false} PathIsSimple(g: Graph, fold: Fold, r: seq<Response>, id: string, rank: string -> nat)
    requires Ranked(g, rank) && EdgesJoinNodes(g) && id in NodeIds(g)
    ensures var path := Path(g, fold, r, id, rank);
      && |Elements(path)| == |path| && Elements(path) <= NodeIds(g)
      && forall x :: x in Elements(path) ==> rank(x) <= rank(id)
    decreases rank(id)
  {
    var path, e := Path(g, fold, r, id, rank), NextEdge(g, fold, r, id);
    NextEdgeLeaves(g, fold, r, id);
    if id in ConclusionIds(g) || e.None? {
      assert Elements(path) == {id};
    } else {
      var rest := Path(g, fold, r, e.value.target, rank);
      PathIsSimple(g, fold, r, e.value.target, rank);
      ElementsOfCons(id, rest);
    }
  }

  lemma ElementsOfCons(id: string, rest: seq<string>)
    ensures Elements([id] + rest) == {id} + Elements(rest)
  {
    forall x | x in {id} + Elements(rest)
      ensures x in Elements([id] + rest)
    {
      if x == id {
        assert ([id] + rest)[0] == x;
      } else {
        var k :| 0 <= k < |rest| && rest[k] == x;
        assert ([id] + rest)[k + 1] == x;
      }
    }
  }

  lemma {:induction false} IdsFitNodes(nodes: seq<Node>, ids: set<string>)
    requires ids == (set i | 0 <= i < |nodes| :: nodes[i].id)
    ensures |ids| <= |nodes|
  {
    DistinctIds(nodes, ids);
  }

  lemma PathShorterThanGraph(g: Graph, fold: Fold, r: seq<Response>, id: string, rank: string -> nat)
    requires Ranked(g, rank) && EdgesJoinNodes(g) && id in NodeIds(g)
    ensures |Path(g, fold, r, id, rank)| <= |g.nodes|
  {
    PathIsSimple(g, fold, r, id, rank);
    SubsetSize(Elements(Path(g, fold, r, id, rank)), NodeIds(g));
    IdsFitNodes(g.nodes, NodeIds(g));
  }

  // The runner refines following the answers.

  function RepeatNext(g: Graph, fold: Fold, s: Session, n: nat, now: int): Session {
    if n == 0 then s else Navigate(g, fold, RepeatNext(g, fold, s, n - 1, now), Next, now)
  }

  lemma NextTakesEdge(g: Graph, fold: Fold, s: Session, now: int)
    requires WellFormed(g) && s.currentNodeId.Some? && s.currentNodeId.value in NodeIds(g)
    ensures var id, s' := s.currentNodeId.value, Navigate(g, fold, s, Next, now);
      && s'.responses == s.responses
      && (if id in ConclusionIds(g) then s'.currentNodeId == Some(id) && s'.conclusionReached == Some(id)
          else
            var e := NextEdge(g, fold, s.responses, id);
            && (e.Some? ==> e.value.target in NodeIds(g))
            && s'.currentNodeId == Some(if e.Some? then e.value.target else id)
            && (s'.currentNodeId.value in ConclusionIds(g) ==> s'.conclusionReached == s'.currentNodeId && s'.completedAt == Some(now)))
  {
    var id := s.currentNodeId.value;
    NodeLookup(g, id);
    NextEdgeLeaves(g, fold, s.responses, id);
    var u := Determine(g, fold, s, Next);
    if u.nextId.Some? {
      NodeLookup(g, u.nextId.value);
    }
  }

  /** The session after `n` steps shows the path's node number `n`, or its last one. */
  lemma {:induction false} RepeatNextWalksPath(g: Graph, fold: Fold, s: Session, n: nat, now: int, rank: string -> nat)
    requires WellFormed(g) && Ranked(g, rank) && s.currentNodeId.Some? && s.currentNodeId.value in NodeIds(g)
    ensures var path, t := Path(g, fold, s.responses, s.currentNodeId.value, rank), RepeatNext(g, fold, s, n, now);
      var id := path[if n < |path| then n else |path| - 1];
      && t.responses == s.responses && t.currentNodeId == Some(id) && id in NodeIds(g)
      && (n > 0 && id in ConclusionIds(g) ==> t.conclusionReached == Some(id))
  {
    hide Navigate, Path, NextEdge, ConclusionIds, NodeIds, WellFormed, Ranked;
    if n > 0 {
      RepeatNextWalksPath(g, fold, s, n - 1, now, rank);
      NextTakesEdge(g, fold, RepeatNext(g, fold, s, n - 1, now), now);
      PathStep(g, fold, s.responses, s.currentNodeId.value, n - 1, rank);
    }
  }

  lemma {:induction false} PathStep(g: Graph, fold: Fold, r: seq<Response>, id: string, k: nat, rank: string -> nat)
    requires Ranked(g, rank)
    ensures var path := Path(g, fold, r, id, rank);
      if k < |path| - 1
      then path[k] !in ConclusionIds(g) && NextEdge(g, fold, r, path[k]).Some? && NextEdge(g, fold, r, path[k]).value.target == path[k + 1]
      else path[|path| - 1] in ConclusionIds(g) || NextEdge(g, fold, r, path[|path| - 1]).None?
    decreases rank(id)
  {
    hide NextEdge, ConclusionIds;
    var e := NextEdge(g, fold, r, id);
    NextEdgeLeaves(g, fold, r, id);
    if id !in ConclusionIds(g) && e.Some? {
      PathStep(g, fold, r, e.value.target, if k == 0 then 0 else k - 1, rank);
    }
  }

  /** Only the answers given along the path decide where it leads. */
  lemma {:induction false} OnlyPathAnswersMatter(
    g: Graph, fold: Fold, r1: seq<Response>, r2: seq<Response>, id: string, rank: string -> nat)
    requires Ranked(g, rank)
    requires forall x :: x in Path(g, fold, r1, id, rank) ==> AnswerOf(r1, x) == AnswerOf(r2, x)
    ensures Path(g, fold, r2, id, rank) == Path(g, fold, r1, id, rank)
    ensures Follow(g, fold, r2, id, rank) == Follow(g, fold, r1, id, rank)
    decreases rank(id)
  {
    assert id in Path(g, fold, r1, id, rank);
    var e := NextEdge(g, fold, r1, id);
    NextEdgeLeaves(g, fold, r1, id);
    if id !in ConclusionIds(g) && e.Some? {
      OnlyPathAnswersMatter(g, fold, r1, r2, e.value.target, rank);
    }
  }

  // Validated graphs.

  /** A condition of white space only: validation takes its edge for a default edge, the runner does not. */
  predicate WhitespaceCondition(e: Edge) {
    HasCondition(e) && Blank(e.condition.value)
  }

  predicate NoWhitespaceConditions(g: Graph) {
    forall e :: e in g.edges ==> !WhitespaceCondition(e)
  }

  predicate AnswersOffered(g: Graph, r: seq<Response>) {
    forall n :: n in g.nodes && n.Question? ==> Answered(r, n.id) && AnswerOf(r, n.id).value in n.options
  }

  /** No edge is labelled with the answer, and white space hides every default edge. */
  predicate Stranded(g: Graph, fold: Fold, id: string, answer: string) {
    var out := OutgoingEdges(g, id);
    && HasConditionalEdges(g, id)
    && (forall e :: e in out && HasCondition(e) ==> !SameLabel(fold, e.condition.value, answer))
    && (exists e :: e in out && WhitespaceCondition(e))
    && (forall e :: e in out && !IsConditional(e) ==> WhitespaceCondition(e))
  }

  lemma LabelOfOption(e: Edge, fold: Fold, answer: string)
    requires HasCondition(e) && Strip(e.condition.value) == answer
    ensures SameLabel(fold, e.condition.value, answer)
  {
    StripIdempotent(e.condition.value);
  }

  /** In a validated graph "next" leaves a question unless the offered answer is stranded there. */
  lemma OfferedAnswerLeaves(g: Graph, fold: Fold, r: seq<Response>, n: Node)
    requires ValidateGraph(g).None? && ConclusionIds(g) != {} && n in g.nodes && n.Question?
    requires Answered(r, n.id) && AnswerOf(r, n.id).value in n.options
    ensures NextEdge(g, fold, r, n.id).None? <==> Stranded(g, fold, n.id, AnswerOf(r, n.id).value)
  {
    ValidIsCovered(g, n);
    var out, answer := OutgoingEdges(g, n.id), AnswerOf(r, n.id).value;
    FirstFinds(out, e => HasCondition(e) && SameLabel(fold, e.condition.value, answer));
    FirstFinds(out, e => !HasCondition(e));
    if NextEdge(g, fold, r, n.id).None? {
      if e :| e in out && HasCondition(e) && Strip(e.condition.value) == answer {
        LabelOfOption(e, fold, answer);
        assert false;
      }
    }
  }

  lemma QuestionById(g: Graph, id: string)
    requires WellFormed(g) && id in NodeIds(g) && id !in ConclusionIds(g)
    ensures GetNode(g, id).Some? && GetNode(g, id).value.Question? && GetNode(g, id).value.id == id && GetNode(g, id).value in g.nodes
  {
    NodeLookup(g, id);
  }

  /** Following offered answers fails to reach a conclusion exactly when a question on the way strands its answer. */
  lemma {:induction false} ReachesConclusionIff(g: Graph, fold: Fold, r: seq<Response>, id: string, rank: string -> nat)
    requires ValidateGraph(g).None? && ConclusionIds(g) != {} && Ranked(g, rank) && AnswersOffered(g, r) && id in NodeIds(g)
    ensures Follow(g, fold, r, id, rank).Reached? <==>
      forall x :: x in Path(g, fold, r, id, rank) && x !in ConclusionIds(g) ==>
        Answered(r, x) && !Stranded(g, fold, x, AnswerOf(r, x).value)
    decreases rank(id)
  {
    ValidIsWellFormed(g);
    var path := Path(g, fold, r, id, rank);
    assert id in path;
    if id !in ConclusionIds(g) {
      QuestionById(g, id);
      OfferedAnswerLeaves(g, fold, r, GetNode(g, id).value);
      NextEdgeLeaves(g, fold, r, id);
      if NextEdge(g, fold, r, id).Some? {
        ReachesConclusionIff(g, fold, r, NextEdge(g, fold, r, id).value.target, rank);
      }
    }
  }

  lemma TrimmedConditionsReach(g: Graph, fold: Fold, r: seq<Response>, id: string, rank: string -> nat)
    requires ValidateGraph(g).None? && ConclusionIds(g) != {} && Ranked(g, rank) && AnswersOffered(g, r) && id in NodeIds(g)
    requires NoWhitespaceConditions(g)
    ensures Follow(g, fold, r, id, rank).Reached?
  {
    ValidIsWellFormed(g);
    PathIsSimple(g, fold, r, id, rank);
    forall x | x in Path(g, fold, r, id, rank) && x !in ConclusionIds(g)
      ensures Answered(r, x) && !Stranded(g, fold, x, AnswerOf(r, x).value)
    {
      assert x in Elements(Path(g, fold, r, id, rank));
      QuestionById(g, x);
      forall e | e in OutgoingEdges(g, x) ensures !WhitespaceCondition(e) {
        EdgesFromExactly(g.edges, x, e);
      }
    }
    ReachesConclusionIff(g, fold, r, id, rank);
  }

  /**
   On a validated acyclic graph, for every choice of offered options: repeated "next" from the
   entry shows question after question, reaches exactly one conclusion in fewer steps than the
   graph has nodes, records it, and stays there. It is the conclusion that following the answers means.
   */
  lemma NextReachesOneConclusion(g: Graph, fold: Fold, s: Session, now: int, rank: string -> nat)
    requires ValidateGraph(g).None? && ConclusionIds(g) != {} && Ranked(g, rank) && NoWhitespaceConditions(g)
    requires AnswersOffered(g, s.responses) && s.currentNodeId == EntryNodeId(g)
    ensures EntryNodeId(g).Some?
    ensures var o := Follow(g, fold, s.responses, EntryNodeId(g).value, rank);
      var steps := |Path(g, fold, s.responses, EntryNodeId(g).value, rank)| - 1;
      && o.Reached? && 0 < steps < |g.nodes|
      && (forall m: nat :: m < steps ==>
            RepeatNext(g, fold, s, m, now).currentNodeId.Some?
            && RepeatNext(g, fold, s, m, now).currentNodeId.value in NodeIds(g) - ConclusionIds(g))
      && (forall m: nat :: m >= steps ==>
            RepeatNext(g, fold, s, m, now).currentNodeId == Some(o.conclusion)
            && RepeatNext(g, fold, s, m, now).conclusionReached == Some(o.conclusion))
  {
    hide ValidateGraph, RepeatNext, Path, Follow, NodeIds, ConclusionIds, EntryNodeId, AnswersOffered, NoWhitespaceConditions, Ranked;
    ValidIsWellFormed(g);
    ValidEntry(g);
    var entry := EntryNodeId(g).value;
    TrimmedConditionsReach(g, fold, s.responses, entry, rank);
    FollowEndsPath(g, fold, s.responses, entry, rank);
    PathShorterThanGraph(g, fold, s.responses, entry, rank);
    var path := Path(g, fold, s.responses, entry, rank);
    assert path[0] == entry;
    forall m: nat
      ensures var id := path[if m < |path| then m else |path| - 1];
        RepeatNext(g, fold, s, m, now).currentNodeId == Some(id) && id in NodeIds(g)
        && (m > 0 && id in ConclusionIds(g) ==> RepeatNext(g, fold, s, m, now).conclusionReached == Some(id))
    {
      RepeatNextWalksPath(g, fold, s, m, now, rank);
    }
  }

  lemma FreshSessionShowsEntry(g: Graph, fold: Fold, s: Session, intent: Intent, now: int)
    requires ValidateGraph(g).None? && s.currentNodeId.None? && intent != Finish && intent != Review
    ensures Navigate(g, fold, s, intent, now) == s.(currentNodeId := EntryNodeId(g))
  {
    ValidIsWellFormed(g);
    ValidEntry(g);
    NodeLookup(g, EntryNodeId(g).value);
  }

  // The documented rule: an edge matches the exact option label.

  function ExactEdge(g: Graph, r: seq<Response>, id: string): Option<Edge> {
    var answer := AnswerOf(r, id);
    var labelled := if answer.Some? then First(OutgoingEdges(g, id), e => IsConditional(e) && Strip(e.condition.value) == answer.value) else None;
    if labelled.Some? then labelled else DefaultEdge(g, id)
  }

  lemma ExactEdgeLeaves(g: Graph, r: seq<Response>, id: string)
    ensures var e := ExactEdge(g, r, id); e.Some? ==> e.value in g.edges && e.value.source == id
  {
    var out, answer, e := OutgoingEdges(g, id), AnswerOf(r, id), ExactEdge(g, r, id);
    if e.Some? {
      if answer.Some? {
        FirstFinds(out, e => IsConditional(e) && Strip(e.condition.value) == answer.value);
      }
      FirstFinds(out, e => !IsConditional(e));
      EdgesFromExactly(g.edges, id, e.value);
    }
  }

  function FollowExact(g: Graph, r: seq<Response>, id: string, rank: string -> nat): Outcome
    requires Ranked(g, rank)
    decreases rank(id)
  {
    if id in ConclusionIds(g) then Reached(id)
    else
      var e := ExactEdge(g, r, id);
      ExactEdgeLeaves(g, r, id);
      if e.None? then Held(id) else FollowExact(g, r, e.value.target, rank)
  }

  /** No two options of one question fall together when stripped and folded. */
  predicate LabelsDistinct(g: Graph, fold: Fold) {
    forall n, a, b :: n in g.nodes && n.Question? && a in n.options && b in n.options && SameLabel(fold, a, b) ==> a == b
  }

  lemma EdgesAgree(g: Graph, fold: Fold, r: seq<Response>, n: Node)
    requires ValidateGraph(g).None? && ConclusionIds(g) != {} && n in g.nodes && n.Question?
    requires NoWhitespaceConditions(g) && LabelsDistinct(g, fold)
    requires Answered(r, n.id) && AnswerOf(r, n.id).value in n.options
    ensures NextEdge(g, fold, r, n.id) == ExactEdge(g, r, n.id)
  {
    ValidIsCovered(g, n);
    var out, answer := OutgoingEdges(g, n.id), AnswerOf(r, n.id).value;
    forall e | e in out
      ensures !WhitespaceCondition(e)
      ensures (HasCondition(e) && SameLabel(fold, e.condition.value, answer)) == (IsConditional(e) && Strip(e.condition.value) == answer)
      ensures !HasCondition(e) == !IsConditional(e)
    {
      EdgesFromExactly(g.edges, n.id, e);
      assert Blank("");
      if HasCondition(e) {
        StripIdempotent(e.condition.value);
        assert SameLabel(fold, e.condition.value, answer) == SameLabel(fold, Strip(e.condition.value), answer);
      }
    }
    FirstAgrees(out, e => HasCondition(e) && SameLabel(fold, e.condition.value, answer), e => IsConditional(e) && Strip(e.condition.value) == answer);
    FirstAgrees(out, e => !HasCondition(e), e => !IsConditional(e));
    FirstFinds(out, e => IsConditional(e) && Strip(e.condition.value) == answer);
    if !HasConditionalEdges(g, n.id) {
      assert !IsConditional(out[0]);
    }
  }

  /** Folding case and trimming change no outcome while a question's labels stay distinct under them. */
  lemma {:induction false} ExactLabelsAgree(g: Graph, fold: Fold, r: seq<Response>, id: string, rank: string -> nat)
    requires ValidateGraph(g).None? && ConclusionIds(g) != {} && Ranked(g, rank) && id in NodeIds(g)
    requires NoWhitespaceConditions(g) && LabelsDistinct(g, fold) && AnswersOffered(g, r)
    ensures FollowExact(g, r, id, rank) == Follow(g, fold, r, id, rank)
    decreases rank(id)
  {
    if id !in ConclusionIds(g) {
      ValidIsWellFormed(g);
      QuestionById(g, id);
      EdgesAgree(g, fold, r, GetNode(g, id).value);
      ExactEdgeLeaves(g, r, id);
      var e := ExactEdge(g, r, id);
      if e.Some? {
        ExactLabelsAgree(g, fold, r, e.value.target, rank);
      }
    }
  }

  // The walk that "finish" checks.

  lemma WalkTakesNextEdge(g: Graph, fold: Fold, r: seq<Response>, id: string)
    requires NoWhitespaceConditions(g) && Answered(r, id)
    ensures WalkEdge(g, fold, r, id) == NextEdge(g, fold, r, id)
  {
    var out, answer := OutgoingEdges(g, id), AnswerOf(r, id).value;
    assert Blank("");
    forall e | e in out ensures HasCondition(e) == IsConditional(e) {
      EdgesFromExactly(g.edges, id, e);
      assert !WhitespaceCondition(e);
    }
    FirstAgrees(out, e => HasCondition(e) && SameLabel(fold, e.condition.value, answer),
                e => IsConditional(e) && SameLabel(fold, e.condition.value, answer));
    FirstAgrees(out, e => !HasCondition(e), e => !IsConditional(e));
    FirstFinds(out, e => IsConditional(e) && SameLabel(fold, e.condition.value, answer));
  }

  /** The first edge of a question, if any, is a default edge. */
  predicate DefaultFirst(g: Graph, id: string) {
    OutgoingEdges(g, id) != [] ==> !IsConditional(OutgoingEdges(g, id)[0])
  }

  /**
   The walk behind "finish" and "next" take the same edge from a question if and only if it is
   answered, or optional with a default edge first, or required without a default edge.
   */
  lemma WalkFollowsNextIff(g: Graph, fold: Fold, r: seq<Response>, id: string)
    requires NoWhitespaceConditions(g)
    ensures WalkEdge(g, fold, r, id) == NextEdge(g, fold, r, id) <==>
      Answered(r, id) || (if IsRequired(g, id) then DefaultEdge(g, id).None? else DefaultFirst(g, id))
  {
    if Answered(r, id) {
      WalkTakesNextEdge(g, fold, r, id);
    } else {
      FirstFinds(OutgoingEdges(g, id), e => !IsConditional(e));
    }
  }

  lemma {:induction false} WalkIsPath(g: Graph, fold: Fold, r: seq<Response>, id: string, rank: string -> nat, visited: set<string>)
    requires WellFormed(g) && Ranked(g, rank) && id in NodeIds(g)
    requires forall x :: x in Path(g, fold, r, id, rank) && x !in ConclusionIds(g) ==> WalkEdge(g, fold, r, x) == NextEdge(g, fold, r, x)
    requires forall v :: v in visited ==> rank(v) > rank(id)
    ensures WalkFrom(g, fold, r, id, visited) == Elements(Path(g, fold, r, id, rank))
    decreases rank(id)
  {
    hide WalkEdge, NextEdge;
    var path := Path(g, fold, r, id, rank);
    assert id in path;
    NodeLookup(g, id);
    NextEdgeLeaves(g, fold, r, id);
    WalkEdgeLeaves(g, fold, r, id);
    var e := NextEdge(g, fold, r, id);
    if id in ConclusionIds(g) || e.None? {
      assert Elements(path) == {id};
    } else {
      var rest := Path(g, fold, r, e.value.target, rank);
      WalkIsPath(g, fold, r, e.value.target, rank, visited + {id});
      ElementsOfCons(id, rest);
    }
  }

  /** A walk that follows "next" wherever it moves covers the path. */
  lemma {:induction false} WalkCoversPath(g: Graph, fold: Fold, r: seq<Response>, id: string, rank: string -> nat, visited: set<string>)
    requires WellFormed(g) && Ranked(g, rank) && id in NodeIds(g)
    requires forall x :: x in Path(g, fold, r, id, rank) && x !in ConclusionIds(g) && NextEdge(g, fold, r, x).Some? ==>
      WalkEdge(g, fold, r, x) == NextEdge(g, fold, r, x)
    requires forall v :: v in visited ==> rank(v) > rank(id)
    ensures Elements(Path(g, fold, r, id, rank)) <= WalkFrom(g, fold, r, id, visited)
    decreases rank(id)
  {
    hide WalkEdge, NextEdge;
    var path := Path(g, fold, r, id, rank);
    assert id in path;
    NodeLookup(g, id);
    NextEdgeLeaves(g, fold, r, id);
    WalkEdgeLeaves(g, fold, r, id);
    var e := NextEdge(g, fold, r, id);
    if id in ConclusionIds(g) || e.None? {
      assert Elements(path) == {id};
    } else {
      var rest := Path(g, fold, r, e.value.target, rank);
      WalkCoversPath(g, fold, r, e.value.target, rank, visited + {id});
      ElementsOfCons(id, rest);
    }
  }

  /** Each optional question of the path that is left unanswered has a default edge first. */
  predicate SkipsByDefault(g: Graph, r: seq<Response>, path: seq<string>) {
    forall x :: x in path && x !in ConclusionIds(g) && !Answered(r, x) && !IsRequired(g, x) ==> DefaultFirst(g, x)
  }

  predicate RequiredOpen(g: Graph, r: seq<Response>, x: string) {
    IsRequired(g, x) && !Answered(r, x)
  }

  lemma StepsAgree(g: Graph, fold: Fold, r: seq<Response>, path: seq<string>, x: string)
    requires NoWhitespaceConditions(g) && SkipsByDefault(g, r, path) && x in path && x !in ConclusionIds(g)
    ensures NextEdge(g, fold, r, x).Some? || !RequiredOpen(g, r, x) ==> WalkEdge(g, fold, r, x) == NextEdge(g, fold, r, x)
  {
    WalkFollowsNextIff(g, fold, r, x);
  }

  /**
   Unless an optional question is skipped past another edge than a default one: "finish" inspects
   the path, and nothing else once its required questions are answered; and it is refused if and
   only if one of them is not.
   */
  lemma FinishAgreesWithNext(g: Graph, fold: Fold, s: Session, now: int, rank: string -> nat)
    requires ValidateGraph(g).None? && Ranked(g, rank) && NoWhitespaceConditions(g)
    requires EntryNodeId(g).Some? && SkipsByDefault(g, s.responses, Path(g, fold, s.responses, EntryNodeId(g).value, rank))
    ensures var path := Path(g, fold, s.responses, EntryNodeId(g).value, rank);
      var open := exists x :: x in path && RequiredOpen(g, s.responses, x);
      && Elements(path) <= Reachable(g, fold, s.responses)
      && (!open ==> Reachable(g, fold, s.responses) == Elements(path))
      && (FinishBlocked(g, fold, s.responses) <==> open)
      && (!open ==> Navigate(g, fold, s, Finish, now) == s.(completedAt := Some(now)))
  {
    hide ValidateGraph, Path, WalkFrom, EntryNodeId, NoWhitespaceConditions, WalkEdge, NextEdge, SkipsByDefault, OutgoingEdges;
    ValidIsWellFormed(g);
    ValidEntry(g);
    var entry, r := EntryNodeId(g).value, s.responses;
    var path := Path(g, fold, r, entry, rank);
    forall x | x in path && x !in ConclusionIds(g)
      ensures NextEdge(g, fold, r, x).Some? || !RequiredOpen(g, r, x) ==> WalkEdge(g, fold, r, x) == NextEdge(g, fold, r, x)
    {
      StepsAgree(g, fold, r, path, x);
    }
    WalkCoversPath(g, fold, r, entry, rank, {});
    if x :| x in path && RequiredOpen(g, r, x) {
      NodeLookup(g, x);
      assert x in Elements(path);
      assert GetNode(g, x).value in g.nodes && GetNode(g, x).value.id in Reachable(g, fold, r);
    } else {
      WalkIsPath(g, fold, r, entry, rank, {});
      forall n | n in g.nodes && n.Question? && n.required && n.id in Reachable(g, fold, r) ensures Answered(r, n.id) {
        RequiredById(g, n);
        assert n.id in path;
      }
    }
  }

  lemma RequiredById(g: Graph, n: Node)
    requires UniqueIds(g) && n in g.nodes && n.Question? && n.required
    ensures IsRequired(g, n.id)
  {
    NodeLookup(g, n.id);
    FindNodeExactly(g.nodes, n.id);
    var i :| 0 <= i < |g.nodes| && g.nodes[i] == n;
    var j :| 0 <= j < |g.nodes| && g.nodes[j] == GetNode(g, n.id).value;
  }
}
