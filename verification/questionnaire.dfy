/**
 The questionnaire runner: one navigation request moves a session over a decision graph, and
 repeated "next" follows the answers to a conclusion. `fold` stands for `str.lower`; every
 result holds for any such function.
 */
module Questionnaire {
  import opened Results
  import opened Text
  import opened DecisionGraph

  type Fold = string -> string

  datatype Intent = Next | Previous | Skip | Finish | Review | Other

  datatype Response = Response(question: string, answer: string)

  datatype Session = Session(
    currentNodeId: Option<string>,
    responses: seq<Response>,
    conclusionReached: Option<string>,
    completedAt: Option<int>)

  datatype Warning = AnswerRemaining | AtFirstQuestion | AnswerFirst | CannotSkip | UnexpectedAnswer

  /** What `determine_next_question_node` hands to the rendering nodes. */
  datatype Update = Update(nextId: Option<string>, isConclusion: bool, completes: bool, warning: Option<Warning>)

  // Responses: a dictionary from question to answer that remembers insertion order.

  function AnswerOf(r: seq<Response>, id: string): Option<string> {
    if r == [] then None
    else if r[0].question == id then Some(r[0].answer)
    else AnswerOf(r[1..], id)
  }

  predicate Answered(r: seq<Response>, id: string) {
    AnswerOf(r, id).Some?
  }

  function PutAnswer(r: seq<Response>, id: string, answer: string): seq<Response> {
    if r == [] then [Response(id, answer)]
    else if r[0].question == id then [Response(id, answer)] + r[1..]
    else [r[0]] + PutAnswer(r[1..], id, answer)
  }

  function Questions(r: seq<Response>): seq<string> {
    seq(|r|, i requires 0 <= i < |r| => r[i].question)
  }

  /** An answer replaces the one its question had, in its place, or comes last; the other answers stay. */
  lemma {:induction false} PutAnswerStores(r: seq<Response>, id: string, answer: string)
    ensures var after := PutAnswer(r, id, answer);
      && (forall x :: AnswerOf(after, x) == if x == id then Some(answer) else AnswerOf(r, x))
      && Questions(after) == Questions(r) + (if Answered(r, id) then [] else [id])
  {
    if r != [] {
      var after := PutAnswer(r, id, answer);
      if r[0].question == id {
        assert after[1..] == r[1..];
      } else {
        PutAnswerStores(r[1..], id, answer);
        assert after[1..] == PutAnswer(r[1..], id, answer);
        assert Questions(r) == [r[0].question] + Questions(r[1..]);
        assert Questions(after) == [r[0].question] + Questions(after[1..]);
      }
    }
  }

  // Navigation.

  predicate SameLabel(fold: Fold, caption: string, answer: string) {
    fold(Strip(caption)) == fold(Strip(answer))
  }

  function MatchedEdge(fold: Fold, out: seq<Edge>, answer: string): Option<Edge> {
    First(out, e => HasCondition(e) && SameLabel(fold, e.condition.value, answer))
  }

  function UnconditionedEdge(out: seq<Edge>): Option<Edge> {
    First(out, e => !HasCondition(e))
  }

  function Show(g: Graph, id: string): Update {
    Update(Some(id), id in ConclusionIds(g), false, None)
  }

  function Stay(id: string, warning: Warning): Update {
    Update(Some(id), false, false, Some(warning))
  }

  predicate IsRequired(g: Graph, id: string) {
    var n := GetNode(g, id);
    n.Some? && n.value.Question? && n.value.required
  }

  /** The "next" and "skip" branches, from the check that the current question is answered on. */
  function Forward(g: Graph, fold: Fold, r: seq<Response>, id: string, isSkip: bool): Update {
    var out := OutgoingEdges(g, id);
    if !isSkip && !Answered(r, id) && id !in ConclusionIds(g) && IsRequired(g, id) then Stay(id, AnswerFirst)
    else if out == [] then Show(g, id)
    else if isSkip && HasConditionalEdges(g, id) then Stay(id, CannotSkip)
    else if HasConditionalEdges(g, id) && Answered(r, id) then
      var matched := MatchedEdge(fold, out, AnswerOf(r, id).value);
      var fallback := UnconditionedEdge(out);
      if matched.Some? then Show(g, matched.value.target)
      else if fallback.Some? then Show(g, fallback.value.target)
      else Stay(id, UnexpectedAnswer)
    else Show(g, out[0].target)
  }

  function LastAnswered(edges: seq<Edge>, r: seq<Response>): Option<string> {
    if edges == [] then None
    else if Answered(r, edges[|edges| - 1].source) then Some(edges[|edges| - 1].source)
    else LastAnswered(edges[..|edges| - 1], r)
  }

  function Backward(g: Graph, r: seq<Response>, id: string): Update {
    var incoming := IncomingEdges(g, id);
    if incoming == [] then Update(Some(id), id in ConclusionIds(g), false, Some(AtFirstQuestion))
    else
      var answered := LastAnswered(incoming, r);
      Show(g, if answered.Some? then answered.value else incoming[0].source)
  }

  function ShowOption(g: Graph, id: Option<string>): Update {
    Update(id, id.Some? && id.value in ConclusionIds(g), false, None)
  }

  predicate FinishBlocked(g: Graph, fold: Fold, r: seq<Response>) {
    exists n :: n in g.nodes && n.Question? && n.required && n.id in Reachable(g, fold, r) && !Answered(r, n.id)
  }

  function Determine(g: Graph, fold: Fold, s: Session, intent: Intent): Update {
    var r := s.responses;
    if intent == Finish then
      if FinishBlocked(g, fold, r) then Update(s.currentNodeId, false, false, Some(AnswerRemaining))
      else Update(None, false, true, None)
    else if intent == Review then
      ShowOption(g, if r != [] then Some(r[|r| - 1].question) else EntryNodeId(g))
    else if s.currentNodeId.None? then ShowOption(g, EntryNodeId(g))
    else
      var id := s.currentNodeId.value;
      if id in ConclusionIds(g) && (intent == Next || intent == Skip) then Update(Some(id), true, false, None)
      else if intent == Previous then Backward(g, r, id)
      else Forward(g, fold, r, id, intent == Skip)
  }

  function Render(g: Graph, s: Session, u: Update, now: int): Session {
    if u.nextId.None? || GetNode(g, u.nextId.value).None? then s
    else
      var node := GetNode(g, u.nextId.value).value;
      var s' := s.(currentNodeId := u.nextId);
      if node.Conclusion? then s'.(conclusionReached := u.nextId, completedAt := Some(now)) else s'
  }

  /** One request: determine the node, then render it or the completion screen. */
  function Navigate(g: Graph, fold: Fold, s: Session, intent: Intent, now: int): Session {
    var u := Determine(g, fold, s, intent);
    if u.completes && u.nextId.None? then s.(completedAt := Some(now)) else Render(g, s, u, now)
  }

  // The walk behind "finish".

  function AllIds(g: Graph): set<string> {
    NodeIds(g) + set e | e in g.edges :: e.target
  }

  function WalkEdge(g: Graph, fold: Fold, r: seq<Response>, id: string): Option<Edge> {
    var out := OutgoingEdges(g, id);
    var matched :=
      if Answered(r, id)
      then First(out, e => IsConditional(e) && SameLabel(fold, e.condition.value, AnswerOf(r, id).value))
      else None;
    if matched.Some? then matched else DefaultEdge(g, id)
  }

  lemma WalkEdgeLeaves(g: Graph, fold: Fold, r: seq<Response>, id: string)
    ensures var e := WalkEdge(g, fold, r, id); e.Some? ==> e.value in g.edges && e.value.source == id
  {
    var out := OutgoingEdges(g, id);
    if WalkEdge(g, fold, r, id).Some? {
      if Answered(r, id) {
        FirstFinds(out, e => IsConditional(e) && SameLabel(fold, e.condition.value, AnswerOf(r, id).value));
      }
      FirstFinds(out, e => !IsConditional(e));
      EdgesFromExactly(g.edges, id, WalkEdge(g, fold, r, id).value);
    }
  }

  function WalkFrom(g: Graph, fold: Fold, r: seq<Response>, id: string, visited: set<string>): set<string>
    requires id in AllIds(g)
    decreases AllIds(g) - visited
  {
    if id in visited then {}
    else
      var here := if GetNode(g, id).Some? then {id} else {};
      var edge := WalkEdge(g, fold, r, id);
      WalkEdgeLeaves(g, fold, r, id);
      if edge.None? then here else here + WalkFrom(g, fold, r, edge.value.target, visited + {id})
  }

  lemma EntryIsNode(g: Graph)
    ensures EntryNodeId(g).Some? ==> EntryNodeId(g).value in NodeIds(g)
  {
    var entries := EntryNodes(g, g.nodes);
    if entries != [] {
      EntryNodesExactly(g, g.nodes, entries[0]);
    }
  }

  function Reachable(g: Graph, fold: Fold, r: seq<Response>): set<string> {
    EntryIsNode(g);
    if EntryNodeId(g).None? then {} else WalkFrom(g, fold, r, EntryNodeId(g).value, {})
  }

  method GetReachableQuestions(g: Graph, fold: Fold, r: seq<Response>) returns (reachable: set<string>)
    ensures reachable == Reachable(g, fold, r)
  {
    reachable := {};
    var visited: set<string> := {};
    var current := EntryNodeId(g);
    EntryIsNode(g);
    while current.Some?
      invariant current.Some? ==> current.value in AllIds(g)
      invariant Reachable(g, fold, r)
        == reachable + (if current.Some? then WalkFrom(g, fold, r, current.value, visited) else {})
      decreases current.Some?, AllIds(g) - visited
    {
      var id := current.value;
      if id in visited {
        break;
      }
      visited := visited + {id};
      if GetNode(g, id).Some? {
        reachable := reachable + {id};
      }
      var edge := WalkEdge(g, fold, r, id);
      WalkEdgeLeaves(g, fold, r, id);
      current := if edge.Some? then Some(edge.value.target) else None;
    }
  }

  // The session row, updated in place.

  class DecisionTreeSession {
    var currentNodeId: Option<string>
    var userResponses: seq<Response>
    var conclusionReached: Option<string>
    var completedAt: Option<int>

    ghost function View(): Session
      reads this
    {
      Session(currentNodeId, userResponses, conclusionReached, completedAt)
    }

    method RenderQuestion(g: Graph, u: Update, now: int)
      modifies this
      ensures View() == Render(g, old(View()), u, now)
    {
      if u.nextId.None? {
        return;
      }
      var node := GetNode(g, u.nextId.value);
      if node.None? {
        return;
      }
      currentNodeId := u.nextId;
      if node.value.Conclusion? {
        conclusionReached := u.nextId;
        completedAt := Some(now);
      }
    }

    method Execute(g: Graph, fold: Fold, intent: Intent, now: int)
      modifies this
      ensures View() == Navigate(g, fold, old(View()), intent, now)
    {
      var u := Determine(g, fold, Session(currentNodeId, userResponses, conclusionReached, completedAt), intent);
      if u.completes && u.nextId.None? {
        completedAt := Some(now);
      } else {
        RenderQuestion(g, u, now);
      }
    }

    method SubmitAnswer(g: Graph, fold: Fold, question: string, answer: string, finish: bool, now: int)
      modifies this
      ensures View() == Submit(g, fold, old(View()), question, answer, finish, now)
    {
      userResponses := PutAnswer(userResponses, question, answer);
      Execute(g, fold, if finish then Finish else Next, now);
    }
  }

  function Submit(g: Graph, fold: Fold, s: Session, question: string, answer: string, finish: bool, now: int): Session {
    Navigate(g, fold, s.(responses := PutAnswer(s.responses, question, answer)), if finish then Finish else Next, now)
  }

  // Safety over whole runs.

  predicate SessionOk(g: Graph, s: Session) {
    && (s.currentNodeId.Some? ==> s.currentNodeId.value in NodeIds(g))
    && (s.conclusionReached.Some? ==> s.conclusionReached.value in ConclusionIds(g))
  }

  lemma NodeLookup(g: Graph, id: string)
    requires UniqueIds(g)
    ensures GetNode(g, id).Some? <==> id in NodeIds(g)
    ensures id in ConclusionIds(g) <==> GetNode(g, id).Some? && GetNode(g, id).value.Conclusion?
    ensures GetNode(g, id).Some? ==> GetNode(g, id).value in g.nodes && GetNode(g, id).value.id == id
  {
    FindNodeExactly(g.nodes, id);
  }

  lemma ForwardMoves(g: Graph, fold: Fold, r: seq<Response>, id: string, isSkip: bool)
    ensures var u := Forward(g, fold, r, id, isSkip);
      u.nextId.Some? && (u.nextId.value == id || Joined(g, id, u.nextId.value))
  {
    var out := OutgoingEdges(g, id);
    if out != [] {
      EdgesFromExactly(g.edges, id, out[0]);
      FirstFinds(out, e => !HasCondition(e));
      if UnconditionedEdge(out).Some? {
        EdgesFromExactly(g.edges, id, UnconditionedEdge(out).value);
      }
      if Answered(r, id) {
        var answer := AnswerOf(r, id).value;
        FirstFinds(out, e => HasCondition(e) && SameLabel(fold, e.condition.value, answer));
        if MatchedEdge(fold, out, answer).Some? {
          EdgesFromExactly(g.edges, id, MatchedEdge(fold, out, answer).value);
        }
      }
    }
  }

  lemma {:induction false} LastAnsweredIsSource(edges: seq<Edge>, r: seq<Response>)
    ensures LastAnswered(edges, r).Some? ==> exists e :: e in edges && e.source == LastAnswered(edges, r).value
  {
    if edges != [] {
      LastAnsweredIsSource(edges[..|edges| - 1], r);
    }
  }

  lemma BackwardMoves(g: Graph, r: seq<Response>, id: string)
    ensures var u := Backward(g, r, id);
      u.nextId.Some? && (u.nextId.value == id || Joined(g, u.nextId.value, id))
  {
    var incoming := IncomingEdges(g, id);
    if incoming != [] {
      LastAnsweredIsSource(incoming, r);
      EdgesIntoExactly(g.edges, id, incoming[0]);
      if LastAnswered(incoming, r).Some? {
        var e :| e in incoming && e.source == LastAnswered(incoming, r).value;
        EdgesIntoExactly(g.edges, id, e);
      }
    }
  }

  /**
   One request keeps the session inside the graph, reports only conclusions as reached, and
   moves only along edges: forward for "next" and "skip", which never leave a conclusion, and
   backward for "previous". A session that shows nothing yet moves to the entry.
   */
  lemma NavigationIsSafe(g: Graph, fold: Fold, s: Session, intent: Intent, now: int)
    requires WellFormed(g) && SessionOk(g, s)
    ensures var s' := Navigate(g, fold, s, intent, now);
      && SessionOk(g, s') && s'.responses == s.responses
      && (s.currentNodeId.Some? && s'.currentNodeId != s.currentNodeId ==>
            && s'.currentNodeId.Some? && intent != Finish
            && (intent == Next || intent == Skip || intent == Other ==>
                  s.currentNodeId.value !in ConclusionIds(g) && Joined(g, s.currentNodeId.value, s'.currentNodeId.value))
            && (intent == Previous ==> Joined(g, s'.currentNodeId.value, s.currentNodeId.value)))
      && (s.currentNodeId.None? && s'.currentNodeId != s.currentNodeId && intent != Review ==> s'.currentNodeId == EntryNodeId(g))
  {
    var u := Determine(g, fold, s, intent);
    if u.nextId.Some? {
      NodeLookup(g, u.nextId.value);
    }
    if s.currentNodeId.Some? {
      var id := s.currentNodeId.value;
      ForwardMoves(g, fold, s.responses, id, intent == Skip);
      BackwardMoves(g, s.responses, id);
    }
  }

  /**
   The flag the rendering node receives marks conclusion nodes only, so it never overrides a
   question's kind; on a well-formed graph it marks each one shown, unless "finish" is refused on it.
   */
  lemma ConclusionFlagIsSound(g: Graph, fold: Fold, s: Session, intent: Intent)
    ensures var u := Determine(g, fold, s, intent);
      && (u.isConclusion ==> u.nextId.Some? && u.nextId.value in ConclusionIds(g))
      && (WellFormed(g) && u.nextId.Some? && u.nextId.value in ConclusionIds(g) && u.warning != Some(AnswerRemaining) ==> u.isConclusion)
  {
    if s.currentNodeId.Some? {
      var out := OutgoingEdges(g, s.currentNodeId.value);
      if out != [] {
        EdgesFromExactly(g.edges, s.currentNodeId.value, out[0]);
      }
    }
  }

  // Where each of the other intents leads.

  /** Edge `k` is the last whose source is answered. */
  predicate LastAnsweredAt(edges: seq<Edge>, r: seq<Response>, k: nat) {
    && k < |edges| && Answered(r, edges[k].source)
    && forall j :: k < j < |edges| ==> !Answered(r, edges[j].source)
  }

  lemma {:induction false} LastAnsweredExactly(edges: seq<Edge>, r: seq<Response>)
    ensures LastAnswered(edges, r).None? <==> forall j :: 0 <= j < |edges| ==> !Answered(r, edges[j].source)
    ensures forall k: nat :: LastAnsweredAt(edges, r, k) ==> LastAnswered(edges, r) == Some(edges[k].source)
  {
    if edges != [] {
      LastAnsweredExactly(edges[..|edges| - 1], r);
      forall k: nat | LastAnsweredAt(edges, r, k) ensures LastAnswered(edges, r) == Some(edges[k].source) {
        if k < |edges| - 1 {
          assert LastAnsweredAt(edges[..|edges| - 1], r, k);
        }
      }
    }
  }

  /**
   "Previous" leads to the source of the last incoming edge with an answered source, or of the
   first incoming edge if none is answered, and stays on a node that no edge leads to.
   */
  lemma PreviousShows(g: Graph, fold: Fold, s: Session, now: int)
    requires WellFormed(g) && s.currentNodeId.Some? && s.currentNodeId.value in NodeIds(g)
    ensures var id, incoming := s.currentNodeId.value, IncomingEdges(g, s.currentNodeId.value);
      var shown := Navigate(g, fold, s, Previous, now).currentNodeId;
      && (incoming == [] ==> shown == Some(id) && Determine(g, fold, s, Previous).warning == Some(AtFirstQuestion))
      && (incoming != [] && (forall j :: 0 <= j < |incoming| ==> !Answered(s.responses, incoming[j].source)) ==> shown == Some(incoming[0].source))
      && forall k: nat :: LastAnsweredAt(incoming, s.responses, k) ==> shown == Some(incoming[k].source)
  {
    hide LastAnswered;
    var id := s.currentNodeId.value;
    var incoming := IncomingEdges(g, id);
    LastAnsweredExactly(incoming, s.responses);
    BackwardMoves(g, s.responses, id);
    NodeLookup(g, Determine(g, fold, s, Previous).nextId.value);
  }

  /**
   "Skip" reads no answer: it takes the first edge of a question whose edges are all default
   edges, and stays with a warning on a question that has another.
   */
  lemma SkipShows(g: Graph, fold: Fold, s: Session, now: int)
    requires WellFormed(g) && s.currentNodeId.Some? && s.currentNodeId.value in NodeIds(g) - ConclusionIds(g)
    ensures var id, out := s.currentNodeId.value, OutgoingEdges(g, s.currentNodeId.value);
      && Navigate(g, fold, s, Skip, now).currentNodeId
           == Some(if out != [] && (forall e :: e in out ==> !IsConditional(e)) then out[0].target else id)
      && (Determine(g, fold, s, Skip).warning == Some(CannotSkip) <==> exists e :: e in out && IsConditional(e))
  {
    var id := s.currentNodeId.value;
    ForwardMoves(g, fold, s.responses, id, true);
    NodeLookup(g, Determine(g, fold, s, Skip).nextId.value);
  }

  /** "Review" returns to the question stored last, or to the entry when nothing is stored yet. */
  lemma ReviewShows(g: Graph, fold: Fold, s: Session, now: int)
    requires WellFormed(g)
    ensures var target := if s.responses == [] then EntryNodeId(g) else Some(s.responses[|s.responses| - 1].question);
      Navigate(g, fold, s, Review, now).currentNodeId
      == if target.Some? && target.value in NodeIds(g) then target else s.currentNodeId
  {
    if s.responses != [] {
      NodeLookup(g, s.responses[|s.responses| - 1].question);
    } else if EntryNodeId(g).Some? {
      NodeLookup(g, EntryNodeId(g).value);
    }
  }

  /** After an answer to a question not answered before, "review" returns to that question from wherever the session is. */
  lemma ReviewReturnsToNewAnswer(g: Graph, fold: Fold, s: Session, id: string, answer: string, now: int)
    requires WellFormed(g) && id in NodeIds(g) && !Answered(s.responses, id)
    ensures Navigate(g, fold, s.(responses := PutAnswer(s.responses, id, answer)), Review, now).currentNodeId == Some(id)
  {
    PutAnswerStores(s.responses, id, answer);
    var after := PutAnswer(s.responses, id, answer);
    assert Questions(after)[|s.responses|] == after[|s.responses|].question;
    ReviewShows(g, fold, s.(responses := after), now);
  }

  lemma {:induction false} WalkStaysInGraph(g: Graph, fold: Fold, r: seq<Response>, id: string, visited: set<string>)
    requires id in AllIds(g)
    ensures WalkFrom(g, fold, r, id, visited) <= NodeIds(g) - visited
    decreases AllIds(g) - visited
  {
    FindNodeExactly(g.nodes, id);
    var edge := WalkEdge(g, fold, r, id);
    WalkEdgeLeaves(g, fold, r, id);
    if id !in visited && edge.Some? {
      WalkStaysInGraph(g, fold, r, edge.value.target, visited + {id});
    }
  }

  /**
   "Finish" completes the session, and leaves it where it was, exactly when each required question
   that can be reached is answered; otherwise it warns and a question shown stays as it was. What
   can be reached are nodes of the graph, validated or not. No other intent completes or warns so.
   */
  lemma FinishOutcome(g: Graph, fold: Fold, s: Session, intent: Intent, now: int)
    requires UniqueIds(g)
    ensures var u, blocked := Determine(g, fold, s, intent), FinishBlocked(g, fold, s.responses);
      && (u.completes <==> intent == Finish && !blocked)
      && (u.warning == Some(AnswerRemaining) <==> intent == Finish && blocked)
      && (u.completes ==> Navigate(g, fold, s, intent, now) == s.(completedAt := Some(now)))
      && (intent == Finish && blocked && (s.currentNodeId.None? || s.currentNodeId.value !in ConclusionIds(g)) ==>
            Navigate(g, fold, s, intent, now) == s)
    ensures Reachable(g, fold, s.responses) <= NodeIds(g)
  {
    hide FinishBlocked, WalkFrom;
    EntryIsNode(g);
    if EntryNodeId(g).Some? {
      WalkStaysInGraph(g, fold, s.responses, EntryNodeId(g).value, {});
    }
    if s.currentNodeId.Some? {
      NodeLookup(g, s.currentNodeId.value);
    }
  }

  datatype Action =
    | Go(intent: Intent, at: int)
    | Answer(question: string, text: string, finish: bool, at: int)

  function Act(g: Graph, fold: Fold, s: Session, a: Action): Session {
    match a
    case Go(intent, at) => Navigate(g, fold, s, intent, at)
    case Answer(question, text, finish, at) => Submit(g, fold, s, question, text, finish, at)
  }

  function RunActions(g: Graph, fold: Fold, s: Session, actions: seq<Action>): Session {
    if actions == [] then s else Act(g, fold, RunActions(g, fold, s, actions[..|actions| - 1]), actions[|actions| - 1])
  }

  /** Over every sequence of requests and submitted answers, whatever text they carry. */
  lemma {:induction false} RunsStaySafe(g: Graph, fold: Fold, s: Session, actions: seq<Action>)
    requires WellFormed(g) && SessionOk(g, s)
    ensures SessionOk(g, RunActions(g, fold, s, actions))
  {
    if actions != [] {
      var before, a := actions[..|actions| - 1], actions[|actions| - 1];
      RunsStaySafe(g, fold, s, before);
      var t := RunActions(g, fold, s, before);
      match a
      case Go(intent, at) => NavigationIsSafe(g, fold, t, intent, at);
      case Answer(question, text, finish, at) =>
        NavigationIsSafe(g, fold, t.(responses := PutAnswer(t.responses, question, text)), if finish then Finish else Next, at);
    }
  }
}
