/** Decision-tree graphs: the queries of `DTGraph`, and the strict validation a graph passes before it runs. */
module DecisionGraph {
  import opened Results
  import opened Text

  datatype Node =
    | Question(id: string, text: string, options: seq<string>, required: bool)
    | Conclusion(id: string, title: string, summary: string)

  datatype Edge = Edge(source: string, target: string, condition: Option<string>)

  datatype Graph = Graph(nodes: seq<Node>, edges: seq<Edge>, title: string)

  // Conditions. An empty condition marks a default edge, as does a missing or a blank one.

  predicate HasCondition(e: Edge) {
    e.condition.Some? && e.condition.value != ""
  }

  predicate IsConditional(e: Edge) {
    e.condition.Some? && !Blank(e.condition.value)
  }

  // Queries.

  function NodeIds(g: Graph): set<string> {
    set i | 0 <= i < |g.nodes| :: g.nodes[i].id
  }

  function ConclusionIds(g: Graph): set<string> {
    set i | 0 <= i < |g.nodes| && g.nodes[i].Conclusion? :: g.nodes[i].id
  }

  /** The lookup table keeps the last node with an id. */
  function FindNode(nodes: seq<Node>, id: string): Option<Node> {
    if nodes == [] then None
    else if nodes[|nodes| - 1].id == id then Some(nodes[|nodes| - 1])
    else FindNode(nodes[..|nodes| - 1], id)
  }

  function GetNode(g: Graph, id: string): Option<Node> {
    FindNode(g.nodes, id)
  }

  function EdgesFrom(edges: seq<Edge>, id: string): seq<Edge> {
    if edges == [] then []
    else EdgesFrom(edges[..|edges| - 1], id) + (if edges[|edges| - 1].source == id then [edges[|edges| - 1]] else [])
  }

  function EdgesInto(edges: seq<Edge>, id: string): seq<Edge> {
    if edges == [] then []
    else EdgesInto(edges[..|edges| - 1], id) + (if edges[|edges| - 1].target == id then [edges[|edges| - 1]] else [])
  }

  function OutgoingEdges(g: Graph, id: string): seq<Edge> {
    EdgesFrom(g.edges, id)
  }

  function IncomingEdges(g: Graph, id: string): seq<Edge> {
    EdgesInto(g.edges, id)
  }

  predicate HasConditionalEdges(g: Graph, id: string) {
    exists e :: e in OutgoingEdges(g, id) && IsConditional(e)
  }

  function First(edges: seq<Edge>, p: Edge -> bool): Option<Edge> {
    if edges == [] then None
    else if p(edges[0]) then Some(edges[0])
    else First(edges[1..], p)
  }

  function DefaultEdge(g: Graph, id: string): Option<Edge> {
    First(OutgoingEdges(g, id), e => !IsConditional(e))
  }

  function EntryNodes(g: Graph, nodes: seq<Node>): seq<Node> {
    if nodes == [] then []
    else (if IncomingEdges(g, nodes[0].id) == [] then [nodes[0]] else []) + EntryNodes(g, nodes[1..])
  }

  function EntryNodeId(g: Graph): Option<string> {
    var entries := EntryNodes(g, g.nodes);
    if entries == [] then None else Some(entries[0].id)
  }

  predicate Joined(g: Graph, a: string, b: string) {
    exists e :: e in g.edges && e.source == a && e.target == b
  }

  // What the queries mean.

  lemma {:induction false} EdgesFromExactly(edges: seq<Edge>, id: string, e: Edge)
    ensures e in EdgesFrom(edges, id) <==> e in edges && e.source == id
  {
    if edges != [] {
      EdgesFromExactly(edges[..|edges| - 1], id, e);
    }
  }

  lemma {:induction false} EdgesIntoExactly(edges: seq<Edge>, id: string, e: Edge)
    ensures e in EdgesInto(edges, id) <==> e in edges && e.target == id
  {
    if edges != [] {
      EdgesIntoExactly(edges[..|edges| - 1], id, e);
    }
  }

  lemma {:induction false} FindNodeExactly(nodes: seq<Node>, id: string)
    ensures FindNode(nodes, id).Some? <==> exists i :: 0 <= i < |nodes| && nodes[i].id == id
    ensures FindNode(nodes, id).Some? ==> FindNode(nodes, id).value in nodes && FindNode(nodes, id).value.id == id
  {
    if nodes != [] {
      FindNodeExactly(nodes[..|nodes| - 1], id);
    }
  }

  lemma {:induction false} EntryNodesExactly(g: Graph, nodes: seq<Node>, n: Node)
    ensures n in EntryNodes(g, nodes) <==> n in nodes && IncomingEdges(g, n.id) == []
  {
    if nodes != [] {
      EntryNodesExactly(g, nodes[1..], n);
    }
  }

  lemma {:induction false} FirstFinds(edges: seq<Edge>, p: Edge -> bool)
    ensures First(edges, p).Some? <==> exists e :: e in edges && p(e)
    ensures First(edges, p).Some? ==> First(edges, p).value in edges && p(First(edges, p).value)
  {
    if edges != [] {
      FirstFinds(edges[1..], p);
    }
  }

  // Where several qualify, order decides.

  /** Edge `k` is the first one from `id` that qualifies. */
  predicate FirstFrom(edges: seq<Edge>, id: string, p: Edge -> bool, k: nat) {
    && k < |edges| && edges[k].source == id && p(edges[k])
    && forall j :: 0 <= j < k && edges[j].source == id ==> !p(edges[j])
  }

  lemma {:induction false} FirstOfAppend(edges: seq<Edge>, e: Edge, p: Edge -> bool)
    ensures First(edges + [e], p) == if First(edges, p).Some? then First(edges, p) else if p(e) then Some(e) else None
  {
    if edges != [] {
      assert (edges + [e])[1..] == edges[1..] + [e];
      FirstOfAppend(edges[1..], e, p);
    }
  }

  /** Among a node's edges the one stored first in the graph is taken. */
  lemma {:induction false} FirstOfEdgesFrom(edges: seq<Edge>, id: string, p: Edge -> bool, k: nat)
    requires FirstFrom(edges, id, p, k)
    ensures First(EdgesFrom(edges, id), p) == Some(edges[k])
    decreases |edges|
  {
    var n := |edges| - 1;
    var before := EdgesFrom(edges[..n], id);
    if edges[n].source == id {
      FirstOfAppend(before, edges[n], p);
    } else {
      assert before + [] == before;
    }
    if k < n {
      FirstOfEdgesFrom(edges[..n], id, p, k);
    } else if First(before, p).Some? {
      FirstFinds(before, p);
      EdgesFromExactly(edges[..n], id, First(before, p).value);
    }
  }

  lemma {:induction false} FirstFromExists(edges: seq<Edge>, id: string, p: Edge -> bool)
    requires exists e :: e in EdgesFrom(edges, id) && p(e)
    ensures exists k: nat :: FirstFrom(edges, id, p, k)
  {
    var n := |edges| - 1;
    if e :| e in EdgesFrom(edges[..n], id) && p(e) {
      FirstFromExists(edges[..n], id, p);
      var k: nat :| FirstFrom(edges[..n], id, p, k);
      assert FirstFrom(edges, id, p, k);
    } else {
      forall j | 0 <= j < n && edges[j].source == id ensures !p(edges[j]) {
        EdgesFromExactly(edges[..n], id, edges[j]);
      }
      assert FirstFrom(edges, id, p, n);
    }
  }

  /** The entry is the first node without incoming edges, and a lookup finds the last node with the id. */
  lemma {:induction false} EntryIsFirst(g: Graph, nodes: seq<Node>, k: nat)
    requires k < |nodes| && IncomingEdges(g, nodes[k].id) == [] && forall j :: 0 <= j < k ==> IncomingEdges(g, nodes[j].id) != []
    ensures EntryNodes(g, nodes) != [] && EntryNodes(g, nodes)[0] == nodes[k]
  {
    if k > 0 {
      assert forall j :: 0 <= j < k - 1 ==> nodes[1..][j] == nodes[j + 1];
      EntryIsFirst(g, nodes[1..], k - 1);
    }
  }

  lemma {:induction false} LookupIsLast(nodes: seq<Node>, k: nat)
    requires k < |nodes| && forall j :: k < j < |nodes| ==> nodes[j].id != nodes[k].id
    ensures FindNode(nodes, nodes[k].id) == Some(nodes[k])
  {
    if k < |nodes| - 1 {
      LookupIsLast(nodes[..|nodes| - 1], k);
    }
  }

  lemma {:induction false} FirstAgrees(edges: seq<Edge>, p: Edge -> bool, q: Edge -> bool)
    requires forall e :: e in edges ==> p(e) == q(e)
    ensures First(edges, p) == First(edges, q)
  {
    if edges != [] {
      FirstAgrees(edges[1..], p, q);
    }
  }

  /** The loop that groups the edges by source agrees with filtering them for one source. */
  method BuildOutgoingMap(g: Graph) returns (result: map<string, seq<Edge>>)
    ensures result.Keys == NodeIds(g)
    ensures forall id :: id in result ==> result[id] == OutgoingEdges(g, id)
  {
    result := map id | id in NodeIds(g) :: [];
    for k := 0 to |g.edges|
      invariant result.Keys == NodeIds(g)
      invariant forall id :: id in result ==> result[id] == EdgesFrom(g.edges[..k], id)
    {
      var edge := g.edges[k];
      assert g.edges[..k + 1][..k] == g.edges[..k];
      if edge.source in result {
        result := result[edge.source := result[edge.source] + [edge]];
      }
    }
    assert g.edges[..|g.edges|] == g.edges;
  }

  method BuildIncomingMap(g: Graph) returns (result: map<string, seq<Edge>>)
    ensures result.Keys == NodeIds(g)
    ensures forall id :: id in result ==> result[id] == IncomingEdges(g, id)
  {
    result := map id | id in NodeIds(g) :: [];
    for k := 0 to |g.edges|
      invariant result.Keys == NodeIds(g)
      invariant forall id :: id in result ==> result[id] == EdgesInto(g.edges[..k], id)
    {
      var edge := g.edges[k];
      assert g.edges[..k + 1][..k] == g.edges[..k];
      if edge.target in result {
        result := result[edge.target := result[edge.target] + [edge]];
      }
    }
    assert g.edges[..|g.edges|] == g.edges;
  }

  // Validation.

  datatype GraphError =
    | NoNodes | DuplicateIds | UnknownSource(id: string) | UnknownTarget(id: string)
    | MissingText(id: string) | MissingTitle(id: string) | MissingSummary(id: string)
    | NoEntry | SeveralEntries | EntryIsConclusion
    | OneConclusion | ConclusionHasEdges(id: string) | DefaultToConclusion(id: string) | NoTerminal
    | QuestionWithoutEdges(id: string) | NoOptions(id: string) | PartialCoverage(id: string)
    | OptionalCoverage(id: string) | OptionalWithoutDefault(id: string)
    | ConditionNotLiteral(id: string) | ConditionNotOption(id: string) | NoGraphTitle

  function EdgeError(ids: set<string>, edges: seq<Edge>): Option<GraphError> {
    if edges == [] then None
    else if edges[0].source !in ids then Some(UnknownSource(edges[0].source))
    else if edges[0].target !in ids then Some(UnknownTarget(edges[0].target))
    else EdgeError(ids, edges[1..])
  }

  function ContentError(nodes: seq<Node>): Option<GraphError> {
    if nodes == [] then None
    else if nodes[0].Question? && nodes[0].text == "" then Some(MissingText(nodes[0].id))
    else if nodes[0].Conclusion? && nodes[0].title == "" then Some(MissingTitle(nodes[0].id))
    else if nodes[0].Conclusion? && nodes[0].summary == "" then Some(MissingSummary(nodes[0].id))
    else ContentError(nodes[1..])
  }

  function ConclusionEdgesError(g: Graph, nodes: seq<Node>): Option<GraphError> {
    if nodes == [] then None
    else if nodes[0].Conclusion? && OutgoingEdges(g, nodes[0].id) != [] then Some(ConclusionHasEdges(nodes[0].id))
    else ConclusionEdgesError(g, nodes[1..])
  }

  function DefaultToConclusionError(g: Graph, edges: seq<Edge>): Option<GraphError> {
    if edges == [] then None
    else if edges[0].target in ConclusionIds(g) && !IsConditional(edges[0]) then Some(DefaultToConclusion(edges[0].target))
    else DefaultToConclusionError(g, edges[1..])
  }

  function Conditions(edges: seq<Edge>): set<string> {
    set e | e in edges && HasCondition(e) :: Strip(e.condition.value)
  }

  predicate ProhibitedIn(s: string) {
    exists i :: 0 <= i < |s| && s[i] as int <= 0x1f
  }

  function ConditionError(options: seq<string>, id: string, edges: seq<Edge>): Option<GraphError> {
    if edges == [] then None
    else if IsConditional(edges[0]) && ProhibitedIn(Strip(edges[0].condition.value)) then Some(ConditionNotLiteral(id))
    else if IsConditional(edges[0]) && Strip(edges[0].condition.value) !in options then Some(ConditionNotOption(id))
    else ConditionError(options, id, edges[1..])
  }

  function QuestionError(g: Graph, n: Node): Option<GraphError>
    requires n.Question?
  {
    var out := OutgoingEdges(g, n.id);
    var hasDefault := exists e :: e in out && !IsConditional(e);
    if out == [] then (if ConclusionIds(g) != {} then Some(QuestionWithoutEdges(n.id)) else None)
    else if n.options == [] then Some(NoOptions(n.id))
    else if Conditions(out) != (set o | o in n.options) && n.required && !hasDefault then Some(PartialCoverage(n.id))
    else if Conditions(out) != (set o | o in n.options) && !n.required then Some(OptionalCoverage(n.id))
    else if !n.required && !hasDefault then Some(OptionalWithoutDefault(n.id))
    else ConditionError(n.options, n.id, out)
  }

  function QuestionsError(g: Graph, nodes: seq<Node>): Option<GraphError> {
    if nodes == [] then None
    else if nodes[0].Question? && QuestionError(g, nodes[0]).Some? then QuestionError(g, nodes[0])
    else QuestionsError(g, nodes[1..])
  }

  function OrElse(a: Option<GraphError>, b: Option<GraphError>): Option<GraphError> {
    if a.Some? then a else b
  }

  function CountConclusions(nodes: seq<Node>): nat {
    if nodes == [] then 0 else CountConclusions(nodes[1..]) + (if nodes[0].Conclusion? then 1 else 0)
  }

  function ConclusionRulesError(g: Graph): Option<GraphError> {
    if CountConclusions(g.nodes) == 0 then None
    else if CountConclusions(g.nodes) < 2 then Some(OneConclusion)
    else OrElse(ConclusionEdgesError(g, g.nodes), DefaultToConclusionError(g, g.edges))
  }

  function EntryError(g: Graph): Option<GraphError> {
    var entries := EntryNodes(g, g.nodes);
    if entries == [] then Some(NoEntry)
    else if |entries| > 1 then Some(SeveralEntries)
    else if entries[0].id in ConclusionIds(g) then Some(EntryIsConclusion)
    else None
  }

  /** `validate_graph`: the first rule the graph breaks, if any. */
  function ValidateGraph(g: Graph): Option<GraphError> {
    if g.nodes == [] then Some(NoNodes)
    else if |NodeIds(g)| != |g.nodes| then Some(DuplicateIds)
    else if EdgeError(NodeIds(g), g.edges).Some? then EdgeError(NodeIds(g), g.edges)
    else if ContentError(g.nodes).Some? then ContentError(g.nodes)
    else if EntryError(g).Some? then EntryError(g)
    else if ConclusionRulesError(g).Some? then ConclusionRulesError(g)
    else if forall n :: n in g.nodes ==> OutgoingEdges(g, n.id) != [] then Some(NoTerminal)
    else if QuestionsError(g, g.nodes).Some? then QuestionsError(g, g.nodes)
    else if g.title == "" then Some(NoGraphTitle)
    else None
  }

  // What a validated graph guarantees.

  predicate UniqueIds(g: Graph) {
    forall i, j :: 0 <= i < j < |g.nodes| ==> g.nodes[i].id != g.nodes[j].id
  }

  predicate EdgesJoinNodes(g: Graph) {
    forall e :: e in g.edges ==> e.source in NodeIds(g) && e.target in NodeIds(g)
  }

  predicate ConclusionsTerminal(g: Graph) {
    forall e :: e in g.edges ==> e.source !in ConclusionIds(g)
  }

  /** The structure that navigation relies on. */
  predicate WellFormed(g: Graph) {
    UniqueIds(g) && EdgesJoinNodes(g) && ConclusionsTerminal(g)
  }

  /** Each offered option has an edge of its own, or the question has a default edge. */
  predicate Covered(g: Graph, n: Node)
    requires n.Question?
  {
    var out := OutgoingEdges(g, n.id);
    && out != []
    && (forall o :: o in n.options ==>
          || (exists e :: e in out && HasCondition(e) && Strip(e.condition.value) == o)
          || (exists e :: e in out && !IsConditional(e)))
    && (forall e :: e in out && IsConditional(e) ==> Strip(e.condition.value) in n.options)
  }

  lemma {:induction false} DistinctIds(nodes: seq<Node>, ids: set<string>)
    requires ids == (set i | 0 <= i < |nodes| :: nodes[i].id)
    ensures |ids| <= |nodes|
    ensures |ids| == |nodes| <==> forall i, j :: 0 <= i < j < |nodes| ==> nodes[i].id != nodes[j].id
  {
    if nodes != [] {
      var last := |nodes| - 1;
      var rest := set i | 0 <= i < last :: nodes[i].id;
      assert rest == (set i | 0 <= i < last :: nodes[..last][i].id);
      DistinctIds(nodes[..last], rest);
      assert ids == rest + {nodes[last].id};
      if |ids| == |nodes| {
        assert nodes[last].id !in rest;
        forall i, j | 0 <= i < j < |nodes|
          ensures nodes[i].id != nodes[j].id
        {
          if j == last {
            assert nodes[i].id in rest;
          } else {
            assert nodes[..last][i].id != nodes[..last][j].id;
          }
        }
      }
    }
  }

  lemma {:induction false} NoEdgeError(ids: set<string>, edges: seq<Edge>)
    ensures EdgeError(ids, edges).None? <==> forall e :: e in edges ==> e.source in ids && e.target in ids
  {
    if edges != [] {
      NoEdgeError(ids, edges[1..]);
    }
  }

  predicate HasContent(n: Node) {
    match n
    case Question(_, text, _, _) => text != ""
    case Conclusion(_, title, summary) => title != "" && summary != ""
  }

  lemma {:induction false} NoContentError(nodes: seq<Node>)
    ensures ContentError(nodes).None? <==> forall n :: n in nodes ==> HasContent(n)
  {
    if nodes != [] {
      NoContentError(nodes[1..]);
      assert nodes[0] in nodes;
      assert forall n :: n in nodes <==> n == nodes[0] || n in nodes[1..];
    }
  }

  lemma {:induction false} NoConclusionEdgesError(g: Graph, nodes: seq<Node>)
    ensures ConclusionEdgesError(g, nodes).None? <==> forall n :: n in nodes && n.Conclusion? ==> OutgoingEdges(g, n.id) == []
  {
    if nodes != [] {
      NoConclusionEdgesError(g, nodes[1..]);
    }
  }

  lemma {:induction false} NoDefaultToConclusionError(g: Graph, edges: seq<Edge>)
    ensures DefaultToConclusionError(g, edges).None? <==> forall e :: e in edges && e.target in ConclusionIds(g) ==> IsConditional(e)
  {
    if edges != [] {
      NoDefaultToConclusionError(g, edges[1..]);
    }
  }

  lemma {:induction false} NoQuestionsError(g: Graph, nodes: seq<Node>)
    ensures QuestionsError(g, nodes).None? <==> forall n :: n in nodes && n.Question? ==> QuestionError(g, n).None?
  {
    if nodes != [] {
      NoQuestionsError(g, nodes[1..]);
    }
  }

  lemma {:induction false} NoConditionError(options: seq<string>, id: string, edges: seq<Edge>)
    ensures ConditionError(options, id, edges).None? <==> forall e :: e in edges && IsConditional(e) ==>
        !ProhibitedIn(Strip(e.condition.value)) && Strip(e.condition.value) in options
  {
    if edges != [] {
      NoConditionError(options, id, edges[1..]);
    }
  }

  lemma {:induction false} SomeConclusion(nodes: seq<Node>)
    ensures CountConclusions(nodes) > 0 <==> exists n :: n in nodes && n.Conclusion?
  {
    if nodes != [] {
      SomeConclusion(nodes[1..]);
    }
  }

  lemma ConclusionById(g: Graph, id: string)
    ensures id in ConclusionIds(g) <==> exists n :: n in g.nodes && n.Conclusion? && n.id == id
  {
  }

  lemma ValidIsWellFormed(g: Graph)
    requires ValidateGraph(g).None?
    ensures WellFormed(g)
  {
    hide EntryError, ContentError, QuestionsError, DefaultToConclusionError, OutgoingEdges;
    DistinctIds(g.nodes, NodeIds(g));
    NoEdgeError(NodeIds(g), g.edges);
    NoConclusionEdgesError(g, g.nodes);
    SomeConclusion(g.nodes);
    forall e | e in g.edges
      ensures e.source !in ConclusionIds(g)
    {
      ConclusionById(g, e.source);
      SourceHasEdges(g, e);
    }
  }

  lemma SourceHasEdges(g: Graph, e: Edge)
    requires e in g.edges
    ensures OutgoingEdges(g, e.source) != []
  {
    EdgesFromExactly(g.edges, e.source, e);
  }

  /** Validation leaves no offered option without an edge, and no question without an exit. */
  lemma ValidIsCovered(g: Graph, n: Node)
    requires ValidateGraph(g).None? && ConclusionIds(g) != {}
    requires n in g.nodes && n.Question?
    ensures Covered(g, n)
  {
    hide EntryError, ContentError, EdgeError, ConclusionRulesError, QuestionsError, ConditionError;
    NoQuestionsError(g, g.nodes);
    var out := OutgoingEdges(g, n.id);
    NoConditionError(n.options, n.id, out);
    forall o | o in n.options
      ensures (exists e :: e in out && HasCondition(e) && Strip(e.condition.value) == o) || (exists e :: e in out && !IsConditional(e))
    {
      if !(exists e :: e in out && !IsConditional(e)) {
        assert o in Conditions(out);
      }
    }
  }

  lemma ValidHasEntry(g: Graph)
    requires ValidateGraph(g).None?
    ensures EntryError(g).None?
  {
  }

  /** A validated graph has one entry, and it is a question. */
  lemma ValidEntry(g: Graph)
    requires ValidateGraph(g).None?
    ensures EntryNodeId(g).Some? && EntryNodeId(g).value in NodeIds(g) && EntryNodeId(g).value !in ConclusionIds(g)
    ensures forall id :: id in NodeIds(g) && IncomingEdges(g, id) == [] ==> id == EntryNodeId(g).value
  {
    hide ValidateGraph;
    ValidHasEntry(g);
    var entries := EntryNodes(g, g.nodes);
    EntryNodesExactly(g, g.nodes, entries[0]);
    forall id | id in NodeIds(g) && IncomingEdges(g, id) == []
      ensures id == entries[0].id
    {
      var i :| 0 <= i < |g.nodes| && g.nodes[i].id == id;
      EntryNodesExactly(g, g.nodes, g.nodes[i]);
    }
  }

  // The rules, stated without an order.

  predicate IsEntry(g: Graph, n: Node) {
    n in g.nodes && IncomingEdges(g, n.id) == []
  }

  ghost predicate OneEntry(g: Graph) {
    exists n :: IsEntry(g, n) && n.Question? && forall other :: IsEntry(g, other) ==> other == n
  }

  predicate ConclusionRules(g: Graph) {
    ConclusionIds(g) != {} ==>
      && CountConclusions(g.nodes) >= 2
      && ConclusionsTerminal(g)
      && forall e :: e in g.edges && e.target in ConclusionIds(g) ==> IsConditional(e)
  }

  predicate QuestionRules(g: Graph, n: Node)
    requires n.Question?
  {
    var out := OutgoingEdges(g, n.id);
    var hasDefault := exists e :: e in out && !IsConditional(e);
    if out == [] then ConclusionIds(g) == {}
    else
      && n.options != []
      && (forall e :: e in out && IsConditional(e) ==> !ProhibitedIn(Strip(e.condition.value)) && Strip(e.condition.value) in n.options)
      && (if n.required then hasDefault || Conditions(out) == (set o | o in n.options)
          else hasDefault && Conditions(out) == (set o | o in n.options))
  }

  ghost predicate MeetsRules(g: Graph) {
    && g.nodes != [] && g.title != ""
    && UniqueIds(g) && EdgesJoinNodes(g)
    && (forall n :: n in g.nodes ==> HasContent(n))
    && OneEntry(g)
    && ConclusionRules(g)
    && (exists n :: n in g.nodes && OutgoingEdges(g, n.id) == [])
    && (forall n :: n in g.nodes && n.Question? ==> QuestionRules(g, n))
  }

  lemma {:induction false} EntryNodesDistinct(g: Graph, nodes: seq<Node>)
    requires forall i, j :: 0 <= i < j < |nodes| ==> nodes[i].id != nodes[j].id
    ensures forall i, j :: 0 <= i < j < |EntryNodes(g, nodes)| ==> EntryNodes(g, nodes)[i].id != EntryNodes(g, nodes)[j].id
  {
    if nodes != [] {
      EntryNodesDistinct(g, nodes[1..]);
      var rest := EntryNodes(g, nodes[1..]);
      forall j | 0 <= j < |rest| ensures rest[j].id != nodes[0].id {
        EntryNodesExactly(g, nodes[1..], rest[j]);
      }
    }
  }

  lemma EntryRule(g: Graph)
    requires UniqueIds(g)
    ensures EntryError(g).None? <==> OneEntry(g)
  {
    hide EntryNodes, IncomingEdges;
    var entries := EntryNodes(g, g.nodes);
    EntryNodesDistinct(g, g.nodes);
    forall n ensures n in entries <==> IsEntry(g, n) {
      EntryNodesExactly(g, g.nodes, n);
    }
    if entries != [] {
      ConclusionById(g, entries[0].id);
      assert entries[0] in entries;
    }
    if |entries| > 1 {
      assert entries[0] in entries && entries[1] in entries;
    }
  }

  lemma ConclusionRule(g: Graph)
    ensures ConclusionRulesError(g).None? <==> ConclusionRules(g)
  {
    hide CountConclusions, ConclusionIds, OutgoingEdges, ConclusionEdgesError, DefaultToConclusionError;
    SomeConclusion(g.nodes);
    NoConclusionEdgesError(g, g.nodes);
    NoDefaultToConclusionError(g, g.edges);
    assert CountConclusions(g.nodes) == 0 <==> ConclusionIds(g) == {} by {
      forall n | n in g.nodes && n.Conclusion? ensures n.id in ConclusionIds(g) {
        ConclusionById(g, n.id);
      }
      forall id | id in ConclusionIds(g) ensures exists n :: n in g.nodes && n.Conclusion? {
        ConclusionById(g, id);
      }
    }
    TerminalRule(g);
  }

  lemma TerminalRule(g: Graph)
    ensures (forall n :: n in g.nodes && n.Conclusion? ==> OutgoingEdges(g, n.id) == []) <==> ConclusionsTerminal(g)
  {
    hide OutgoingEdges, ConclusionIds;
    forall e | e in g.edges
      ensures e.source in ConclusionIds(g) <==> exists n :: n in g.nodes && n.Conclusion? && n.id == e.source
      ensures OutgoingEdges(g, e.source) != []
    {
      ConclusionById(g, e.source);
      SourceHasEdges(g, e);
    }
    forall n | n in g.nodes && n.Conclusion? && OutgoingEdges(g, n.id) != []
      ensures exists e :: e in g.edges && e.source == n.id && e.source in ConclusionIds(g)
    {
      OutgoingAre(g, n.id, OutgoingEdges(g, n.id)[0]);
      ConclusionById(g, n.id);
    }
  }

  lemma OutgoingAre(g: Graph, id: string, e: Edge)
    ensures e in OutgoingEdges(g, id) <==> e in g.edges && e.source == id
  {
    EdgesFromExactly(g.edges, id, e);
  }

  lemma QuestionRule(g: Graph, n: Node)
    requires n.Question?
    ensures QuestionError(g, n).None? <==> QuestionRules(g, n)
  {
    hide OutgoingEdges, ConclusionIds, Conditions, ConditionError;
    NoConditionError(n.options, n.id, OutgoingEdges(g, n.id));
  }

  /** Strict validation accepts exactly the graphs that meet every rule. */
  lemma ValidIffRules(g: Graph)
    ensures ValidateGraph(g).None? <==> MeetsRules(g)
  {
    hide EntryError, ConclusionRulesError, QuestionsError, EdgeError, ContentError, OutgoingEdges, QuestionError, QuestionRules,
      OneEntry, ConclusionRules, HasContent;
    DistinctIds(g.nodes, NodeIds(g));
    NoEdgeError(NodeIds(g), g.edges);
    NoContentError(g.nodes);
    if UniqueIds(g) {
      EntryRule(g);
    }
    ConclusionRule(g);
    NoQuestionsError(g, g.nodes);
    forall n | n in g.nodes && n.Question? ensures QuestionError(g, n).None? <==> QuestionRules(g, n) {
      QuestionRule(g, n);
    }
  }

  // What a refusal reports.

  predicate EdgeReport(g: Graph, edges: seq<Edge>, r: GraphError) {
    match r
    case UnknownSource(id) => id !in NodeIds(g) && exists e :: e in edges && e.source == id
    case UnknownTarget(id) => id !in NodeIds(g) && exists e :: e in edges && e.target == id
    case DefaultToConclusion(id) => id in ConclusionIds(g) && exists e :: e in edges && e.target == id && !IsConditional(e)
    case _ => false
  }

  /** The rule that a question breaks. */
  predicate QuestionReport(g: Graph, n: Node, r: GraphError)
    requires n.Question?
  {
    var out := OutgoingEdges(g, n.id);
    var hasDefault := exists e :: e in out && !IsConditional(e);
    var covered := Conditions(out) == set o | o in n.options;
    match r
    case QuestionWithoutEdges(id) => id == n.id && out == [] && ConclusionIds(g) != {}
    case NoOptions(id) => id == n.id && out != [] && n.options == []
    case PartialCoverage(id) => id == n.id && n.required && !hasDefault && !covered
    case OptionalCoverage(id) => id == n.id && !n.required && !covered
    case OptionalWithoutDefault(id) => id == n.id && !n.required && !hasDefault
    case ConditionNotLiteral(id) => id == n.id && exists e :: e in out && IsConditional(e) && ProhibitedIn(Strip(e.condition.value))
    case ConditionNotOption(id) => id == n.id && exists e :: e in out && IsConditional(e) && Strip(e.condition.value) !in n.options
    case _ => false
  }

  predicate NodeReport(g: Graph, n: Node, r: GraphError) {
    match r
    case MissingText(id) => n.id == id && n.Question? && n.text == ""
    case MissingTitle(id) => n.id == id && n.Conclusion? && n.title == ""
    case MissingSummary(id) => n.id == id && n.Conclusion? && n.summary == ""
    case ConclusionHasEdges(id) => n.id == id && n.Conclusion? && OutgoingEdges(g, id) != []
    case _ => n.Question? && QuestionReport(g, n, r)
  }

  /** What a report says of the graph, whichever rule was reached first. */
  ghost predicate Report(g: Graph, r: GraphError) {
    match r
    case NoNodes => g.nodes == []
    case DuplicateIds => !UniqueIds(g)
    case NoEntry => forall n :: n in g.nodes ==> !IsEntry(g, n)
    case SeveralEntries => exists n, m :: IsEntry(g, n) && IsEntry(g, m) && n != m
    case EntryIsConclusion => exists n :: IsEntry(g, n) && n.id in ConclusionIds(g)
    case OneConclusion => CountConclusions(g.nodes) == 1
    case NoTerminal => forall n :: n in g.nodes ==> OutgoingEdges(g, n.id) != []
    case NoGraphTitle => g.title == ""
    case _ => EdgeReport(g, g.edges, r) || exists n :: n in g.nodes && NodeReport(g, n, r)
  }

  lemma {:induction false} EdgeErrorsHold(g: Graph, edges: seq<Edge>)
    ensures EdgeError(NodeIds(g), edges).Some? ==> EdgeReport(g, edges, EdgeError(NodeIds(g), edges).value)
    ensures DefaultToConclusionError(g, edges).Some? ==> EdgeReport(g, edges, DefaultToConclusionError(g, edges).value)
  {
    if edges != [] {
      assert edges[0] in edges;
      EdgeErrorsHold(g, edges[1..]);
    }
  }

  lemma {:induction false} ConditionErrorHolds(options: seq<string>, id: string, edges: seq<Edge>)
    ensures var r := ConditionError(options, id, edges);
      r.Some? ==>
        || (r.value == ConditionNotLiteral(id) && exists e :: e in edges && IsConditional(e) && ProhibitedIn(Strip(e.condition.value)))
        || (r.value == ConditionNotOption(id) && exists e :: e in edges && IsConditional(e) && Strip(e.condition.value) !in options)
  {
    if edges != [] {
      assert edges[0] in edges;
      ConditionErrorHolds(options, id, edges[1..]);
    }
  }

  lemma QuestionErrorHolds(g: Graph, n: Node)
    requires n.Question? && QuestionError(g, n).Some?
    ensures QuestionReport(g, n, QuestionError(g, n).value)
  {
    hide OutgoingEdges, ConclusionIds, Conditions, ConditionError, ProhibitedIn;
    ConditionErrorHolds(n.options, n.id, OutgoingEdges(g, n.id));
  }

  lemma {:induction false} NodeErrorsHold(g: Graph, nodes: seq<Node>)
    ensures ContentError(nodes).Some? ==> exists n :: n in nodes && NodeReport(g, n, ContentError(nodes).value)
    ensures ConclusionEdgesError(g, nodes).Some? ==> exists n :: n in nodes && NodeReport(g, n, ConclusionEdgesError(g, nodes).value)
    ensures QuestionsError(g, nodes).Some? ==> exists n :: n in nodes && NodeReport(g, n, QuestionsError(g, nodes).value)
  {
    hide OutgoingEdges, QuestionError, QuestionReport;
    if nodes != [] {
      assert nodes[0] in nodes;
      NodeErrorsHold(g, nodes[1..]);
      if nodes[0].Question? && QuestionError(g, nodes[0]).Some? {
        QuestionErrorHolds(g, nodes[0]);
        QuestionReportIsNodeReport(g, nodes[0], QuestionError(g, nodes[0]).value);
      }
    }
  }

  lemma QuestionReportIsNodeReport(g: Graph, n: Node, r: GraphError)
    requires n.Question? && QuestionReport(g, n, r)
    ensures NodeReport(g, n, r)
  {
  }

  lemma EntryErrorHolds(g: Graph)
    requires UniqueIds(g) && EntryError(g).Some?
    ensures Report(g, EntryError(g).value)
  {
    hide EntryNodes, IncomingEdges;
    var entries := EntryNodes(g, g.nodes);
    EntryNodesDistinct(g, g.nodes);
    forall n ensures n in entries <==> IsEntry(g, n) {
      EntryNodesExactly(g, g.nodes, n);
    }
    if entries != [] {
      assert entries[0] in entries;
    }
    if |entries| > 1 {
      assert entries[1] in entries && entries[0].id != entries[1].id;
    }
  }

  lemma PartsReport(g: Graph, r: GraphError)
    requires EdgeReport(g, g.edges, r) || exists n :: n in g.nodes && NodeReport(g, n, r)
    ensures Report(g, r)
  {
    hide OutgoingEdges, ConclusionIds;
  }

  /** What a refusal reports is true of the graph; an empty graph is reported as such. */
  lemma RefusalIsTrue(g: Graph)
    requires ValidateGraph(g).Some?
    ensures Report(g, ValidateGraph(g).value)
    ensures g.nodes == [] ==> ValidateGraph(g).value == NoNodes
  {
    hide EntryError, QuestionsError, EdgeError, ContentError, ConclusionEdgesError, DefaultToConclusionError, OutgoingEdges, CountConclusions,
      NodeReport, EdgeReport, IsEntry;
    DistinctIds(g.nodes, NodeIds(g));
    EdgeErrorsHold(g, g.edges);
    NodeErrorsHold(g, g.nodes);
    var r := ValidateGraph(g).value;
    if EdgeReport(g, g.edges, r) || exists n :: n in g.nodes && NodeReport(g, n, r) {
      PartsReport(g, r);
    } else if UniqueIds(g) && EntryError(g).Some? {
      EntryErrorHolds(g);
    }
  }

  /** The characters that no condition may contain are the control characters below the space. */
  lemma ProhibitedExactly(s: string)
    ensures ProhibitedIn(s) <==> exists c :: c in s && c < ' '
  {
    if i :| 0 <= i < |s| && s[i] as int <= 0x1f {
      assert s[i] in s && s[i] < ' ';
    }
    if c :| c in s && c < ' ' {
      var i :| 0 <= i < |s| && s[i] == c;
      assert s[i] as int <= 0x1f;
    }
  }
}
