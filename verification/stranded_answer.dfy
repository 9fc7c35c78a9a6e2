/** Graphs that pass validation and still strand their runner at an offered answer. */
module StrandedAnswer {
  import opened Results
  import opened Text
  import opened DecisionGraph
  import opened Questionnaire
  import opened AnswerPath

  /** The ids and labels of a small graph; `white` labels the edge meant as the default one. */
  datatype Names = Names(q: string, p: string, x: string, y: string, a: string, b: string, white: string)

  predicate Distinct(m: Names) {
    && |{m.q, m.p, m.x, m.y}| == 4
    && m.a != m.b && m.a != "" && m.b != "" && Strip(m.a) == m.a && Strip(m.b) == m.b
    && !ProhibitedIn(m.a) && !ProhibitedIn(m.b)
    && m.white != "" && Blank(m.white)
  }

  function Example(m: Names): Graph {
    Graph([Question(m.q, "Q", [m.a, m.b], true), Question(m.p, "P", [m.a, m.b], true), Conclusion(m.x, "X", "X"), Conclusion(m.y, "Y", "Y")],
          [Edge(m.q, m.x, Some(m.a)), Edge(m.q, m.p, Some(m.white)), Edge(m.p, m.x, Some(m.a)), Edge(m.p, m.y, Some(m.b))],
          "T")
  }

  lemma EdgesOf(edges: seq<Edge>, e: Edge, id: string)
    ensures EdgesFrom(edges + [e], id) == EdgesFrom(edges, id) + (if e.source == id then [e] else [])
    ensures EdgesInto(edges + [e], id) == EdgesInto(edges, id) + (if e.target == id then [e] else [])
  {
  }

  lemma FourEdges(e0: Edge, e1: Edge, e2: Edge, e3: Edge, id: string)
    ensures var out := EdgesFrom([e0, e1, e2, e3], id);
      out == (if e0.source == id then [e0] else []) + (if e1.source == id then [e1] else [])
             + (if e2.source == id then [e2] else []) + (if e3.source == id then [e3] else [])
    ensures var into := EdgesInto([e0, e1, e2, e3], id);
      into == (if e0.target == id then [e0] else []) + (if e1.target == id then [e1] else [])
              + (if e2.target == id then [e2] else []) + (if e3.target == id then [e3] else [])
  {
    hide EdgesFrom, EdgesInto;
    assert EdgesFrom([], id) == [] && EdgesInto([], id) == [] by {
      EdgesFromNone(id);
    }
    EdgesOf([], e0, id);
    EdgesOf([e0], e1, id);
    EdgesOf([e0, e1], e2, id);
    EdgesOf([e0, e1, e2], e3, id);
    assert [] + [e0] == [e0] && [e0] + [e1] == [e0, e1] && [e0, e1] + [e2] == [e0, e1, e2];
    assert [e0, e1, e2] + [e3] == [e0, e1, e2, e3];
  }

  lemma EdgesFromNone(id: string)
    ensures EdgesFrom([], id) == [] && EdgesInto([], id) == []
  {
  }

  lemma ExampleEdges(m: Names)
    requires Distinct(m)
    ensures var g := Example(m);
      && OutgoingEdges(g, m.q) == [g.edges[0], g.edges[1]] && OutgoingEdges(g, m.p) == [g.edges[2], g.edges[3]]
      && OutgoingEdges(g, m.x) == [] && OutgoingEdges(g, m.y) == []
      && IncomingEdges(g, m.q) == [] && IncomingEdges(g, m.p) != [] && IncomingEdges(g, m.x) != [] && IncomingEdges(g, m.y) != []
  {
    hide EdgesFrom, EdgesInto, Strip, ProhibitedIn;
    var e := Example(m).edges;
    assert e == [e[0], e[1], e[2], e[3]];
    FourEdges(e[0], e[1], e[2], e[3], m.q);
    FourEdges(e[0], e[1], e[2], e[3], m.p);
    FourEdges(e[0], e[1], e[2], e[3], m.x);
    FourEdges(e[0], e[1], e[2], e[3], m.y);
  }

  lemma ExampleIds(m: Names)
    requires Distinct(m)
    ensures NodeIds(Example(m)) == {m.q, m.p, m.x, m.y} && ConclusionIds(Example(m)) == {m.x, m.y}
  {
    hide Strip, ProhibitedIn;
    var n := Example(m).nodes;
    assert n[0].id == m.q && n[1].id == m.p && n[2].id == m.x && n[3].id == m.y;
  }

  lemma ExampleQuestion(m: Names, n: Node)
    requires Distinct(m) && n in Example(m).nodes && n.Question?
    ensures QuestionRules(Example(m), n)
  {
    hide Strip, ProhibitedIn, OutgoingEdges, ConclusionIds;
    ExampleEdges(m);
    var out := OutgoingEdges(Example(m), n.id);
    assert out[0] in out && out[1] in out;
    if n.id == m.p {
      assert n.options[0] == m.a && n.options[1] == m.b;
      assert Conditions(out) == {m.a, m.b};
      assert (set o | o in n.options) == {m.a, m.b};
    }
  }

  lemma ExampleConclusions(m: Names)
    requires Distinct(m)
    ensures ConclusionRules(Example(m))
  {
    hide Strip, ProhibitedIn, ConclusionIds, CountConclusions;
    ExampleIds(m);
    ExampleCount(m);
  }

  lemma ExampleCount(m: Names)
    ensures CountConclusions(Example(m).nodes) == 2
  {
    var n := Example(m).nodes;
    assert n[1..][1..] == n[2..] && n[2..][1..] == n[3..] && n[3..][1..] == [];
    assert CountConclusions(n[3..]) == 1 && CountConclusions(n[2..]) == 2;
  }

  lemma ExampleIsValid(m: Names)
    requires Distinct(m)
    ensures ValidateGraph(Example(m)).None? && EntryNodeId(Example(m)) == Some(m.q)
  {
    hide ValidateGraph, ConclusionRules, QuestionRules, OutgoingEdges, IncomingEdges, NodeIds, Strip, ProhibitedIn, EntryNodes;
    var g := Example(m);
    ExampleIds(m);
    ExampleConclusions(m);
    ExampleEdges(m);
    assert g.nodes[0] in g.nodes && g.nodes[2] in g.nodes;
    assert IsEntry(g, g.nodes[0]);
    forall n | n in g.nodes && n.Question? ensures QuestionRules(g, n) {
      ExampleQuestion(m, n);
    }
    ValidIffRules(g);
    ValidEntry(g);
  }

  lemma AnswerIsStranded(m: Names, fold: Fold)
    requires Distinct(m) && fold(m.a) != fold(m.b) && fold("") != fold(m.b)
    ensures var g := Example(m);
      && Stranded(g, fold, m.q, m.b) && OutgoingEdges(g, m.q) != []
      && MatchedEdge(fold, OutgoingEdges(g, m.q), m.b).None? && UnconditionedEdge(OutgoingEdges(g, m.q)).None?
  {
    hide Strip, ProhibitedIn, OutgoingEdges, First;
    ExampleEdges(m);
    var out := OutgoingEdges(Example(m), m.q);
    assert out[0] in out && out[1] in out;
    FirstFinds(out, e => HasCondition(e) && SameLabel(fold, e.condition.value, m.b));
    FirstFinds(out, e => !HasCondition(e));
  }

  /** Validation accepts the graph and "b" is an option it offers at the entry, yet "next" stays there. */
  lemma ValidGraphStrandsAnswer(m: Names, fold: Fold, s: Session, now: int)
    requires Distinct(m) && fold(m.a) != fold(m.b) && fold("") != fold(m.b)
    requires s.currentNodeId == Some(m.q) && AnswerOf(s.responses, m.q) == Some(m.b)
    ensures var g := Example(m);
      && ValidateGraph(g).None? && EntryNodeId(g) == Some(m.q) && m.b in g.nodes[0].options
      && Stranded(g, fold, m.q, m.b)
      && Navigate(g, fold, s, Next, now) == s
  {
    hide ValidateGraph, OutgoingEdges, ConclusionIds, NodeIds, EntryNodeId, GetNode, AnswerOf, MatchedEdge, UnconditionedEdge,
      IncomingEdges, Reachable, Distinct;
    var g := Example(m);
    ExampleIsValid(m);
    ExampleIds(m);
    AnswerIsStranded(m, fold);
    ValidIsWellFormed(g);
    NodeLookup(g, m.q);
    EntryIsNoConclusion(m);
  }

  lemma EntryIsNoConclusion(m: Names)
    requires Distinct(m)
    ensures m.q !in {m.x, m.y}
  {
  }

  /** One such graph. */
  lemma SuchNamesExist()
    ensures Distinct(Names("q", "p", "x", "y", "a", "b", " "))
  {
  }
}
