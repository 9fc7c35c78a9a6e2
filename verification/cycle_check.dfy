/** The depth-first search for cycles, with an explicit stack of half-read neighbour lists. */
module CycleCheck {
  import opened Collections
  import opened Results
  import opened DecisionGraph
  import AnswerPath
  import Questionnaire

  function Targets(edges: seq<Edge>): seq<string> {
    if edges == [] then [] else Targets(edges[..|edges| - 1]) + [edges[|edges| - 1].target]
  }

  function Successors(g: Graph, id: string): seq<string> {
    Targets(OutgoingEdges(g, id))
  }

  function Endpoints(g: Graph): set<string> {
    NodeIds(g) + (set e | e in g.edges :: e.source) + (set e | e in g.edges :: e.target)
  }

  // Cycles and orderings.

  predicate IsWalk(g: Graph, path: seq<string>) {
    forall i, j :: 0 <= i < j < |path| && j <= i + 1 ==> Joined(g, path[i], path[j])
  }

  predicate IsCycle(g: Graph, path: seq<string>) {
    |path| >= 2 && path[0] == path[|path| - 1] && IsWalk(g, path)
  }

  /** Every successor of an element stands before it. */
  predicate IsOrder(g: Graph, order: seq<string>) {
    forall k, t :: 0 <= k < |order| && t in Successors(g, order[k]) ==> t in order[..k]
  }

  lemma {:induction false} TargetsExactly(edges: seq<Edge>, t: string)
    ensures t in Targets(edges) <==> exists e :: e in edges && e.target == t
  {
    if edges != [] {
      TargetsExactly(edges[..|edges| - 1], t);
    }
  }

  lemma SuccessorsExactly(g: Graph, id: string, t: string)
    ensures t in Successors(g, id) <==> Joined(g, id, t)
  {
    TargetsExactly(OutgoingEdges(g, id), t);
    if e :| e in g.edges && e.source == id && e.target == t {
      EdgesFromExactly(g.edges, id, e);
    }
    if e :| e in OutgoingEdges(g, id) && e.target == t {
      EdgesFromExactly(g.edges, id, e);
    }
  }

  /** The place of an element in an ordering: one more than the index of its first occurrence. */
  function Place(order: seq<string>, id: string): (p: nat)
    ensures id in order ==> 0 < p <= |order| && order[p - 1] == id && id !in order[..p - 1]
    ensures forall k :: 0 <= k <= |order| && id in order[..k] ==> p <= k
  {
    if order == [] then 0
    else if order[0] == id then 1
    else
      var rest := Place(order[1..], id);
      assert forall k :: 0 < k <= |order| ==> order[..k] == [order[0]] + order[1..][..k - 1];
      if id in order[1..] then rest + 1 else 0
  }

  lemma OrderRanks(g: Graph, order: seq<string>, id: string, t: string)
    requires IsOrder(g, order) && id in order && Joined(g, id, t)
    ensures t in order && Place(order, t) < Place(order, id)
  {
    SuccessorsExactly(g, id, t);
    var k := Place(order, id) - 1;
    assert t in order[..k];
  }

  /** From an ordered element no walk leads back to it. */
  lemma {:induction false} WalksDescend(g: Graph, order: seq<string>, path: seq<string>)
    requires IsOrder(g, order) && IsWalk(g, path) && path != [] && path[0] in order
    ensures path[|path| - 1] in order
    ensures |path| >= 2 ==> Place(order, path[|path| - 1]) < Place(order, path[0])
  {
    if |path| >= 2 {
      var before := path[..|path| - 1];
      WalksDescend(g, order, before);
      assert Joined(g, path[|path| - 2], path[|path| - 1]);
      OrderRanks(g, order, path[|path| - 2], path[|path| - 1]);
    }
  }

  lemma OrderedIsAcyclic(g: Graph, order: seq<string>, path: seq<string>)
    requires IsOrder(g, order) && path != [] && path[0] in order
    ensures !IsCycle(g, path)
  {
    if IsCycle(g, path) {
      WalksDescend(g, order, path);
    }
  }

  // The search.

  datatype Frame = Frame(node: string, read: nat)

  function Neighbors(adjacency: map<string, seq<string>>, id: string): seq<string> {
    if id in adjacency then adjacency[id] else []
  }

  lemma TargetsSnoc(edges: seq<Edge>, k: nat, id: string)
    requires k < |edges|
    ensures Targets(EdgesFrom(edges[..k + 1], id))
      == Targets(EdgesFrom(edges[..k], id)) + (if edges[k].source == id then [edges[k].target] else [])
  {
    assert edges[..k + 1][..k] == edges[..k];
    var before := EdgesFrom(edges[..k], id);
    assert (before + [edges[k]])[..|before|] == before;
    assert before + [] == before;
  }

  method BuildAdjacency(g: Graph) returns (adjacency: map<string, seq<string>>)
    ensures forall id :: Neighbors(adjacency, id) == Successors(g, id)
  {
    hide Targets, EdgesFrom;
    adjacency := map id | id in NodeIds(g) :: [];
    forall id ensures Targets(EdgesFrom(g.edges[..0], id)) == [] {
      NoTargets(id);
      assert g.edges[..0] == [];
    }
    for k := 0 to |g.edges|
      invariant forall id :: Neighbors(adjacency, id) == Targets(EdgesFrom(g.edges[..k], id))
    {
      var e := g.edges[k];
      var longer := Neighbors(adjacency, e.source) + [e.target];
      var updated := adjacency[e.source := longer];
      forall id ensures Neighbors(updated, id) == Targets(EdgesFrom(g.edges[..k + 1], id)) {
        assert Neighbors(adjacency, id) == Targets(EdgesFrom(g.edges[..k], id));
        TargetsSnoc(g.edges, k, id);
        assert Neighbors(adjacency, id) + [] == Neighbors(adjacency, id);
      }
      adjacency := updated;
    }
    assert g.edges[..|g.edges|] == g.edges;
  }

  lemma NoTargets(id: string)
    ensures Targets(EdgesFrom([], id)) == []
  {
  }

  predicate HasParent(parent: map<string, string>, id: string, above: string) {
    id in parent && parent[id] == above
  }

  /** Each frame is the parent of the frame above it. */
  predicate Linked(g: Graph, stack: seq<Frame>, parent: map<string, string>) {
    forall i, j :: 0 <= i < j < |stack| && j <= i + 1 ==>
      Joined(g, stack[i].node, stack[j].node) && HasParent(parent, stack[j].node, stack[i].node)
  }

  predicate Above(stack: seq<Frame>, k: nat, t: string) {
    k + 1 < |stack| && stack[k + 1].node == t
  }

  /** The neighbours a frame has read are finished, but for the frame above it. */
  predicate ReadDone(g: Graph, stack: seq<Frame>, order: seq<string>) {
    && (forall k :: 0 <= k < |stack| ==> stack[k].read <= |Successors(g, stack[k].node)|)
    && (forall k, j :: 0 <= k < |stack| && 0 <= j < stack[k].read ==>
          Successors(g, stack[k].node)[j] in order || Above(stack, k, Successors(g, stack[k].node)[j]))
  }

  predicate StackOk(g: Graph, stack: seq<Frame>, parent: map<string, string>, order: seq<string>) {
    && (forall i, j :: 0 <= i < j < |stack| ==> stack[i].node != stack[j].node)
    && Linked(g, stack, parent)
    && ReadDone(g, stack, order)
  }

  function StackNodes(stack: seq<Frame>): set<string> {
    set k | 0 <= k < |stack| :: stack[k].node
  }

  /** A chain of nodes from the repeated one to the one that leads back to it, as `parent` records it. */
  predicate IsLoop(g: Graph, loop: seq<string>, parent: map<string, string>) {
    && loop != [] && IsWalk(g, loop) && Joined(g, loop[|loop| - 1], loop[0])
    && (forall i, j :: 0 <= i < j < |loop| ==> loop[i] != loop[j])
    && HasParent(parent, loop[0], loop[|loop| - 1])
    && forall i, j :: 0 <= i < j < |loop| && j <= i + 1 ==> HasParent(parent, loop[j], loop[i])
  }

  function Advance(stack: seq<Frame>): (advanced: seq<Frame>)
    requires stack != []
    ensures |advanced| == |stack| && forall k :: 0 <= k < |stack| ==> advanced[k].node == stack[k].node
    ensures StackNodes(advanced) == StackNodes(stack)
  {
    var top := stack[|stack| - 1];
    stack[|stack| - 1 := top.(read := top.read + 1)]
  }

  lemma AdvanceKeepsStack(g: Graph, stack: seq<Frame>, parent: map<string, string>, order: seq<string>)
    requires StackOk(g, stack, parent, order) && stack != []
    requires var top := stack[|stack| - 1]; top.read < |Successors(g, top.node)| && Successors(g, top.node)[top.read] in order
    ensures StackOk(g, Advance(stack), parent, order)
  {
  }

  lemma PushKeepsStack(g: Graph, stack: seq<Frame>, parent: map<string, string>, order: seq<string>, t: string)
    requires StackOk(g, stack, parent, order) && stack != [] && t !in StackNodes(stack)
    requires var top := stack[|stack| - 1]; top.read < |Successors(g, top.node)| && t == Successors(g, top.node)[top.read]
    ensures StackOk(g, Advance(stack) + [Frame(t, 0)], parent[t := stack[|stack| - 1].node], order)
    ensures StackNodes(Advance(stack) + [Frame(t, 0)]) == StackNodes(stack) + {t}
  {
    hide Successors, Joined;
    var n, top := |stack|, stack[|stack| - 1];
    SuccessorsExactly(g, top.node, t);
    var pushed, parent' := Advance(stack) + [Frame(t, 0)], parent[t := top.node];
    forall k | 0 <= k < n ensures pushed[k].node == stack[k].node && stack[k].node != t {
      assert stack[k].node in StackNodes(stack);
    }
    forall i, j | 0 <= i < j < |pushed|
      ensures pushed[i].node != pushed[j].node
      ensures j <= i + 1 ==> Joined(g, pushed[i].node, pushed[j].node) && HasParent(parent', pushed[j].node, pushed[i].node)
    {
      if j < n {
        assert pushed[i].node == stack[i].node && pushed[j].node == stack[j].node;
      }
    }
    assert pushed[n].node == t;
    assert StackNodes(pushed) == StackNodes(stack) + {t};
    forall k | 0 <= k < |pushed| ensures pushed[k].read <= |Successors(g, pushed[k].node)| {
      if k < n {
        assert stack[k].read <= |Successors(g, stack[k].node)|;
      }
    }
    forall k, j | 0 <= k < |pushed| && 0 <= j < pushed[k].read
      ensures Successors(g, pushed[k].node)[j] in order || Above(pushed, k, Successors(g, pushed[k].node)[j])
    {
      if k < n - 1 || j < top.read {
        assert j < stack[k].read;
        assert Successors(g, stack[k].node)[j] in order || Above(stack, k, Successors(g, stack[k].node)[j]);
      }
    }
  }

  lemma TopIsDone(g: Graph, stack: seq<Frame>, order: seq<string>, j: nat)
    requires ReadDone(g, stack, order) && stack != [] && j < stack[|stack| - 1].read
    ensures j < |Successors(g, stack[|stack| - 1].node)| && Successors(g, stack[|stack| - 1].node)[j] in order
  {
  }

  lemma PopKeepsStack(g: Graph, stack: seq<Frame>, parent: map<string, string>, order: seq<string>)
    requires StackOk(g, stack, parent, order) && stack != [] && IsOrder(g, order)
    requires stack[|stack| - 1].read == |Successors(g, stack[|stack| - 1].node)|
    ensures StackOk(g, stack[..|stack| - 1], parent, order + [stack[|stack| - 1].node])
    ensures IsOrder(g, order + [stack[|stack| - 1].node])
    ensures StackNodes(stack[..|stack| - 1]) == StackNodes(stack) - {stack[|stack| - 1].node}
    ensures stack[|stack| - 1].node in StackNodes(stack)
  {
    hide Successors, Joined;
    var n, top := |stack|, stack[|stack| - 1];
    var longer := order + [top.node];
    forall k, t | 0 <= k < |longer| && t in Successors(g, longer[k]) ensures t in longer[..k] {
      assert longer[..k] == order[..k];
      if k == |order| {
        var j :| 0 <= j < |Successors(g, top.node)| && Successors(g, top.node)[j] == t;
        TopIsDone(g, stack, order, j);
      }
    }
    var rest := stack[..n - 1];
    forall k | 0 <= k < |rest| ensures rest[k].read <= |Successors(g, rest[k].node)| {
      assert stack[k].read <= |Successors(g, stack[k].node)|;
    }
    forall k, j | 0 <= k < |rest| && 0 <= j < rest[k].read
      ensures Successors(g, rest[k].node)[j] in longer || Above(rest, k, Successors(g, rest[k].node)[j])
    {
      var u := Successors(g, stack[k].node)[j];
      assert u in order || Above(stack, k, u);
      assert longer[|order|] == top.node;
    }
  }

  lemma LoopOnStack(g: Graph, stack: seq<Frame>, parent: map<string, string>, order: seq<string>, t: string) returns (loop: seq<string>)
    requires StackOk(g, stack, parent, order) && t in StackNodes(stack) && Joined(g, stack[|stack| - 1].node, t)
    ensures IsLoop(g, loop, parent[t := stack[|stack| - 1].node]) && loop[0] == t
  {
    hide Successors, Joined;
    var i :| 0 <= i < |stack| && stack[i].node == t;
    var parent' := parent[t := stack[|stack| - 1].node];
    loop := seq(|stack| - i, k requires 0 <= k < |stack| - i => stack[i + k].node);
    forall a, b | 0 <= a < b < |loop| ensures loop[a] != loop[b] {
      assert stack[i + a].node != stack[i + b].node;
    }
    forall a, b | 0 <= a < b < |loop| && b <= a + 1
      ensures Joined(g, loop[a], loop[b]) && HasParent(parent', loop[b], loop[a])
    {
      assert loop[0] != loop[b];
      LinkedAt(g, stack, parent, i + a);
    }
    assert loop[|loop| - 1] == stack[|stack| - 1].node && loop[0] == t;
    assert IsWalk(g, loop);
    assert forall i, j :: 0 <= i < j < |loop| && j <= i + 1 ==> HasParent(parent', loop[j], loop[i]);
    assert Joined(g, loop[|loop| - 1], loop[0]);
    assert HasParent(parent', loop[0], loop[|loop| - 1]);
  }

  lemma LinkedAt(g: Graph, stack: seq<Frame>, parent: map<string, string>, k: nat)
    requires Linked(g, stack, parent) && k + 1 < |stack|
    ensures Joined(g, stack[k].node, stack[k + 1].node) && HasParent(parent, stack[k + 1].node, stack[k].node)
  {
  }

  lemma TopInRange(g: Graph, stack: seq<Frame>, parent: map<string, string>, order: seq<string>)
    requires StackOk(g, stack, parent, order) && stack != []
    ensures stack[|stack| - 1].read <= |Successors(g, stack[|stack| - 1].node)|
  {
  }

  lemma JoinedEnds(g: Graph, a: string, b: string)
    requires Joined(g, a, b)
    ensures a in Endpoints(g) && b in Endpoints(g)
  {
  }

  lemma OneFrame(g: Graph, id: string, parent: map<string, string>, order: seq<string>)
    ensures StackOk(g, [Frame(id, 0)], parent, order) && StackNodes([Frame(id, 0)]) == {id}
  {
    assert [Frame(id, 0)][0].node == id;
  }

  lemma NoFrames()
    ensures StackNodes([]) == {}
  {
  }

  class CycleSearch {
    var visited: set<string>
    var recStack: set<string>
    var parent: map<string, string>
    ghost var order: seq<string>

    constructor ()
      ensures visited == {} && recStack == {} && parent == map[] && order == []
    {
      visited, recStack, parent, order := {}, {}, map[], [];
    }

    /** Between two searches every visited node is finished. */
    ghost predicate Idle(g: Graph)
      reads this
    {
      recStack == {} && visited == (set x | x in order) && visited <= Endpoints(g) && IsOrder(g, order)
    }

    method Dfs(g: Graph, adjacency: map<string, seq<string>>, start: string) returns (found: Option<string>, ghost loop: seq<string>)
      requires forall id :: Neighbors(adjacency, id) == Successors(g, id)
      requires Idle(g) && start in Endpoints(g) && start !in visited
      modifies this
      ensures found.None? ==> Idle(g) && start in visited && old(visited) <= visited
      ensures found.Some? ==> IsLoop(g, loop, parent) && found.value == loop[0]
    {
      hide Successors, Endpoints, Joined, StackOk, StackNodes, IsOrder, IsLoop;
      visited := visited + {start};
      recStack := recStack + {start};
      var stack := [Frame(start, 0)];
      OneFrame(g, start, parent, order);
      found, loop := None, [];
      while stack != []
        invariant StackOk(g, stack, parent, order) && IsOrder(g, order)
        invariant recStack == StackNodes(stack) && recStack !! (set x | x in order)
        invariant visited == recStack + (set x | x in order) && visited <= Endpoints(g)
        invariant start in visited && old(visited) <= visited
        decreases Endpoints(g) - visited, |stack|, if stack == [] then 0 else |Successors(g, stack[|stack| - 1].node)| - stack[|stack| - 1].read
      {
        var top := stack[|stack| - 1];
        var neighbors := Neighbors(adjacency, top.node);
        TopInRange(g, stack, parent, order);
        if top.read == |neighbors| {
          PopKeepsStack(g, stack, parent, order);
          assert forall x :: x in order + [top.node] <==> x in order || x == top.node;
          order := order + [top.node];
          recStack := recStack - {top.node};
          stack := stack[..|stack| - 1];
          continue;
        }
        var neighbor := neighbors[top.read];
        SuccessorsExactly(g, top.node, neighbor);
        JoinedEnds(g, top.node, neighbor);
        if neighbor !in visited {
          PushKeepsStack(g, stack, parent, order, neighbor);
          parent := parent[neighbor := top.node];
          visited := visited + {neighbor};
          recStack := recStack + {neighbor};
          stack := Advance(stack) + [Frame(neighbor, 0)];
        } else if neighbor in recStack {
          ghost var trail := LoopOnStack(g, stack, parent, order, neighbor);
          parent := parent[neighbor := top.node];
          return Some(neighbor), trail;
        } else {
          AdvanceKeepsStack(g, stack, parent, order);
          stack := Advance(stack);
        }
      }
      NoFrames();
    }
  }

  /** The model's ids are never empty: they match a pattern that starts with a letter. */
  predicate NamedIds(g: Graph) {
    "" !in Endpoints(g)
  }

  /** The reported path closes into a cycle when its last node is also put in front. */
  function Closed(report: seq<string>): seq<string>
    requires |report| >= 2
  {
    [report[|report| - 1]] + report[..|report| - 1]
  }

  /**
   The search reports a path exactly when there is a cycle to report: the report rotated is a cycle
   (as it stands it names its last node twice and does not close, unless that node has an edge to
   itself), and without one the finished nodes form an ordering that no walk can return in.
   */
  method HasCycle(g: Graph) returns (report: Option<seq<string>>, ghost order: seq<string>)
    requires NamedIds(g)
    ensures report.Some? ==> |report.value| >= 2 && IsCycle(g, Closed(report.value))
    ensures report.Some? ==> report.value[|report.value| - 1] == report.value[|report.value| - 2]
    ensures report.Some? && |report.value| > 2 ==> report.value[0] != report.value[|report.value| - 1]
    ensures report.None? ==> IsOrder(g, order) && forall id :: id in NodeIds(g) ==> id in order
    ensures report.None? ==> forall path :: IsCycle(g, path) ==> path[0] !in NodeIds(g)
  {
    hide Successors, Joined, Endpoints, IsOrder;
    order := [];
    if g.nodes == [] {
      assert IsOrder(g, []) by { EmptyOrder(g); }
      return None, [];
    }
    var adjacency := BuildAdjacency(g);
    var search := new CycleSearch();
    EmptyOrder(g);
    for k := 0 to |g.nodes|
      invariant search.Idle(g)
      invariant forall i :: 0 <= i < k ==> g.nodes[i].id in search.visited
    {
      NodesAreEndpoints(g, k);
      if g.nodes[k].id !in search.visited {
        var found, loop := search.Dfs(g, adjacency, g.nodes[k].id);
        if found.Some? {
          LoopIsNamed(g, loop);
          assert found.value in loop;
        }
        if found.Some? && found.value != "" {
          var path := Report(found.value, search.parent, g, loop);
          return Some(path), [];
        }
      }
    }
    order := search.order;
    forall path | IsCycle(g, path) ensures path[0] !in NodeIds(g) {
      if path[0] in NodeIds(g) {
        OrderedIsAcyclic(g, order, path);
      }
    }
    return None, order;
  }

  lemma EmptyOrder(g: Graph)
    ensures IsOrder(g, [])
  {
  }

  lemma NodesAreEndpoints(g: Graph, k: nat)
    requires k < |g.nodes|
    ensures g.nodes[k].id in Endpoints(g)
  {
  }

  lemma LoopIsNamed(g: Graph, loop: seq<string>)
    requires NamedIds(g) && loop != [] && IsWalk(g, loop) && Joined(g, loop[|loop| - 1], loop[0])
    ensures forall x :: x in loop ==> x != ""
  {
    hide Joined, Endpoints;
    JoinedEnds(g, loop[|loop| - 1], loop[0]);
    forall k | 0 < k < |loop| ensures loop[k] in Endpoints(g) {
      JoinedEnds(g, loop[k - 1], loop[k]);
    }
  }

  lemma ReverseLoop(node: string, loop: seq<string>)
    ensures loop != [] ==> Reversed([node] + Reversed(loop[1..])) == loop[1..] + [node]
  {
  }

  lemma LoopCloses(g: Graph, node: string, loop: seq<string>, parent: map<string, string>)
    requires IsLoop(g, loop, parent) && node == loop[0]
    ensures IsCycle(g, Closed(loop[1..] + [node, node]))
  {
  }

  /** Following `parent` back from the repeated node; the loop comes out with that node doubled at the end. */
  method Report(node: string, parent: map<string, string>, g: Graph, ghost loop: seq<string>) returns (path: seq<string>)
    requires IsLoop(g, loop, parent) && node == loop[0] && forall x :: x in loop ==> x != ""
    ensures path == loop[1..] + [node, node]
    ensures |path| >= 2 && IsCycle(g, Closed(path))
    ensures |path| > 2 ==> path[0] != path[|path| - 1]
  {
    hide Joined, IsWalk, IsCycle;
    path := [node];
    var current := if node in parent then Some(parent[node]) else None;
    ghost var m := |loop| - 1;
    while current.Some? && current.value != "" && current.value != node
      invariant 0 <= m < |loop| && current == Some(loop[m])
      invariant path == [node] + Reversed(loop[m + 1..])
      decreases m
    {
      path := path + [current.value];
      assert loop[m..] == [loop[m]] + loop[m + 1..];
      current := if current.value in parent then Some(parent[current.value]) else None;
      m := m - 1;
    }
    ReverseLoop(node, loop);
    assert loop[m] in loop;
    path := Reversed(path) + [node];
    assert path == loop[1..] + [node, node];
    LoopCloses(g, node, loop, parent);
  }

  lemma CyclesStartAtNodes(g: Graph)
    requires EdgesJoinNodes(g)
    ensures forall path :: IsCycle(g, path) ==> path[0] in NodeIds(g)
  {
    forall path | IsCycle(g, path) ensures path[0] in NodeIds(g) {
      assert Joined(g, path[0], path[1]);
    }
  }

  // The ranking that navigation needs exists exactly when there is no cycle.

  lemma OrderGivesRank(g: Graph, order: seq<string>)
    requires EdgesJoinNodes(g) && IsOrder(g, order) && forall id :: id in NodeIds(g) ==> id in order
    ensures exists rank: string -> nat :: AnswerPath.Ranked(g, rank)
  {
    var rank: string -> nat := id => Place(order, id);
    forall e | e in g.edges ensures rank(e.target) < rank(e.source) {
      assert Joined(g, e.source, e.target);
      OrderRanks(g, order, e.source, e.target);
    }
    assert AnswerPath.Ranked(g, rank);
  }

  lemma {:induction false} RankedWalkDescends(g: Graph, rank: string -> nat, path: seq<string>)
    requires AnswerPath.Ranked(g, rank) && IsWalk(g, path) && path != []
    ensures |path| >= 2 ==> rank(path[|path| - 1]) < rank(path[0])
  {
    if |path| >= 2 {
      RankedWalkDescends(g, rank, path[..|path| - 1]);
      assert Joined(g, path[|path| - 2], path[|path| - 1]);
    }
  }

  lemma RankedIsAcyclic(g: Graph, rank: string -> nat, path: seq<string>)
    requires AnswerPath.Ranked(g, rank)
    ensures !IsCycle(g, path)
  {
    if IsCycle(g, path) {
      RankedWalkDescends(g, rank, path);
    }
  }

  /** With every edge between nodes, the search decides exactly whether the graph has a cycle, or else a ranking. */
  method IsCyclic(g: Graph) returns (found: bool)
    requires NamedIds(g) && EdgesJoinNodes(g)
    ensures found <==> exists path :: IsCycle(g, path)
    ensures !found <==> exists rank: string -> nat :: AnswerPath.Ranked(g, rank)
  {
    hide IsWalk, IsOrder, EdgesJoinNodes, AnswerPath.Ranked;
    var report, order := HasCycle(g);
    found := report.Some?;
    if found {
      assert IsCycle(g, Closed(report.value));
      forall rank: string -> nat ensures !AnswerPath.Ranked(g, rank) {
        if AnswerPath.Ranked(g, rank) {
          RankedIsAcyclic(g, rank, Closed(report.value));
        }
      }
    } else {
      CyclesStartAtNodes(g);
      OrderGivesRank(g, order);
    }
  }

  /** The gate before a graph is compiled: two conclusions, strict validation, no cycle. */
  method MeetsAuthoringContract(g: Graph) returns (ok: bool)
    requires NamedIds(g)
    ensures ok <==> CountConclusions(g.nodes) >= 2 && MeetsRules(g) && exists rank: string -> nat :: AnswerPath.Ranked(g, rank)
  {
    hide *;
    if CountConclusions(g.nodes) < 2 {
      return false;
    }
    ValidIffRules(g);
    if ValidateGraph(g).Some? {
      return false;
    }
    RulesJoin(g);
    var cyclic := IsCyclic(g);
    return !cyclic;
  }

  lemma RulesJoin(g: Graph)
    requires MeetsRules(g)
    ensures EdgesJoinNodes(g)
  {
  }

  /**
   What the gate buys: on a graph that passes it, with no white-space condition, any choice of
   offered options leads repeated "next" from the entry to one conclusion within as many steps as
   there are other nodes, and it stays there.
   */
  lemma ContractGraphConcludes(g: Graph, fold: Questionnaire.Fold, s: Questionnaire.Session, now: int) returns (c: string)
    requires CountConclusions(g.nodes) >= 2 && MeetsRules(g) && exists rank: string -> nat :: AnswerPath.Ranked(g, rank)
    requires AnswerPath.NoWhitespaceConditions(g) && AnswerPath.AnswersOffered(g, s.responses) && s.currentNodeId == EntryNodeId(g)
    ensures c in ConclusionIds(g)
    ensures forall m: nat :: m >= |g.nodes| - 1 ==>
      && AnswerPath.RepeatNext(g, fold, s, m, now).currentNodeId == Some(c)
      && AnswerPath.RepeatNext(g, fold, s, m, now).conclusionReached == Some(c)
  {
    hide *;
    var rank: string -> nat :| AnswerPath.Ranked(g, rank);
    ValidIffRules(g);
    HasConclusions(g);
    AnswerPath.NextReachesOneConclusion(g, fold, s, now, rank);
    var entry := EntryNodeId(g).value;
    AnswerPath.FollowEndsPath(g, fold, s.responses, entry, rank);
    c := AnswerPath.Follow(g, fold, s.responses, entry, rank).conclusion;
  }

  lemma HasConclusions(g: Graph)
    requires CountConclusions(g.nodes) > 0
    ensures ConclusionIds(g) != {}
  {
    SomeConclusion(g.nodes);
    var n :| n in g.nodes && n.Conclusion?;
    ConclusionById(g, n.id);
  }
}
