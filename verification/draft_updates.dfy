/**
 What an agent's update does to a draft: it replaces the graph of a row it may edit, and only the graph
 whose hash it expects. The compiler stands beside it as a partial function of graph and corpus.
 */
module DraftUpdates {
  import opened Results
  import opened Text
  import opened DecisionGraph
  import opened ArtifactIdentity
  import opened ArtifactRows

  /** The compiler's output for a graph and a research corpus: everything published but the graph's hash. */
  datatype Compiled = Compiled(
    ir: string,
    compilerVersion: string,
    irFormat: int,
    contract: Option<string>,
    contractHash: Option<string>,
    corpusHash: Option<string>)

  datatype Env = Env(
    digests: Digests,
    compile: (Graph, string) -> Option<Compiled>,
    lower: string -> string,
    readsAsError: string -> bool)

  function ContentFor(env: Env, g: Graph, corpus: string): Option<Content> {
    var compiled := env.compile(g, corpus);
    if compiled.None? then None
    else
      var c := compiled.value;
      Some(Content(c.ir, env.digests.ofGraph(g), c.compilerVersion, c.irFormat, c.contract, c.contractHash, c.corpusHash))
  }

  // Draft updates.

  datatype Request = Request(
    user: nat,
    pickRequired: bool,
    live: bool,
    graph: Graph,
    expectedHash: string,
    titleOverride: Option<string>)

  function Expected(env: Env, q: Request): string {
    env.lower(Strip(q.expectedHash))
  }

  const MAX_TITLE := 200

  function ResolveTitle(g: Graph, titleOverride: Option<string>, existing: string): Option<string> {
    var given := if titleOverride.Some? then Strip(titleOverride.value) else "";
    var title := Strip(if given != "" then given else g.title);
    var title' := if title != "" then title else Strip(existing);
    if title' == "" then None
    else Some(if |title'| > MAX_TITLE then title'[..MAX_TITLE] else title')
  }

  datatype Refusal =
    | MalformedHash | PickRequired | NotFound | Dormant | NotEditable | InvalidGraph | GraphConflict(current: string) | TitleRefused

  /** `update_draft_from_graph`: the row it writes, or why it refuses. `tree` is the locked row, if there is one. */
  function UpdateDraft(env: Env, tree: Option<Tree>, q: Request): Result<Tree, Refusal> {
    if !IsHex64(Expected(env, q)) then Err(MalformedHash)
    else if q.pickRequired then Err(PickRequired)
    else if tree.None? || tree.value.author != q.user then Err(NotFound)
    else if !q.live then Err(Dormant)
    else if tree.value.archived || tree.value.publicNowOrBefore then Err(NotEditable)
    else if tree.value.saved.None? then Err(InvalidGraph)
    else if env.digests.ofGraph(tree.value.saved.value) != Expected(env, q) then
      Err(GraphConflict(env.digests.ofGraph(tree.value.saved.value)))
    else
      var title := ResolveTitle(q.graph, q.titleOverride, tree.value.title);
      if title.None? || env.readsAsError(title.value) then Err(TitleRefused)
      else Ok(tree.value.(title := title.value, saved := Some(q.graph.(title := title.value))))
  }

  /** The tree table as the authoring tools update it. */
  class DraftStore {
    var trees: map<nat, Tree>

    method UpdateDraftFromGraph(env: Env, treeId: nat, q: Request) returns (r: Result<Tree, Refusal>)
      modifies this
      ensures r == UpdateDraft(env, if treeId in old(trees) then Some(old(trees)[treeId]) else None, q)
      ensures trees == if r.Ok? then old(trees)[treeId := r.value] else old(trees)
    {
      var expected := env.lower(Strip(q.expectedHash));
      if !IsHex64(expected) {
        return Err(MalformedHash);
      }
      if q.pickRequired {
        return Err(PickRequired);
      }
      if treeId !in trees || trees[treeId].author != q.user {
        return Err(NotFound);
      }
      var tree := trees[treeId];
      if !q.live {
        return Err(Dormant);
      }
      if tree.archived || tree.publicNowOrBefore {
        return Err(NotEditable);
      }
      if tree.saved.None? {
        return Err(InvalidGraph);
      }
      var previousHash := env.digests.ofGraph(tree.saved.value);
      if previousHash != expected {
        return Err(GraphConflict(previousHash));
      }
      var title := ResolveTitle(q.graph, q.titleOverride, tree.title);
      if title.None? || env.readsAsError(title.value) {
        return Err(TitleRefused);
      }
      tree := tree.(title := title.value);
      tree := tree.(saved := Some(q.graph.(title := title.value)));
      trees := trees[treeId := tree];
      return Ok(tree);
    }
  }

  /** A draft update replaces title and graph and nothing else, and leaves the two titles equal. */
  lemma UpdateKeepsArtifact(env: Env, tree: Tree, q: Request)
    requires UpdateDraft(env, Some(tree), q).Ok?
    ensures var t := UpdateDraft(env, Some(tree), q).value;
      && t == tree.(title := t.title, saved := t.saved)
      && t.saved.Some? && t.saved.value == q.graph.(title := t.title) && 0 < |t.title| <= MAX_TITLE
      && tree.saved.Some? && env.digests.ofGraph(tree.saved.value) == Expected(env, q)
  {
  }

  /** The title an update gives: the first of the override, the graph's and the stored one that is not blank, trimmed and cut. */
  function ChosenTitle(q: Request, existing: string): string {
    var named :=
      if q.titleOverride.Some? && !Blank(q.titleOverride.value) then q.titleOverride.value
      else if !Blank(q.graph.title) then q.graph.title
      else existing;
    var title := Strip(named);
    if |title| > MAX_TITLE then title[..MAX_TITLE] else title
  }

  lemma TitleIsChosen(q: Request, existing: string)
    ensures ResolveTitle(q.graph, q.titleOverride, existing) == if ChosenTitle(q, existing) == "" then None else Some(ChosenTitle(q, existing))
  {
    StripIdempotent(if q.titleOverride.Some? then q.titleOverride.value else "");
  }

  /** The row is the user's own, and in a state in which it can be edited. */
  predicate MayEdit(tree: Tree, q: Request) {
    tree.author == q.user && !q.pickRequired && q.live && !tree.archived && !tree.publicNowOrBefore
  }

  /**
   An update succeeds if and only if the row is the user's own and editable, its stored graph
   hashes to a well-formed expected hash, and there is a title that does not read as an error; it
   then writes the request's graph under that title.
   */
  lemma UpdateSucceedsIff(env: Env, tree: Option<Tree>, q: Request)
    ensures UpdateDraft(env, tree, q).Ok? <==>
      && tree.Some? && MayEdit(tree.value, q)
      && IsHex64(Expected(env, q))
      && tree.value.saved.Some? && env.digests.ofGraph(tree.value.saved.value) == Expected(env, q)
      && ChosenTitle(q, tree.value.title) != "" && !env.readsAsError(ChosenTitle(q, tree.value.title))
    ensures UpdateDraft(env, tree, q).Ok? ==>
      var title := ChosenTitle(q, tree.value.title);
      UpdateDraft(env, tree, q).value == tree.value.(title := title, saved := Some(q.graph.(title := title)))
  {
    hide Strip, ResolveTitle, ChosenTitle, IsHex64;
    if tree.Some? {
      TitleIsChosen(q, tree.value.title);
    }
  }

  /** Who does not own the tree learns nothing of it: the answer is the one for a tree that does not exist. */
  lemma StrangerLearnsNothing(env: Env, tree: Tree, q: Request)
    requires tree.author != q.user
    ensures UpdateDraft(env, Some(tree), q) == UpdateDraft(env, None, q) && UpdateDraft(env, None, q).Err?
    ensures IsHex64(Expected(env, q)) && !q.pickRequired ==> UpdateDraft(env, None, q) == Err(NotFound)
  {
  }

  /**
   A conflict reports the hash of the stored graph, and only where nothing but the hash and the
   title can stand in the way: the same update with the reported hash is refused for its title or not at all.
   */
  lemma ConflictTellsHash(env: Env, tree: Tree, q: Request, h: string)
    requires UpdateDraft(env, Some(tree), q) == Err(GraphConflict(h)) && IsHex64(h) && env.lower(h) == h
    ensures tree.saved.Some? && env.digests.ofGraph(tree.saved.value) == h && MayEdit(tree, q)
    ensures var again := UpdateDraft(env, Some(tree), q.(expectedHash := h)); again.Ok? || again == Err(TitleRefused)
  {
    hide Strip, ResolveTitle;
    assert Trimmed(h);
    StripOfTrimmed(h);
  }

  lemma ContentNamesGraph(env: Env, g: Graph, corpus: string)
    ensures ContentFor(env, g, corpus).Some? ==> ContentFor(env, g, corpus).value.graphHash == env.digests.ofGraph(g)
  {
  }
}
