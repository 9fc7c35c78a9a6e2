/** What the committed writes of every run say: no update is lost, only authors update, and a row is live while it is what was deployed. */
module RowHistory {
  import opened Results
  import opened DecisionGraph
  import opened ArtifactIdentity
  import opened ArtifactRows
  import opened DraftUpdates
  import opened RowProtocol
  import opened RowInvariant

  // The log of committed writes.

  /** The row a tree has after the writes of a log, starting from `initial`. */
  function After(log: seq<Entry>, t: nat, initial: Tree): Tree {
    if log == [] then initial
    else if log[|log| - 1].tree == t then log[|log| - 1].after
    else After(log[..|log| - 1], t, initial)
  }

  /** Each write starts from what the previous committed write of its tree left, and was justified by it. */
  ghost predicate IsChain(env: Env, log: seq<Entry>, initial: map<nat, Tree>) {
    forall i :: 0 <= i < |log| ==> Follows(env, log[..i], log[i], initial)
  }

  ghost predicate Follows(env: Env, earlier: seq<Entry>, e: Entry, initial: map<nat, Tree>) {
    e.tree in initial && e.before == After(earlier, e.tree, initial[e.tree]) && EntryOk(env, e)
  }

  lemma AfterAppend(log: seq<Entry>, e: Entry, t: nat, initial: Tree)
    ensures After(log + [e], t, initial) == if e.tree == t then e.after else After(log, t, initial)
  {
  }

  ghost predicate LogOk(env: Env, s: State, initial: map<nat, Tree>) {
    && s.trees.Keys == initial.Keys
    && IsChain(env, s.log, initial)
    && forall t :: t in s.trees ==> s.trees[t] == After(s.log, t, initial[t])
  }

  lemma RecordKeepsLog(env: Env, s: State, t: nat, after: Tree, cause: Cause, initial: map<nat, Tree>)
    requires LogOk(env, s, initial) && t in s.trees && EntryOk(env, Entry(t, s.trees[t], after, cause))
    ensures LogOk(env, Record(s, t, after, cause), initial)
  {
    hide EntryOk, After;
    var e := Entry(t, s.trees[t], after, cause);
    var log := s.log + [e];
    forall i | 0 <= i < |log| ensures Follows(env, log[..i], log[i], initial) {
      if i < |s.log| {
        assert log[..i] == s.log[..i] && log[i] == s.log[i];
      } else {
        assert log[..i] == s.log;
      }
    }
    forall u | u in s.trees ensures Record(s, t, after, cause).trees[u] == After(log, u, initial[u]) {
      AfterAppend(s.log, e, u, initial[u]);
    }
  }

  lemma StepKeepsLog(env: Env, s: State, e: Event, initial: map<nat, Tree>)
    requires Inv(env, s) && LogOk(env, s, initial)
    ensures LogOk(env, Apply(env, s, e), initial)
  {
    hide RunJob, RowsOk, KeysDistinct, LogOk, ContentFor, LoadCurrent, UpdateDraft, Stamped, Faithful;
    match e
    case Commit(w) =>
      if Apply(env, s, e) != s {
        var p := s.workers[w];
        assert PendingOk(env, s, w);
        JobFacts(env, s.trees[p.tree], p.tree, s.artifacts, p.job, p.id);
        RecordKeepsLog(env, s, p.tree, p.change.tree, CauseOf(p), initial);
        LogOfTreesAndLog(env, Record(s, p.tree, p.change.tree, CauseOf(p)), Apply(env, s, e), initial);
      }
    case EditorSave(t, g) =>
      if t in s.trees && Unlocked(s, t) {
        RecordKeepsLog(env, s, t, s.trees[t].(saved := Some(g)), ByEditor, initial);
      }
    case OwnerFlags(t, archived, public) =>
      if t in s.trees && Unlocked(s, t) {
        RecordKeepsLog(env, s, t, s.trees[t].(archived := archived, publicNowOrBefore := public), ByOwner, initial);
      }
    case _ => LogOfTreesAndLog(env, s, Apply(env, s, e), initial);
  }

  lemma LogOfTreesAndLog(env: Env, s: State, s': State, initial: map<nat, Tree>)
    requires LogOk(env, s, initial) && s'.trees == s.trees && s'.log == s.log
    ensures LogOk(env, s', initial)
  {
  }

  /** Over every interleaving the committed writes of each tree form a chain. */
  lemma {:induction false} RunKeepsLog(env: Env, s: State, events: seq<Event>)
    requires Starts(env, s)
    ensures Inv(env, Run(env, s, events)) && LogOk(env, Run(env, s, events), s.trees)
  {
    hide Inv, Apply, IsChain;
    StartIsOk(env, s);
    if events != [] {
      RunKeepsLog(env, s, events[..|events| - 1]);
      StepKeepsInv(env, Run(env, s, events[..|events| - 1]), events[|events| - 1]);
      StepKeepsLog(env, Run(env, s, events[..|events| - 1]), events[|events| - 1], s.trees);
    }
  }

  lemma StartIsOk(env: Env, s: State)
    requires Starts(env, s)
    ensures Inv(env, s) && LogOk(env, s, s.trees)
  {
  }

  /**
   No update is lost: the graph that a committed draft update replaced is the one the previous
   committed write of that tree left, and it hashes to the update's expected hash; with injective
   digests two updates that expect the same hash replaced the same graph.
   */
  lemma NoLostUpdate(env: Env, s: State, events: seq<Event>, i: nat)
    requires Starts(env, s) && i < |Run(env, s, events).log| && Run(env, s, events).log[i].cause.ByDraft?
    ensures var log := Run(env, s, events).log;
      && log[i].tree in s.trees
      && log[i].before == After(log[..i], log[i].tree, s.trees[log[i].tree])
      && log[i].before.saved.Some?
      && env.digests.ofGraph(log[i].before.saved.value) == Expected(env, log[i].cause.request)
      && log[i].after == log[i].before.(title := log[i].after.title, saved := Some(log[i].cause.request.graph.(title := log[i].after.title)))
  {
    hide Run, Inv, UpdateDraft;
    RunKeepsLog(env, s, events);
    var e := Run(env, s, events).log[i];
    assert Follows(env, Run(env, s, events).log[..i], e, s.trees);
    UpdateKeepsArtifact(env, e.before, e.cause.request);
  }

  lemma {:induction false} AuthorStays(env: Env, log: seq<Entry>, t: nat, initial: map<nat, Tree>)
    requires IsChain(env, log, initial) && t in initial
    ensures After(log, t, initial[t]).author == initial[t].author
  {
    hide ContentFor, Stamped, UpdateDraft, Faithful;
    if log != [] {
      var n := |log| - 1;
      forall k | 0 <= k < n ensures Follows(env, log[..n][..k], log[..n][k], initial) {
        assert log[..n][..k] == log[..k];
        assert Follows(env, log[..k], log[k], initial);
      }
      AuthorStays(env, log[..n], t, initial);
      assert Follows(env, log[..n], log[n], initial);
      if log[n].cause.ByDraft? {
        UpdateKeepsArtifact(env, log[n].before, log[n].cause.request);
      }
    }
  }

  /**
   Over every interleaving, no row changes hands, and every committed draft update was made by the
   row's author on a row that was editable when it committed.
   */
  lemma OnlyAuthorsUpdate(env: Env, s: State, events: seq<Event>, i: nat)
    requires Starts(env, s) && i < |Run(env, s, events).log|
    ensures var e := Run(env, s, events).log[i];
      && e.tree in s.trees && e.before.author == s.trees[e.tree].author && e.after.author == e.before.author
      && (e.cause.ByDraft? ==> MayEdit(e.before, e.cause.request) && e.cause.request.user == s.trees[e.tree].author)
  {
    hide Run, Inv, UpdateDraft, IsHex64, ChosenTitle, ContentFor, Stamped, Faithful, After;
    RunKeepsLog(env, s, events);
    var log := Run(env, s, events).log;
    var e := log[i];
    assert Follows(env, log[..i], e, s.trees);
    forall k | 0 <= k < i ensures Follows(env, log[..i][..k], log[..i][k], s.trees) {
      assert log[..i][..k] == log[..k];
      assert Follows(env, log[..k], log[k], s.trees);
    }
    AuthorStays(env, log[..i], e.tree, s.trees);
    if e.cause.ByDraft? {
      UpdateKeepsArtifact(env, e.before, e.cause.request);
      UpdateSucceedsIff(env, Some(e.before), e.cause.request);
    }
  }

  lemma {:induction false} AfterQuietStretch(log: seq<Entry>, i: nat, t: nat, initial: Tree)
    requires i < |log| && log[i].tree == t && forall k :: i < k < |log| ==> log[k].tree != t
    ensures After(log, t, initial) == log[i].after
    decreases |log|
  {
    if i < |log| - 1 {
      AfterQuietStretch(log[..|log| - 1], i, t, initial);
    }
  }

  /** Two updates of a tree that expect one hash, with no write between them: the first must have kept the hash. */
  lemma SameExpectedTwice(env: Env, s: State, events: seq<Event>, i: nat, j: nat)
    requires Starts(env, s) && i < j < |Run(env, s, events).log|
    requires var log := Run(env, s, events).log;
      && log[i].cause.ByDraft? && log[j].cause.ByDraft? && log[i].tree == log[j].tree
      && Expected(env, log[i].cause.request) == Expected(env, log[j].cause.request)
      && forall k :: i < k < j ==> log[k].tree != log[i].tree
    ensures var e := Run(env, s, events).log[i];
      e.after.saved.Some? && env.digests.ofGraph(e.after.saved.value) == Expected(env, e.cause.request)
  {
    hide Run, Inv, Expected, After;
    var log := Run(env, s, events).log;
    NoLostUpdate(env, s, events, j);
    AfterQuietStretch(log[..j], i, log[i].tree, s.trees[log[j].tree]);
  }

  /** A published artifact is compiled from the graph that was saved when the deploy committed. */
  lemma DeployPublishesSavedGraph(env: Env, s: State, events: seq<Event>, i: nat)
    requires Starts(env, s) && Faithful(env.digests)
    requires i < |Run(env, s, events).log| && Run(env, s, events).log[i].cause.ByDeploy?
    ensures var e := Run(env, s, events).log[i];
      && e.before.saved == Some(e.cause.graph) && e.after.saved == e.before.saved
      && ContentFor(env, e.before.saved.value, e.cause.corpus) == Some(ContentOf(e.cause.artifact))
  {
    hide Run, Inv, ContentFor, Stamped;
    RunKeepsLog(env, s, events);
    assert Follows(env, Run(env, s, events).log[..i], Run(env, s, events).log[i], s.trees);
  }

  predicate DeployedRowsExist(s: State) {
    forall i :: 0 <= i < |s.log| && s.log[i].cause.ByDeploy? ==> s.log[i].cause.artifact in s.artifacts
  }

  lemma StepKeepsDeployedRows(env: Env, s: State, e: Event)
    requires Inv(env, s) && DeployedRowsExist(s)
    ensures DeployedRowsExist(Apply(env, s, e))
  {
    hide RunJob, RowsOk, KeysDistinct, ContentFor, Find, EntryOk, FreshId, Unlocked;
    var s' := Apply(env, s, e);
    if e.Commit? && s' != s {
      var p := s.workers[e.worker];
      assert PendingOk(env, s, e.worker);
      JobFacts(env, s.trees[p.tree], p.tree, s.artifacts, p.job, p.id);
      if p.job.DeployJob? {
        assert p.change.tree.pointer.Some?;
        FindIsIn(s.artifacts + Inserted(p.change.inserted), p.change.tree.pointer.value);
      }
    }
  }

  lemma {:induction false} RunKeepsDeployedRows(env: Env, s: State, events: seq<Event>)
    requires Starts(env, s)
    ensures DeployedRowsExist(Run(env, s, events))
  {
    hide Apply, Inv, DeployedRowsExist;
    if events != [] {
      RunKeepsDeployedRows(env, s, events[..|events| - 1]);
      RunKeepsLog(env, s, events[..|events| - 1]);
      StepKeepsDeployedRows(env, Run(env, s, events[..|events| - 1]), events[|events| - 1]);
    } else {
      EmptyLogHasRows(s);
    }
  }

  lemma EmptyLogHasRows(s: State)
    ensures s.log == [] ==> DeployedRowsExist(s)
  {
  }

  predicate LastDeploy(log: seq<Entry>, i: nat, t: nat) {
    && i < |log| && log[i].tree == t && log[i].cause.ByDeploy?
    && forall j :: i < j < |log| && log[j].tree == t ==> !log[j].cause.ByDeploy?
  }

  lemma {:induction false} PointerSinceDeploy(env: Env, log: seq<Entry>, i: nat, t: nat, initial: map<nat, Tree>)
    requires IsChain(env, log, initial) && LastDeploy(log, i, t) && t in initial
    ensures var tree := After(log, t, initial[t]);
      tree.pointer == Some(log[i].cause.artifact.id) && tree.compiled && tree.saved.Some?
    decreases |log|
  {
    hide ContentFor, Stamped, UpdateDraft, Faithful;
    var n := |log| - 1;
    assert Follows(env, log[..n], log[n], initial);
    if i < n {
      var before := log[..n];
      forall k | 0 <= k < n ensures Follows(env, before[..k], before[k], initial) {
        assert before[..k] == log[..k];
        assert Follows(env, log[..k], log[k], initial);
      }
      PointerSinceDeploy(env, before, i, t, initial);
      if log[n].cause.ByDraft? && log[n].tree == t {
        UpdateKeepsArtifact(env, log[n].before, log[n].cause.request);
      }
    }
  }

  /**
   After a deploy and until the next one on the tree, over every interleaving: its artifact stays
   current, and the row reads live exactly while the saved graph hashes to the artifact's hash
   (with injective digests: while the saved graph is the deployed one), and stale otherwise.
   */
  lemma LiveUntilGraphChanges(env: Env, s: State, events: seq<Event>, i: nat, t: nat)
    requires Starts(env, s) && LastDeploy(Run(env, s, events).log, i, t)
    ensures var z := Run(env, s, events);
      var a := z.log[i].cause.artifact;
      && t in z.trees && z.trees[t].saved.Some?
      && LoadCurrent(z.artifacts, t, z.trees[t].pointer) == Some(a)
      && ToolsRowState(env.digests, z.trees[t], Some(a)) == (if env.digests.ofGraph(z.trees[t].saved.value) == a.graphHash then Live else Stale)
      && (Faithful(env.digests) ==>
            (ToolsRowState(env.digests, z.trees[t], Some(a)) == Live <==> z.trees[t].saved.value == z.log[i].cause.graph))
  {
    hide Run, LocksOk, PendingFresh, PendingOk, RowsOk, Find, IsChain, ContentFor, Stamped, UpdateDraft;
    RunKeepsLog(env, s, events);
    RunKeepsDeployedRows(env, s, events);
    var z := Run(env, s, events);
    ChainAt(env, z.log, i, s.trees);
    PointerSinceDeploy(env, z.log, i, t, s.trees);
    FindSome(z.artifacts, z.log[i].cause.artifact);
    ContentNamesGraph(env, z.log[i].cause.graph, z.log[i].cause.corpus);
  }

  lemma ChainAt(env: Env, log: seq<Entry>, i: nat, initial: map<nat, Tree>)
    requires IsChain(env, log, initial) && i < |log|
    ensures EntryOk(env, log[i]) && log[i].tree in initial
  {
  }

  predicate NoDeployOf(log: seq<Entry>, t: nat) {
    forall i :: 0 <= i < |log| && log[i].tree == t ==> !log[i].cause.ByDeploy?
  }

  lemma {:induction false} OnlyDeploysPublish(env: Env, log: seq<Entry>, t: nat, initial: map<nat, Tree>)
    requires IsChain(env, log, initial) && NoDeployOf(log, t) && t in initial
    ensures var tree := After(log, t, initial[t]); tree.pointer == initial[t].pointer && tree.compiled == initial[t].compiled
  {
    hide ContentFor, Stamped, UpdateDraft, Faithful;
    if log != [] {
      var n := |log| - 1;
      forall k | 0 <= k < n ensures Follows(env, log[..n][..k], log[..n][k], initial) {
        assert log[..n][..k] == log[..k];
        assert Follows(env, log[..k], log[k], initial);
      }
      OnlyDeploysPublish(env, log[..n], t, initial);
      assert Follows(env, log[..n], log[n], initial);
      if log[n].cause.ByDraft? {
        UpdateKeepsArtifact(env, log[n].before, log[n].cause.request);
      }
    }
  }

  /** A row never deployed reads as not built, whatever is saved on it meanwhile and published for other trees. */
  lemma NotBuiltUntilDeployed(env: Env, s: State, events: seq<Event>, t: nat)
    requires Starts(env, s) && t in s.trees && !s.trees[t].compiled && s.trees[t].pointer.None?
    requires NoDeployOf(Run(env, s, events).log, t)
    ensures var z := Run(env, s, events);
      && t in z.trees && History(z.artifacts, t) == []
      && ToolsRowState(env.digests, z.trees[t], LoadCurrent(z.artifacts, t, z.trees[t].pointer)) == NotBuilt
  {
    hide Run, LocksOk, PendingFresh, PendingOk, IsChain, NoDeployOf;
    RunKeepsLog(env, s, events);
    OnlyDeploysPublish(env, Run(env, s, events).log, t, s.trees);
  }
}
