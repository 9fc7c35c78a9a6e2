/**
 Saves and deploys of decision trees as interleaved transactions. A deploy compiles what it read
 without a lock, then locks the row, publishes and commits; a draft update locks the row, compares
 hashes, replaces the graph and commits; an editor save is one atomic write. A transaction that
 fails, is cancelled or crashes leaves nothing behind.
 */
module RowProtocol {
  import opened Results
  import opened DecisionGraph
  import opened ArtifactIdentity
  import opened ArtifactRows
  import opened DraftUpdates

  // The machine.

  datatype Job = DeployJob(graph: Graph, corpus: string) | UpdateJob(request: Request)

  datatype Change = Change(tree: Tree, inserted: Option<Artifact>, reported: Option<Artifact>)

  datatype Phase =
    | Prepared(tree: nat, job: Job)
    | Locked(tree: nat, job: Job)
    | Written(tree: nat, job: Job, id: nat, change: Change)

  datatype Cause = ByDraft(request: Request) | ByDeploy(graph: Graph, corpus: string, artifact: Artifact) | ByEditor | ByOwner

  /** One committed write of a tree row. */
  datatype Entry = Entry(tree: nat, before: Tree, after: Tree, cause: Cause)

  datatype State = State(
    trees: map<nat, Tree>,
    corpora: map<nat, string>,
    artifacts: seq<Artifact>,
    workers: map<nat, Phase>,
    log: seq<Entry>)

  datatype Event =
    | Prepare(worker: nat, tree: nat)
    | LockForDeploy(worker: nat)
    | LockForUpdate(worker: nat, tree: nat, request: Request)
    | Write(worker: nat, id: nat)
    | Commit(worker: nat)
    | Abort(worker: nat)
    | EditorSave(tree: nat, graph: Graph)
    | OwnerFlags(tree: nat, archived: bool, publicNowOrBefore: bool)
    | SaveCorpus(tree: nat, text: string)

  predicate Holds(p: Phase, tree: nat) {
    !p.Prepared? && p.tree == tree
  }

  predicate Unlocked(s: State, tree: nat) {
    forall w :: w in s.workers ==> !Holds(s.workers[w], tree)
  }

  function CorpusOf(s: State, tree: nat): string {
    if tree in s.corpora then s.corpora[tree] else ""
  }

  function RunJob(env: Env, tree: Tree, treeId: nat, artifacts: seq<Artifact>, job: Job, id: nat): Option<Change> {
    match job
    case DeployJob(g, corpus) =>
      var content := ContentFor(env, g, corpus);
      if content.None? then None
      else
        var r := Publish(env.digests, artifacts, treeId, tree, content.value, id);
        if r.Ok? then Some(Change(r.value.tree, r.value.inserted, Some(r.value.artifact))) else None
    case UpdateJob(q) =>
      var updated := UpdateDraft(env, Some(tree), q);
      if updated.Ok? then Some(Change(updated.value, None, None)) else None
  }

  /** A key no committed or pending row has. */
  predicate FreshId(s: State, id: nat) {
    && (forall a :: a in s.artifacts ==> a.id != id)
    && forall w :: w in s.workers && s.workers[w].Written? ==> s.workers[w].id != id
  }

  function CauseOf(p: Phase): Cause
    requires p.Written? && (p.job.DeployJob? ==> p.change.reported.Some?)
  {
    match p.job
    case DeployJob(g, corpus) => ByDeploy(g, corpus, p.change.reported.value)
    case UpdateJob(q) => ByDraft(q)
  }

  function Record(s: State, tree: nat, after: Tree, cause: Cause): State
    requires tree in s.trees
  {
    s.(trees := s.trees[tree := after], log := s.log + [Entry(tree, s.trees[tree], after, cause)])
  }

  function Apply(env: Env, s: State, e: Event): State {
    match e
    case Prepare(w, t) =>
      if w !in s.workers && t in s.trees && s.trees[t].saved.Some? && ContentFor(env, s.trees[t].saved.value, CorpusOf(s, t)).Some?
      then s.(workers := s.workers[w := Prepared(t, DeployJob(s.trees[t].saved.value, CorpusOf(s, t)))]) else s
    case LockForDeploy(w) =>
      if w in s.workers && s.workers[w].Prepared? && s.workers[w].tree in s.trees && Unlocked(s, s.workers[w].tree)
      then s.(workers := s.workers[w := Locked(s.workers[w].tree, s.workers[w].job)]) else s
    case LockForUpdate(w, t, q) =>
      if w !in s.workers && t in s.trees && Unlocked(s, t)
      then s.(workers := s.workers[w := Locked(t, UpdateJob(q))]) else s
    case Write(w, id) =>
      if w in s.workers && s.workers[w].Locked? && s.workers[w].tree in s.trees && FreshId(s, id) then
        var t, job := s.workers[w].tree, s.workers[w].job;
        var change := RunJob(env, s.trees[t], t, s.artifacts, job, id);
        if change.Some? then s.(workers := s.workers[w := Written(t, job, id, change.value)])
        else s.(workers := s.workers - {w})
      else s
    case Commit(w) =>
      if w in s.workers && s.workers[w].Written? && s.workers[w].tree in s.trees
         && (s.workers[w].job.DeployJob? ==> s.workers[w].change.reported.Some?)
      then
        var p := s.workers[w];
        Record(s, p.tree, p.change.tree, CauseOf(p)).(
          artifacts := s.artifacts + Inserted(p.change.inserted),
          workers := s.workers - {w})
      else s
    case Abort(w) => s.(workers := s.workers - {w})
    case EditorSave(t, g) =>
      if t in s.trees && Unlocked(s, t) then Record(s, t, s.trees[t].(saved := Some(g)), ByEditor) else s
    case OwnerFlags(t, archived, public) =>
      if t in s.trees && Unlocked(s, t)
      then Record(s, t, s.trees[t].(archived := archived, publicNowOrBefore := public), ByOwner) else s
    case SaveCorpus(t, text) => s.(corpora := s.corpora[t := text])
  }

  function Run(env: Env, s: State, events: seq<Event>): State {
    if events == [] then s else Apply(env, Run(env, s, events[..|events| - 1]), events[|events| - 1])
  }

  // The invariant.

  predicate TablesOk(env: Env, s: State) {
    KeysDistinct(s.artifacts) && forall t :: t in s.trees ==> RowsOk(env.digests, s.artifacts, t, s.trees[t].pointer)
  }

  predicate LocksOk(s: State) {
    && (forall w :: w in s.workers ==> s.workers[w].tree in s.trees)
    && (forall v, w :: v in s.workers && w in s.workers && v != w && !s.workers[w].Prepared? ==> !Holds(s.workers[v], s.workers[w].tree))
  }

  predicate PendingFresh(s: State) {
    && (forall w, a :: w in s.workers && s.workers[w].Written? && a in s.artifacts ==> a.id != s.workers[w].id)
    && (forall v, w :: v in s.workers && w in s.workers && v != w && s.workers[v].Written? && s.workers[w].Written? ==>
          s.workers[v].id != s.workers[w].id)
  }

  /** What a worker has written is still what its job does to the committed tables. */
  predicate PendingOk(env: Env, s: State, w: nat)
    requires w in s.workers
  {
    var p := s.workers[w];
    p.Written? ==> p.tree in s.trees && RunJob(env, s.trees[p.tree], p.tree, s.artifacts, p.job, p.id) == Some(p.change)
  }

  /** Each committed write was justified by the row it replaced. */
  ghost predicate EntryOk(env: Env, e: Entry) {
    match e.cause
    case ByDraft(q) => UpdateDraft(env, Some(e.before), q) == Ok(e.after)
    case ByDeploy(g, corpus, a) =>
      && e.before.saved.Some? && env.digests.ofGraph(e.before.saved.value) == env.digests.ofGraph(g)
      && e.after == e.before.(pointer := Some(a.id), compiled := true)
      && Stamped(env.digests, a) && a.treeId == e.tree
      && ContentFor(env, g, corpus).Some?
      && (Faithful(env.digests) ==> ContentFor(env, g, corpus) == Some(ContentOf(a)))
    case ByEditor => e.after.saved.Some? && e.after == e.before.(saved := e.after.saved)
    case ByOwner => e.after == e.before.(archived := e.after.archived, publicNowOrBefore := e.after.publicNowOrBefore)
  }

  predicate Inv(env: Env, s: State) {
    && TablesOk(env, s) && LocksOk(s) && PendingFresh(s)
    && (forall w :: w in s.workers ==> PendingOk(env, s, w))
  }

  predicate Starts(env: Env, s: State) {
    TablesOk(env, s) && s.workers == map[] && s.log == []
  }

  lemma LoadCurrentStable(d: Digests, artifacts: seq<Artifact>, treeId: nat, pointer: Option<nat>, row: Artifact)
    requires KeysDistinct(artifacts) && RowsOk(d, artifacts, treeId, pointer)
    requires forall a :: a in artifacts ==> a.id != row.id
    ensures LoadCurrent(artifacts + [row], treeId, pointer) == LoadCurrent(artifacts, treeId, pointer)
  {
    hide Stamped;
    if pointer.Some? {
      CurrentIsLast(d, artifacts, treeId, pointer);
      FindIsIn(artifacts, pointer.value);
      assert (artifacts + [row])[..|artifacts|] == artifacts;
    }
  }

  lemma OtherTreeStable(d: Digests, artifacts: seq<Artifact>, treeId: nat, pointer: Option<nat>, row: Artifact)
    requires RowsOk(d, artifacts, treeId, pointer) && row.treeId != treeId
    ensures RowsOk(d, artifacts + [row], treeId, pointer)
  {
  }

  lemma RunJobStable(env: Env, tree: Tree, treeId: nat, artifacts: seq<Artifact>, job: Job, id: nat, row: Artifact)
    requires KeysDistinct(artifacts) && RowsOk(env.digests, artifacts, treeId, tree.pointer)
    requires row.treeId != treeId && forall a :: a in artifacts ==> a.id != row.id
    ensures RunJob(env, tree, treeId, artifacts + [row], job, id) == RunJob(env, tree, treeId, artifacts, job, id)
  {
    hide LoadCurrent, MaxVersion, ComputeStamp, RowsOk, ContentFor, UpdateDraft, Find, KeysDistinct;
    LoadCurrentStable(env.digests, artifacts, treeId, tree.pointer, row);
    HistoryOfAppend(artifacts, row, treeId);
    if job.DeployJob? && ContentFor(env, job.graph, job.corpus).Some? {
      var candidate := CandidateRow(treeId, id, ContentFor(env, job.graph, job.corpus).value);
      if ComputeStamp(env.digests, candidate).Ok? {
        var stamp := ComputeStamp(env.digests, candidate).value;
        var version := MaxVersion(artifacts, treeId) + 1;
        var added := candidate.(irHash := Some(stamp.irHash), artifactHash := Some(stamp.artifactHash), version := Some(version));
        AppendedIsFound(artifacts, added);
        AppendedIsFound(artifacts + [row], added);
        assert VersionFree(artifacts + [row], treeId, version) == VersionFree(artifacts, treeId, version);
      }
    }
  }

  /** What a finished job has written for its tree. */
  lemma JobFacts(env: Env, tree: Tree, treeId: nat, artifacts: seq<Artifact>, job: Job, id: nat)
    requires KeysDistinct(artifacts) && RowsOk(env.digests, artifacts, treeId, tree.pointer)
    requires forall a :: a in artifacts ==> a.id != id
    requires RunJob(env, tree, treeId, artifacts, job, id).Some?
    ensures var c := RunJob(env, tree, treeId, artifacts, job, id).value;
      && KeysDistinct(artifacts + Inserted(c.inserted))
      && RowsOk(env.digests, artifacts + Inserted(c.inserted), treeId, c.tree.pointer)
      && (c.inserted.Some? ==> c.inserted.value.treeId == treeId && c.inserted.value.id == id)
      && (job.DeployJob? ==> c.reported.Some? && LoadCurrent(artifacts + Inserted(c.inserted), treeId, c.tree.pointer) == c.reported)
      && EntryOk(env, Entry(treeId, tree, c.tree, CauseOf(Written(treeId, job, id, c))))
  {
    hide Publish, LoadCurrent, MaxVersion, ComputeStamp, RowsOk, ContentFor, UpdateDraft, KeysDistinct, Stamped, Faithful;
    match job
    case UpdateJob(q) =>
      assert artifacts + [] == artifacts;
      UpdateKeepsArtifact(env, tree, q);
    case DeployJob(g, corpus) =>
      var content := ContentFor(env, g, corpus).value;
      PublishCases(env.digests, artifacts, treeId, tree, content, id);
      PublishKeepsRows(env.digests, artifacts, treeId, tree, content, id);
      ContentNamesGraph(env, g, corpus);
      PublishedKey(env.digests, artifacts, treeId, tree, content, id);
      if Faithful(env.digests) {
        PublishReportsCandidate(env.digests, artifacts, treeId, tree, content, id);
      }
  }

  lemma PublishedKey(d: Digests, artifacts: seq<Artifact>, treeId: nat, tree: Tree, c: Content, id: nat)
    requires KeysDistinct(artifacts) && RowsOk(d, artifacts, treeId, tree.pointer)
    requires Publish(d, artifacts, treeId, tree, c, id).Ok?
    ensures var p := Publish(d, artifacts, treeId, tree, c, id).value;
      && p.tree == tree.(pointer := Some(p.artifact.id), compiled := true)
      && (p.inserted.Some? ==> p.inserted.value.treeId == treeId && p.inserted.value.id == id)
  {
    hide Publish, MaxVersion, ComputeStamp, Stamped;
    PublishCases(d, artifacts, treeId, tree, c, id);
    CurrentIsLast(d, artifacts, treeId, tree.pointer);
  }

  /** What a transaction can do once it holds the row's lock: exactly when its write goes through. */
  lemma JobSucceedsIff(env: Env, tree: Tree, treeId: nat, artifacts: seq<Artifact>, job: Job, id: nat)
    requires RowsOk(env.digests, artifacts, treeId, tree.pointer)
    ensures RunJob(env, tree, treeId, artifacts, job, id).Some? <==>
      match job
      case UpdateJob(q) =>
        && MayEdit(tree, q) && IsHex64(Expected(env, q))
        && tree.saved.Some? && env.digests.ofGraph(tree.saved.value) == Expected(env, q)
        && ChosenTitle(q, tree.title) != "" && !env.readsAsError(ChosenTitle(q, tree.title))
      case DeployJob(g, corpus) =>
        && ContentFor(env, g, corpus).Some? && Stampable(env.digests, ContentFor(env, g, corpus).value)
        && tree.saved.Some? && env.digests.ofGraph(tree.saved.value) == env.digests.ofGraph(g)
  {
    hide RowsOk, Publish, UpdateDraft, ChosenTitle, IsHex64, ContentFor, Stampable;
    match job
    case UpdateJob(q) => UpdateSucceedsIff(env, Some(tree), q);
    case DeployJob(g, corpus) =>
      ContentNamesGraph(env, g, corpus);
      if ContentFor(env, g, corpus).Some? {
        PublishSucceedsIff(env.digests, artifacts, treeId, tree, ContentFor(env, g, corpus).value, id);
      }
  }
}
