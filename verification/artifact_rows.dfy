/** Append-only publication of compiled artifacts, the database guards it runs under, and the state a row derives from it. */
module ArtifactRows {
  import opened Results
  import opened DecisionGraph
  import opened ArtifactIdentity

  /** The columns of `decision_trees` that deploys and saves use; `saved` is absent when the stored graph does not parse. */
  datatype Tree = Tree(
    author: nat,
    title: string,
    saved: Option<Graph>,
    archived: bool,
    publicNowOrBefore: bool,
    pointer: Option<nat>,
    compiled: bool)

  datatype DeployError = UnreadableGraph | GraphChanged | BadIdentity(error: IntegrityError) | DuplicateVersion | PointerRejected

  /** The writes of one publication: the tree row, the row inserted if any, and the artifact reported. */
  datatype Publication = Publication(tree: Tree, inserted: Option<Artifact>, artifact: Artifact)

  // Queries.

  function Find(artifacts: seq<Artifact>, id: nat): Option<Artifact> {
    if artifacts == [] then None
    else if artifacts[|artifacts| - 1].id == id then Some(artifacts[|artifacts| - 1])
    else Find(artifacts[..|artifacts| - 1], id)
  }

  function LoadCurrent(artifacts: seq<Artifact>, treeId: nat, pointer: Option<nat>): Option<Artifact> {
    if pointer.None? then None
    else
      var found := Find(artifacts, pointer.value);
      if found.Some? && found.value.treeId == treeId then found else None
  }

  /** The stamped rows of one tree, oldest first. */
  function History(artifacts: seq<Artifact>, treeId: nat): seq<Artifact> {
    if artifacts == [] then []
    else
      var last := artifacts[|artifacts| - 1];
      History(artifacts[..|artifacts| - 1], treeId) + (if last.treeId == treeId && last.version.Some? then [last] else [])
  }

  /** `max(artifact_version)` of a tree, or zero. */
  function MaxVersion(artifacts: seq<Artifact>, treeId: nat): nat {
    if artifacts == [] then 0
    else
      var rest, last := MaxVersion(artifacts[..|artifacts| - 1], treeId), artifacts[|artifacts| - 1];
      if last.treeId == treeId && last.version.Some? && last.version.value > rest then last.version.value else rest
  }

  // Guards of the database.

  predicate VersionFree(artifacts: seq<Artifact>, treeId: nat, version: nat) {
    forall a :: a in artifacts && a.treeId == treeId ==> a.version != Some(version)
  }

  /** The trigger on `current_artifact_id`. */
  predicate PointerAllowed(artifacts: seq<Artifact>, treeId: nat, pointer: Option<nat>) {
    pointer.Some? ==>
      var found := Find(artifacts, pointer.value);
      found.Some? && found.value.treeId == treeId && Complete(found.value)
  }

  // Publication.

  function CandidateRow(treeId: nat, id: nat, c: Content): Artifact {
    Artifact(id, treeId, c.ir, c.graphHash, c.compilerVersion, c.irFormat, c.contract, c.contractHash, c.corpusHash, None, None, None)
  }

  /** `persist_compiled_artifact_append_only` on the locked row; `id` is the key drawn for a new row. */
  function Publish(d: Digests, artifacts: seq<Artifact>, treeId: nat, tree: Tree, c: Content, id: nat): Result<Publication, DeployError> {
    if tree.saved.None? then Err(UnreadableGraph)
    else if d.ofGraph(tree.saved.value) != c.graphHash then Err(GraphChanged)
    else
      var candidate := CandidateRow(treeId, id, c);
      match ComputeStamp(d, candidate)
      case Err(e) => Err(BadIdentity(e))
      case Ok(stamp) =>
        var current := LoadCurrent(artifacts, treeId, tree.pointer);
        if current.Some? && current.value.artifactHash == Some(stamp.artifactHash) then
          Ok(Publication(tree.(compiled := true), None, current.value))
        else
          var version := MaxVersion(artifacts, treeId) + 1;
          var row := candidate.(irHash := Some(stamp.irHash), artifactHash := Some(stamp.artifactHash), version := Some(version));
          if !VersionFree(artifacts, treeId, version) then Err(DuplicateVersion)
          else if !PointerAllowed(artifacts + [row], treeId, Some(id)) then Err(PointerRejected)
          else Ok(Publication(tree.(pointer := Some(id), compiled := true), Some(row), row))
  }

  function Inserted(row: Option<Artifact>): seq<Artifact> {
    if row.Some? then [row.value] else []
  }

  /** The two tables, updated in place. */
  class ArtifactStore {
    var trees: map<nat, Tree>
    var artifacts: seq<Artifact>

    /** `Publish` on the two tables: they change as it says, or on a refusal not at all. */
    method PersistCompiledArtifactAppendOnly(d: Digests, treeId: nat, c: Content, id: nat) returns (r: Result<Artifact, DeployError>)
      requires treeId in trees
      modifies this
      ensures var p := Publish(d, old(artifacts), treeId, old(trees)[treeId], c, id);
        match p
        case Err(e) => r == Err(e) && trees == old(trees) && artifacts == old(artifacts)
        case Ok(done) =>
          && r == Ok(done.artifact)
          && trees == old(trees)[treeId := done.tree]
          && artifacts == old(artifacts) + Inserted(done.inserted)
    {
      hide Find, MaxVersion, ComputeStamp, VersionFree, PointerAllowed;
      var locked := trees[treeId];
      if locked.saved.None? {
        return Err(UnreadableGraph);
      }
      if d.ofGraph(locked.saved.value) != c.graphHash {
        return Err(GraphChanged);
      }
      var candidate := CandidateRow(treeId, id, c);
      var stamp := ComputeStamp(d, candidate);
      if stamp.Err? {
        return Err(BadIdentity(stamp.error));
      }
      candidate := candidate.(irHash := Some(stamp.value.irHash), artifactHash := Some(stamp.value.artifactHash));
      var current := LoadCurrent(artifacts, treeId, locked.pointer);
      if current.Some? && current.value.artifactHash == Some(stamp.value.artifactHash) {
        trees := trees[treeId := locked.(compiled := true)];
        return Ok(current.value);
      }
      var nextVersion := MaxVersion(artifacts, treeId) + 1;
      candidate := candidate.(version := Some(nextVersion));
      if !VersionFree(artifacts, treeId, nextVersion) {
        return Err(DuplicateVersion);
      }
      if !PointerAllowed(artifacts + [candidate], treeId, Some(id)) {
        return Err(PointerRejected);
      }
      artifacts := artifacts + [candidate];
      trees := trees[treeId := locked.(pointer := Some(id), compiled := true)];
      return Ok(candidate);
    }
  }

  // What the tables satisfy.

  predicate KeysDistinct(artifacts: seq<Artifact>) {
    forall i, j :: 0 <= i < j < |artifacts| ==> artifacts[i].id != artifacts[j].id
  }

  /** The rows of a tree: stamps that recompute, versions 1 to n in order, and a pointer to version n. */
  predicate RowsOk(d: Digests, artifacts: seq<Artifact>, treeId: nat, pointer: Option<nat>) {
    var h := History(artifacts, treeId);
    && (forall k :: 0 <= k < |h| ==> Stamped(d, h[k]) && h[k].version == Some(k + 1))
    && (pointer.Some? <==> h != [])
    && (pointer.Some? ==> h[|h| - 1].id == pointer.value)
  }

  lemma {:induction false} FindSome(artifacts: seq<Artifact>, a: Artifact)
    requires KeysDistinct(artifacts) && a in artifacts
    ensures Find(artifacts, a.id) == Some(a)
  {
    if artifacts[|artifacts| - 1] != a {
      FindSome(artifacts[..|artifacts| - 1], a);
    }
  }

  lemma {:induction false} FindIsIn(artifacts: seq<Artifact>, id: nat)
    ensures Find(artifacts, id).Some? ==> Find(artifacts, id).value in artifacts && Find(artifacts, id).value.id == id
  {
    if artifacts != [] {
      FindIsIn(artifacts[..|artifacts| - 1], id);
    }
  }

  lemma {:induction false} HistoryExactly(artifacts: seq<Artifact>, treeId: nat, a: Artifact)
    ensures a in History(artifacts, treeId) <==> a in artifacts && a.treeId == treeId && a.version.Some?
  {
    if artifacts != [] {
      HistoryExactly(artifacts[..|artifacts| - 1], treeId, a);
    }
  }

  lemma HistoryOfAppend(artifacts: seq<Artifact>, row: Artifact, treeId: nat)
    ensures History(artifacts + [row], treeId)
      == History(artifacts, treeId) + (if row.treeId == treeId && row.version.Some? then [row] else [])
    ensures row.treeId != treeId ==> MaxVersion(artifacts + [row], treeId) == MaxVersion(artifacts, treeId)
  {
  }

  /** In any table at all, the maximum is the largest version the tree has, so the one after it is free. */
  lemma {:induction false} MaxVersionIsLargest(artifacts: seq<Artifact>, treeId: nat)
    ensures forall a :: a in artifacts && a.treeId == treeId && a.version.Some? ==> a.version.value <= MaxVersion(artifacts, treeId)
    ensures MaxVersion(artifacts, treeId) > 0 ==>
      exists a :: a in artifacts && a.treeId == treeId && a.version == Some(MaxVersion(artifacts, treeId))
    ensures VersionFree(artifacts, treeId, MaxVersion(artifacts, treeId) + 1)
  {
    if artifacts != [] {
      var n := |artifacts| - 1;
      MaxVersionIsLargest(artifacts[..n], treeId);
      assert artifacts[n] in artifacts;
      forall a | a in artifacts && a.treeId == treeId && a.version.Some? ensures a.version.value <= MaxVersion(artifacts, treeId) {
        assert a in artifacts[..n] || a == artifacts[n];
      }
    }
  }

  /** The maximum is the length of the history when its versions count from one. */
  lemma {:induction false} MaxIsCount(artifacts: seq<Artifact>, treeId: nat)
    requires forall k :: 0 <= k < |History(artifacts, treeId)| ==> History(artifacts, treeId)[k].version == Some(k + 1)
    ensures MaxVersion(artifacts, treeId) == |History(artifacts, treeId)|
  {
    if artifacts != [] {
      var before, last := artifacts[..|artifacts| - 1], artifacts[|artifacts| - 1];
      var h := History(before, treeId);
      forall k | 0 <= k < |h| ensures h[k].version == Some(k + 1) {
        assert History(artifacts, treeId)[k] == h[k];
      }
      MaxIsCount(before, treeId);
      if last.treeId == treeId && last.version.Some? {
        assert History(artifacts, treeId)[|h|] == last;
      }
    }
  }

  /** A tree's current artifact is the row whose key it stores, and only if that row is its own. */
  lemma CurrentIsOwn(artifacts: seq<Artifact>, treeId: nat, pointer: Option<nat>, a: Artifact)
    requires KeysDistinct(artifacts)
    ensures LoadCurrent(artifacts, treeId, pointer) == Some(a) <==> a in artifacts && a.treeId == treeId && pointer == Some(a.id)
  {
    if pointer.Some? {
      FindIsIn(artifacts, pointer.value);
    }
    if a in artifacts {
      FindSome(artifacts, a);
    }
  }

  lemma CurrentIsLast(d: Digests, artifacts: seq<Artifact>, treeId: nat, pointer: Option<nat>)
    requires KeysDistinct(artifacts) && RowsOk(d, artifacts, treeId, pointer)
    ensures var h := History(artifacts, treeId);
      LoadCurrent(artifacts, treeId, pointer) == if pointer.Some? then Some(h[|h| - 1]) else None
  {
    var h := History(artifacts, treeId);
    if pointer.Some? {
      HistoryExactly(artifacts, treeId, h[|h| - 1]);
      FindSome(artifacts, h[|h| - 1]);
    }
  }

  lemma NextVersionIsFree(d: Digests, artifacts: seq<Artifact>, treeId: nat, pointer: Option<nat>)
    requires RowsOk(d, artifacts, treeId, pointer)
    ensures MaxVersion(artifacts, treeId) == |History(artifacts, treeId)|
    ensures VersionFree(artifacts, treeId, MaxVersion(artifacts, treeId) + 1)
  {
    hide Stamped;
    MaxIsCount(artifacts, treeId);
    var h := History(artifacts, treeId);
    forall a | a in artifacts && a.treeId == treeId ensures a.version != Some(|h| + 1) {
      HistoryExactly(artifacts, treeId, a);
    }
  }

  lemma AppendedIsFound(artifacts: seq<Artifact>, row: Artifact)
    ensures Find(artifacts + [row], row.id) == Some(row)
  {
  }

  /** Neither the unique index nor the pointer trigger ever refuses a publication. */
  lemma GuardsNeverFire(d: Digests, artifacts: seq<Artifact>, treeId: nat, tree: Tree, c: Content, id: nat)
    requires RowsOk(d, artifacts, treeId, tree.pointer)
    ensures Publish(d, artifacts, treeId, tree, c, id).Err? ==>
      var e := Publish(d, artifacts, treeId, tree, c, id).error; e.UnreadableGraph? || e.GraphChanged? || e.BadIdentity?
  {
    hide RowsOk, MaxVersion, ComputeStamp, VersionFree;
    NextVersionIsFree(d, artifacts, treeId, tree.pointer);
    var candidate := CandidateRow(treeId, id, c);
    if ComputeStamp(d, candidate).Ok? {
      var stamp := ComputeStamp(d, candidate).value;
      var version := MaxVersion(artifacts, treeId) + 1;
      AppendedIsFound(artifacts, candidate.(irHash := Some(stamp.irHash), artifactHash := Some(stamp.artifactHash), version := Some(version)));
    }
  }

  /**
   A publication succeeds if and only if the stored graph reads, is the one compiled, and the
   content can be stamped; the refusals are told apart in that order.
   */
  lemma PublishSucceedsIff(d: Digests, artifacts: seq<Artifact>, treeId: nat, tree: Tree, c: Content, id: nat)
    requires RowsOk(d, artifacts, treeId, tree.pointer)
    ensures var r := Publish(d, artifacts, treeId, tree, c, id);
      && (r.Ok? <==> tree.saved.Some? && d.ofGraph(tree.saved.value) == c.graphHash && Stampable(d, c))
      && (r == Err(UnreadableGraph) <==> tree.saved.None?)
      && (r == Err(GraphChanged) <==> tree.saved.Some? && d.ofGraph(tree.saved.value) != c.graphHash)
  {
    hide RowsOk, MaxVersion, VersionFree, PointerAllowed, ComputeStamp, Find;
    GuardsNeverFire(d, artifacts, treeId, tree, c, id);
    StampExistsIff(d, CandidateRow(treeId, id, c));
  }

  lemma AppendKeepsRows(d: Digests, artifacts: seq<Artifact>, treeId: nat, pointer: Option<nat>, row: Artifact)
    requires KeysDistinct(artifacts) && RowsOk(d, artifacts, treeId, pointer)
    requires forall a :: a in artifacts ==> a.id != row.id
    requires Stamped(d, row) && row.treeId == treeId && row.version == Some(MaxVersion(artifacts, treeId) + 1)
    ensures KeysDistinct(artifacts + [row]) && RowsOk(d, artifacts + [row], treeId, Some(row.id))
    ensures LoadCurrent(artifacts + [row], treeId, Some(row.id)) == Some(row)
  {
    hide Stamped, Find, MaxVersion;
    HistoryOfAppend(artifacts, row, treeId);
    NextVersionIsFree(d, artifacts, treeId, pointer);
    AppendedIsFound(artifacts, row);
    assert row.version.Some?;
  }

  lemma StampedRow(d: Digests, treeId: nat, id: nat, c: Content, version: nat)
    requires ComputeStamp(d, CandidateRow(treeId, id, c)).Ok?
    ensures var stamp := ComputeStamp(d, CandidateRow(treeId, id, c)).value;
      Stamped(d, CandidateRow(treeId, id, c).(irHash := Some(stamp.irHash), artifactHash := Some(stamp.artifactHash), version := Some(version)))
  {
  }

  /** What a successful publication writes. */
  lemma PublishCases(d: Digests, artifacts: seq<Artifact>, treeId: nat, tree: Tree, c: Content, id: nat)
    requires Publish(d, artifacts, treeId, tree, c, id).Ok?
    ensures tree.saved.Some? && d.ofGraph(tree.saved.value) == c.graphHash && ComputeStamp(d, CandidateRow(treeId, id, c)).Ok?
    ensures var p, stamp := Publish(d, artifacts, treeId, tree, c, id).value, ComputeStamp(d, CandidateRow(treeId, id, c)).value;
      match p.inserted
      case None =>
        && p.tree == tree.(compiled := true)
        && LoadCurrent(artifacts, treeId, tree.pointer) == Some(p.artifact)
        && p.artifact.artifactHash == Some(stamp.artifactHash)
      case Some(row) =>
        && p.artifact == row && p.tree == tree.(pointer := Some(id), compiled := true) && row.id == id
        && row == CandidateRow(treeId, id, c).(irHash := Some(stamp.irHash),
                                                  artifactHash := Some(stamp.artifactHash), version := Some(MaxVersion(artifacts, treeId) + 1))
        && (LoadCurrent(artifacts, treeId, tree.pointer).Some? ==>
              LoadCurrent(artifacts, treeId, tree.pointer).value.artifactHash != Some(stamp.artifactHash))
  {
    hide LoadCurrent, MaxVersion, VersionFree, PointerAllowed, ComputeStamp;
  }

  /** One publication keeps a tree's rows in order, whichever branch it takes, and leaves the reported artifact current. */
  lemma PublishKeepsRows(d: Digests, artifacts: seq<Artifact>, treeId: nat, tree: Tree, c: Content, id: nat)
    requires KeysDistinct(artifacts) && RowsOk(d, artifacts, treeId, tree.pointer)
    requires forall a :: a in artifacts ==> a.id != id
    requires Publish(d, artifacts, treeId, tree, c, id).Ok?
    ensures var p := Publish(d, artifacts, treeId, tree, c, id).value;
      var longer := artifacts + Inserted(p.inserted);
      && KeysDistinct(longer) && RowsOk(d, longer, treeId, p.tree.pointer)
      && LoadCurrent(longer, treeId, p.tree.pointer) == Some(p.artifact)
      && Stamped(d, p.artifact) && p.artifact.treeId == treeId
  {
    hide Publish, LoadCurrent, MaxVersion, ComputeStamp, Stamped, RowsOk, KeysDistinct;
    var p := Publish(d, artifacts, treeId, tree, c, id).value;
    PublishCases(d, artifacts, treeId, tree, c, id);
    if p.inserted.Some? {
      StampedRow(d, treeId, id, c, MaxVersion(artifacts, treeId) + 1);
      AppendKeepsRows(d, artifacts, treeId, tree.pointer, p.inserted.value);
    } else {
      CurrentIsStamped(d, artifacts, treeId, tree.pointer);
      assert artifacts + Inserted(p.inserted) == artifacts;
    }
  }

  lemma CurrentIsStamped(d: Digests, artifacts: seq<Artifact>, treeId: nat, pointer: Option<nat>)
    requires KeysDistinct(artifacts) && RowsOk(d, artifacts, treeId, pointer)
    ensures LoadCurrent(artifacts, treeId, pointer).Some? <==> pointer.Some?
    ensures var current := LoadCurrent(artifacts, treeId, pointer);
      current.Some? ==> Stamped(d, current.value) && current.value.treeId == treeId && current.value.version == Some(|History(artifacts, treeId)|)
  {
    hide Stamped, Find;
    CurrentIsLast(d, artifacts, treeId, pointer);
    var h := History(artifacts, treeId);
    if h != [] {
      HistoryExactly(artifacts, treeId, h[|h| - 1]);
    }
  }

  /** With injective digests: the reported artifact has the candidate's content, and a row is inserted exactly when the current one has not. */
  lemma PublishReportsCandidate(d: Digests, artifacts: seq<Artifact>, treeId: nat, tree: Tree, c: Content, id: nat)
    requires Faithful(d) && KeysDistinct(artifacts) && RowsOk(d, artifacts, treeId, tree.pointer)
    requires Publish(d, artifacts, treeId, tree, c, id).Ok?
    ensures var p := Publish(d, artifacts, treeId, tree, c, id).value;
      var current := LoadCurrent(artifacts, treeId, tree.pointer);
      && ContentOf(p.artifact) == c
      && (p.inserted.None? <==> current.Some? && ContentOf(current.value) == c)
  {
    hide Publish, LoadCurrent, MaxVersion, ComputeStamp, RowsOk, KeysDistinct;
    var p := Publish(d, artifacts, treeId, tree, c, id).value;
    PublishCases(d, artifacts, treeId, tree, c, id);
    CurrentIsStamped(d, artifacts, treeId, tree.pointer);
    var current, candidate := LoadCurrent(artifacts, treeId, tree.pointer), CandidateRow(treeId, id, c);
    if current.Some? {
      SameHashIffSameContent(d, current.value, candidate);
    }
  }

  /** Each publication of other content than the current adds one version; the same content adds none. */
  lemma PublishCountsVersions(d: Digests, artifacts: seq<Artifact>, treeId: nat, tree: Tree, c: Content, id: nat)
    requires Faithful(d) && KeysDistinct(artifacts) && RowsOk(d, artifacts, treeId, tree.pointer)
    requires Publish(d, artifacts, treeId, tree, c, id).Ok?
    ensures var p := Publish(d, artifacts, treeId, tree, c, id).value;
      var current := LoadCurrent(artifacts, treeId, tree.pointer);
      |History(artifacts + Inserted(p.inserted), treeId)|
        == |History(artifacts, treeId)| + (if current.Some? && ContentOf(current.value) == c then 0 else 1)
  {
    hide Publish, LoadCurrent, MaxVersion, ComputeStamp, RowsOk, KeysDistinct, Faithful, History;
    var p := Publish(d, artifacts, treeId, tree, c, id).value;
    PublishCases(d, artifacts, treeId, tree, c, id);
    PublishReportsCandidate(d, artifacts, treeId, tree, c, id);
    if p.inserted.Some? {
      HistoryOfAppend(artifacts, p.inserted.value, treeId);
    } else {
      assert artifacts + [] == artifacts;
    }
  }

  /** Publishing the same content again inserts nothing and reports the same row. */
  lemma RedeployIsIdempotent(d: Digests, artifacts: seq<Artifact>, treeId: nat, tree: Tree, c: Content, id: nat, again: nat)
    requires KeysDistinct(artifacts) && RowsOk(d, artifacts, treeId, tree.pointer)
    requires forall a :: a in artifacts ==> a.id != id
    requires Publish(d, artifacts, treeId, tree, c, id).Ok?
    ensures var p := Publish(d, artifacts, treeId, tree, c, id).value;
      Publish(d, artifacts + Inserted(p.inserted), treeId, p.tree, c, again) == Ok(Publication(p.tree, None, p.artifact))
  {
    hide LoadCurrent, MaxVersion, ComputeStamp, RowsOk, KeysDistinct, VersionFree, PointerAllowed, Stamped;
    PublishCases(d, artifacts, treeId, tree, c, id);
    PublishKeepsRows(d, artifacts, treeId, tree, c, id);
    StampIgnoresKey(d, CandidateRow(treeId, id, c), CandidateRow(treeId, again, c));
  }

  // The state of a row.

  datatype RowState = NotBuilt | Live | Stale

  function ToolsRowState(d: Digests, tree: Tree, artifact: Option<Artifact>): RowState {
    if !tree.compiled || artifact.None? then NotBuilt
    else if tree.saved.None? then NotBuilt
    else if d.ofGraph(tree.saved.value) != artifact.value.graphHash then Stale
    else Live
  }

  /** A row reads as built exactly when it was compiled, has a current artifact and a readable graph; then the graph's hash decides. */
  lemma RowStateIff(d: Digests, tree: Tree, artifact: Option<Artifact>)
    ensures ToolsRowState(d, tree, artifact) == NotBuilt <==> !(tree.compiled && artifact.Some? && tree.saved.Some?)
    ensures ToolsRowState(d, tree, artifact) == Live <==>
      tree.compiled && artifact.Some? && tree.saved.Some? && d.ofGraph(tree.saved.value) == artifact.value.graphHash
  {
  }

  /** A successful publication leaves the row live. */
  lemma PublishedIsLive(d: Digests, artifacts: seq<Artifact>, treeId: nat, tree: Tree, c: Content, id: nat)
    requires Faithful(d) && KeysDistinct(artifacts) && RowsOk(d, artifacts, treeId, tree.pointer)
    requires forall a :: a in artifacts ==> a.id != id
    requires Publish(d, artifacts, treeId, tree, c, id).Ok?
    ensures var p := Publish(d, artifacts, treeId, tree, c, id).value;
      ToolsRowState(d, p.tree, LoadCurrent(artifacts + Inserted(p.inserted), treeId, p.tree.pointer)) == Live
  {
    hide LoadCurrent, MaxVersion, ComputeStamp, RowsOk, KeysDistinct, Publish, Stamped, Faithful;
    PublishCases(d, artifacts, treeId, tree, c, id);
    PublishKeepsRows(d, artifacts, treeId, tree, c, id);
    PublishReportsCandidate(d, artifacts, treeId, tree, c, id);
  }

  // The batch loader.

  method RowsById(artifacts: seq<Artifact>, ids: set<nat>) returns (byId: map<nat, Artifact>)
    ensures forall id :: id in byId <==> id in ids && Find(artifacts, id).Some?
    ensures forall id :: id in byId ==> Find(artifacts, id) == Some(byId[id])
  {
    byId := map[];
    for k := 0 to |artifacts|
      invariant forall id :: id in byId <==> id in ids && Find(artifacts[..k], id).Some?
      invariant forall id :: id in byId ==> Find(artifacts[..k], id) == Some(byId[id])
    {
      assert artifacts[..k + 1][..k] == artifacts[..k];
      if artifacts[k].id in ids {
        byId := byId[artifacts[k].id := artifacts[k]];
      }
    }
    assert artifacts[..|artifacts|] == artifacts;
  }

  method LoadCurrentForTrees(artifacts: seq<Artifact>, trees: seq<(nat, Tree)>) returns (out: map<nat, Artifact>)
    requires forall i, j :: 0 <= i < j < |trees| && trees[i].0 == trees[j].0 ==> trees[i] == trees[j]
    ensures forall i :: 0 <= i < |trees| ==>
      var current := LoadCurrent(artifacts, trees[i].0, trees[i].1.pointer);
      if current.Some? then trees[i].0 in out && out[trees[i].0] == current.value else trees[i].0 !in out
    ensures forall id :: id in out ==> exists i :: 0 <= i < |trees| && trees[i].0 == id
  {
    hide History, MaxVersion;
    out := map[];
    var byId := RowsById(artifacts, set i | 0 <= i < |trees| && trees[i].1.pointer.Some? :: trees[i].1.pointer.value);
    for k := 0 to |trees|
      invariant forall i :: 0 <= i < k ==>
        var current := LoadCurrent(artifacts, trees[i].0, trees[i].1.pointer);
        if current.Some? then trees[i].0 in out && out[trees[i].0] == current.value else trees[i].0 !in out
      invariant forall id :: id in out ==> exists i :: 0 <= i < k && trees[i].0 == id
    {
      var (id, tree) := trees[k];
      if tree.pointer.Some? && tree.pointer.value in byId && byId[tree.pointer.value].treeId == id {
        out := out[id := byId[tree.pointer.value]];
      }
    }
  }

  // The migration that stamped the rows published before stamps existed: then one row a tree at most.

  function CountOf(artifacts: seq<Artifact>, treeId: nat): nat {
    if artifacts == [] then 0
    else CountOf(artifacts[..|artifacts| - 1], treeId) + (if artifacts[|artifacts| - 1].treeId == treeId then 1 else 0)
  }

  function Backfilled(d: Digests, a: Artifact): Artifact {
    match ComputeStamp(d, a)
    case Err(_) => a
    case Ok(stamp) => a.(irHash := Some(stamp.irHash), artifactHash := Some(stamp.artifactHash), version := Some(1))
  }

  /** The row a tree adopts as its current artifact: the last that stamps, when it is the tree's only row. */
  function Adopted(d: Digests, all: seq<Artifact>, rows: seq<Artifact>, treeId: nat): Option<nat> {
    if rows == [] then None
    else
      var last := rows[|rows| - 1];
      if last.treeId == treeId && CountOf(all, treeId) == 1 && ComputeStamp(d, last).Ok? then Some(last.id)
      else Adopted(d, all, rows[..|rows| - 1], treeId)
  }

  /** A tree adopts a row only if that row is its own, can be stamped and is the only one, whatever the table. */
  lemma {:induction false} AdoptedIsOnly(d: Digests, all: seq<Artifact>, rows: seq<Artifact>, treeId: nat)
    ensures Adopted(d, all, rows, treeId).Some? ==>
      && CountOf(all, treeId) == 1
      && exists a :: a in rows && a.treeId == treeId && ComputeStamp(d, a).Ok? && Adopted(d, all, rows, treeId) == Some(a.id)
  {
    hide ComputeStamp, CountOf;
    if rows != [] {
      assert rows[|rows| - 1] in rows;
      AdoptedIsOnly(d, all, rows[..|rows| - 1], treeId);
    }
  }

  method CountPerTree(rows: seq<Artifact>) returns (perTree: map<nat, nat>)
    ensures forall t :: (if t in perTree then perTree[t] else 0) == CountOf(rows, t)
  {
    perTree := map[];
    for k := 0 to |rows|
      invariant forall t :: (if t in perTree then perTree[t] else 0) == CountOf(rows[..k], t)
    {
      assert rows[..k + 1][..k] == rows[..k];
      var t := rows[k].treeId;
      perTree := perTree[t := (if t in perTree then perTree[t] else 0) + 1];
    }
    assert rows[..|rows|] == rows;
  }

  method SetPointers(trees: map<nat, Tree>, pointers: map<nat, nat>) returns (updated: map<nat, Tree>)
    ensures updated.Keys == trees.Keys
    ensures forall t :: t in trees ==> updated[t] == if t in pointers then trees[t].(pointer := Some(pointers[t])) else trees[t]
  {
    updated := trees;
    var todo := pointers.Keys;
    while todo != {}
      invariant todo <= pointers.Keys && updated.Keys == trees.Keys
      invariant forall t :: t in trees ==>
        updated[t] == if t in pointers && t !in todo then trees[t].(pointer := Some(pointers[t])) else trees[t]
      decreases todo
    {
      var t :| t in todo;
      if t in updated {
        updated := updated[t := updated[t].(pointer := Some(pointers[t]))];
      }
      todo := todo - {t};
    }
  }

  method BackfillArtifactIdentity(d: Digests, rows: seq<Artifact>, trees: map<nat, Tree>)
    returns (stamped: seq<Artifact>, updated: map<nat, Tree>)
    requires forall t :: t in trees ==> trees[t].pointer.None?
    ensures |stamped| == |rows| && forall k :: 0 <= k < |rows| ==> stamped[k] == Backfilled(d, rows[k])
    ensures updated.Keys == trees.Keys
    ensures forall t :: t in trees ==> updated[t] == trees[t].(pointer := Adopted(d, rows, rows, t))
  {
    hide ComputeStamp, CountOf;
    var perTree := CountPerTree(rows);
    stamped := rows;
    var adoptedByTree: map<nat, nat> := map[];
    for k := 0 to |rows|
      invariant |stamped| == |rows|
      invariant forall i :: 0 <= i < |rows| ==> stamped[i] == if i < k then Backfilled(d, rows[i]) else rows[i]
      invariant forall t :: Adopted(d, rows, rows[..k], t) == if t in adoptedByTree then Some(adoptedByTree[t]) else None
    {
      assert rows[..k + 1][..k] == rows[..k];
      var row := rows[k];
      var stamp := ComputeStamp(d, row);
      if stamp.Ok? {
        stamped := stamped[k := row.(irHash := Some(stamp.value.irHash), artifactHash := Some(stamp.value.artifactHash), version := Some(1))];
        if (if row.treeId in perTree then perTree[row.treeId] else 0) == 1 {
          adoptedByTree := adoptedByTree[row.treeId := row.id];
        }
      }
    }
    assert rows[..|rows|] == rows;
    updated := SetPointers(trees, adoptedByTree);
  }

  predicate BeforeStamps(rows: seq<Artifact>) {
    && KeysDistinct(rows)
    && (forall i, j :: 0 <= i < j < |rows| ==> rows[i].treeId != rows[j].treeId)
    && (forall k :: 0 <= k < |rows| ==> rows[k].version.None?)
  }

  lemma {:induction false} CountOfUnique(rows: seq<Artifact>, treeId: nat)
    requires forall i, j :: 0 <= i < j < |rows| ==> rows[i].treeId != rows[j].treeId
    ensures CountOf(rows, treeId) == if exists k :: 0 <= k < |rows| && rows[k].treeId == treeId then 1 else 0
  {
    if rows != [] {
      CountOfUnique(rows[..|rows| - 1], treeId);
    }
  }

  /** After it every tree's rows are in order: version 1 with a pointer to it, or an unstampable row and no pointer. */
  lemma {:induction false} BackfillStartsHistory(d: Digests, all: seq<Artifact>, rows: seq<Artifact>, stamped: seq<Artifact>, treeId: nat)
    requires BeforeStamps(all) && rows <= all
    requires |stamped| == |rows| && forall k :: 0 <= k < |rows| ==> stamped[k] == Backfilled(d, rows[k])
    ensures RowsOk(d, stamped, treeId, Adopted(d, all, rows, treeId))
    ensures |History(stamped, treeId)| <= 1
    ensures (forall k :: 0 <= k < |rows| ==> rows[k].treeId != treeId) ==> History(stamped, treeId) == []
  {
    if rows != [] {
      var n := |rows| - 1;
      BackfillStartsHistory(d, all, rows[..n], stamped[..n], treeId);
      CountOfUnique(all, treeId);
      if rows[n].treeId == treeId {
        assert all[n] == rows[n];
        assert History(stamped[..n], treeId) == [];
        StampIgnoresKey(d, rows[n], stamped[n]);
      }
    }
  }
}
