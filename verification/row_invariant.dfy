/** Every step of saves and deploys keeps the row locks exclusive, pending writes valid and the tables in order. */
module RowInvariant {
  import opened Results
  import opened DecisionGraph
  import opened ArtifactIdentity
  import opened ArtifactRows
  import opened DraftUpdates
  import opened RowProtocol

  // Each kind of step keeps the invariant.

  lemma WriteKeepsInv(env: Env, s: State, w: nat, id: nat)
    requires Inv(env, s)
    ensures Inv(env, Apply(env, s, Write(w, id)))
  {
    hide RunJob, RowsOk, KeysDistinct;
    var s' := Apply(env, s, Write(w, id));
    forall v | v in s'.workers ensures PendingOk(env, s', v) {
      assert v in s.workers;
      assert PendingOk(env, s, v);
    }
  }

  lemma RecordKeepsInv(env: Env, s: State, t: nat, after: Tree, cause: Cause)
    requires Inv(env, s) && t in s.trees && Unlocked(s, t) && after.pointer == s.trees[t].pointer
    ensures Inv(env, Record(s, t, after, cause))
  {
    hide RunJob, RowsOk, KeysDistinct;
    var s' := Record(s, t, after, cause);
    forall v | v in s'.workers ensures PendingOk(env, s', v) {
      assert PendingOk(env, s, v);
      assert !Holds(s.workers[v], t);
    }
  }

  lemma CommitKeepsInv(env: Env, s: State, w: nat)
    requires Inv(env, s)
    ensures Inv(env, Apply(env, s, Commit(w)))
  {
    hide RunJob, RowsOk, KeysDistinct, EntryOk, LoadCurrent;
    var s' := Apply(env, s, Commit(w));
    if s' != s {
      var p := s.workers[w];
      assert PendingOk(env, s, w);
      JobFacts(env, s.trees[p.tree], p.tree, s.artifacts, p.job, p.id);
      CommitKeepsTables(env, s, p);
      forall v | v in s'.workers ensures PendingOk(env, s', v) {
        assert PendingOk(env, s, v);
        var q := s.workers[v];
        if q.Written? {
          assert !Holds(q, p.tree);
          if p.change.inserted.Some? {
            RunJobStable(env, s.trees[q.tree], q.tree, s.artifacts, q.job, q.id, p.change.inserted.value);
          } else {
            assert s.artifacts + [] == s.artifacts;
          }
        }
      }
    }
  }

  lemma CommitKeepsTables(env: Env, s: State, p: Phase)
    requires TablesOk(env, s) && p.Written? && p.tree in s.trees
    requires RunJob(env, s.trees[p.tree], p.tree, s.artifacts, p.job, p.id) == Some(p.change)
    requires forall a :: a in s.artifacts ==> a.id != p.id
    ensures TablesOk(env, s.(trees := s.trees[p.tree := p.change.tree], artifacts := s.artifacts + Inserted(p.change.inserted)))
  {
    hide RunJob, RowsOk, KeysDistinct, EntryOk, LoadCurrent;
    JobFacts(env, s.trees[p.tree], p.tree, s.artifacts, p.job, p.id);
    forall t | t in s.trees && t != p.tree
      ensures RowsOk(env.digests, s.artifacts + Inserted(p.change.inserted), t, s.trees[t].pointer)
    {
      if p.change.inserted.Some? {
        OtherTreeStable(env.digests, s.artifacts, t, s.trees[t].pointer, p.change.inserted.value);
      } else {
        assert s.artifacts + [] == s.artifacts;
      }
    }
  }

  lemma LocksKeepInv(env: Env, s: State, e: Event)
    requires Inv(env, s) && (e.LockForDeploy? || e.LockForUpdate?)
    ensures Inv(env, Apply(env, s, e))
  {
    hide RunJob, RowsOk, KeysDistinct, ContentFor;
    var s' := Apply(env, s, e);
    if s' != s {
      forall v | v in s'.workers ensures PendingOk(env, s', v) {
        if v != e.worker {
          assert PendingOk(env, s, v);
        }
      }
      forall v, u | v in s'.workers && u in s'.workers && v != u && !s'.workers[u].Prepared?
        ensures !Holds(s'.workers[v], s'.workers[u].tree)
      {
        if v != e.worker && u != e.worker {
          assert !Holds(s.workers[v], s.workers[u].tree);
        } else if u == e.worker {
          assert !Holds(s.workers[v], s'.workers[u].tree);
        } else {
          assert !Holds(s.workers[u], s'.workers[v].tree);
        }
      }
    }
  }

  lemma OtherStepsKeepInv(env: Env, s: State, e: Event)
    requires Inv(env, s) && (e.Prepare? || e.Abort? || e.SaveCorpus?)
    ensures Inv(env, Apply(env, s, e))
  {
    hide RunJob, RowsOk, KeysDistinct, ContentFor;
    var s' := Apply(env, s, e);
    forall v | v in s'.workers ensures PendingOk(env, s', v) {
      if v in s.workers {
        assert PendingOk(env, s, v);
      }
    }
  }

  lemma StepKeepsInv(env: Env, s: State, e: Event)
    requires Inv(env, s)
    ensures Inv(env, Apply(env, s, e))
  {
    hide Inv, Publish;
    match e
    case Write(w, id) => WriteKeepsInv(env, s, w, id);
    case Commit(w) => CommitKeepsInv(env, s, w);
    case EditorSave(t, g) =>
      if t in s.trees && Unlocked(s, t) {
        RecordKeepsInv(env, s, t, s.trees[t].(saved := Some(g)), ByEditor);
      }
    case OwnerFlags(t, archived, public) =>
      if t in s.trees && Unlocked(s, t) {
        RecordKeepsInv(env, s, t, s.trees[t].(archived := archived, publicNowOrBefore := public), ByOwner);
      }
    case LockForDeploy(_) => LocksKeepInv(env, s, e);
    case LockForUpdate(_, _, _) => LocksKeepInv(env, s, e);
    case _ => OtherStepsKeepInv(env, s, e);
  }

  /** Every interleaving of saves and deploys keeps the invariant. */
  lemma {:induction false} RunKeepsInv(env: Env, s: State, events: seq<Event>)
    requires Inv(env, s)
    ensures Inv(env, Run(env, s, events))
  {
    hide Inv, Apply;
    if events != [] {
      RunKeepsInv(env, s, events[..|events| - 1]);
      StepKeepsInv(env, Run(env, s, events[..|events| - 1]), events[|events| - 1]);
    }
  }

  lemma StartKeepsInv(env: Env, s: State)
    requires Starts(env, s)
    ensures Inv(env, s)
  {
  }

  // What the invariant says of the tables.

  /**
   In every reachable state and for every tree: the stamped versions are exactly 1 to n in order of
   publication, the pointer is absent or names version n of the same tree, and recomputing any
   stamp from the stored row gives it back.
   */
  lemma VersionsAndPointer(env: Env, s: State, events: seq<Event>, t: nat)
    requires Starts(env, s) && t in s.trees
    ensures var z := Run(env, s, events);
      var h := History(z.artifacts, t);
      && t in z.trees
      && (forall a :: a in h <==> a in z.artifacts && a.treeId == t && a.version.Some?)
      && (forall k :: 0 <= k < |h| ==> Stamped(env.digests, h[k]) && h[k].version == Some(k + 1))
      && LoadCurrent(z.artifacts, t, z.trees[t].pointer) == (if h == [] then None else Some(h[|h| - 1]))
      && (z.trees[t].pointer.Some? <==> h != [])
  {
    hide Run, Stamped, LocksOk, PendingFresh, PendingOk, History, MaxVersion, LoadCurrent;
    StartKeepsInv(env, s);
    RunKeepsInv(env, s, events);
    RunKeepsTrees(env, s, events);
    var z := Run(env, s, events);
    forall a ensures a in History(z.artifacts, t) <==> a in z.artifacts && a.treeId == t && a.version.Some? {
      HistoryExactly(z.artifacts, t, a);
    }
    CurrentIsLast(env.digests, z.artifacts, t, z.trees[t].pointer);
  }

  lemma StepGrows(env: Env, s: State, e: Event)
    ensures var s' := Apply(env, s, e); s.artifacts <= s'.artifacts && s.log <= s'.log && s.trees.Keys == s'.trees.Keys
  {
    hide RunJob, ContentFor, FreshId, Unlocked;
  }

  lemma {:induction false} RunKeepsTrees(env: Env, s: State, events: seq<Event>)
    ensures Run(env, s, events).trees.Keys == s.trees.Keys
  {
    hide Apply;
    if events != [] {
      RunKeepsTrees(env, s, events[..|events| - 1]);
      StepGrows(env, Run(env, s, events[..|events| - 1]), events[|events| - 1]);
    }
  }

  /** No step changes or removes a published row: each later table extends the earlier one. */
  lemma {:induction false} ArtifactsAreAppendOnly(env: Env, s: State, events: seq<Event>, n: nat)
    requires n <= |events|
    ensures Run(env, s, events[..n]).artifacts <= Run(env, s, events).artifacts
    ensures Run(env, s, events[..n]).log <= Run(env, s, events).log
  {
    hide Apply;
    if n < |events| {
      var before := events[..|events| - 1];
      assert before[..n] == events[..n];
      ArtifactsAreAppendOnly(env, s, before, n);
      StepGrows(env, Run(env, s, before), events[|events| - 1]);
    } else {
      assert events[..n] == events;
    }
  }
}
