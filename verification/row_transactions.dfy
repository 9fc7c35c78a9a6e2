/** Single transactions: what one does by itself, what the others leave of it, and what it leaves when it is refused. */
module RowTransactions {
  import opened Results
  import opened Text
  import opened DecisionGraph
  import opened ArtifactIdentity
  import opened ArtifactRows
  import opened DraftUpdates
  import opened RowProtocol
  import opened RowInvariant

  // Transactions that run undisturbed.

  lemma RunOfThree(env: Env, s: State, e0: Event, e1: Event, e2: Event)
    ensures Run(env, s, [e0, e1, e2]) == Apply(env, Apply(env, Apply(env, s, e0), e1), e2)
  {
    hide Apply;
    assert [e0, e1, e2][..2] == [e0, e1] && [e0, e1][..1] == [e0] && [e0][..0] == [];
    assert Run(env, s, [e0]) == Apply(env, s, e0) && Run(env, s, [e0, e1]) == Apply(env, Apply(env, s, e0), e1);
  }

  /** A draft update by itself writes what `UpdateDraft` says of the row, or nothing. */
  lemma UpdateAloneIsRun(env: Env, s: State, w: nat, t: nat, q: Request, id: nat)
    requires w !in s.workers && t in s.trees && Unlocked(s, t) && FreshId(s, id)
    ensures var r := UpdateDraft(env, Some(s.trees[t]), q);
      Run(env, s, [LockForUpdate(w, t, q), Write(w, id), Commit(w)])
      == if r.Err? then s else s.(trees := s.trees[t := r.value], log := s.log + [Entry(t, s.trees[t], r.value, ByDraft(q))])
  {
    hide UpdateDraft, Run, Unlocked;
    RunOfThree(env, s, LockForUpdate(w, t, q), Write(w, id), Commit(w));
    assert s.workers[w := Locked(t, UpdateJob(q))] - {w} == s.workers;
    var r := UpdateDraft(env, Some(s.trees[t]), q);
    if r.Ok? {
      assert s.workers[w := Locked(t, UpdateJob(q))][w := Written(t, UpdateJob(q), id, Change(r.value, None, None))] - {w} == s.workers;
      assert s.artifacts + [] == s.artifacts;
    }
  }

  /** A deploy by itself publishes what the compiler makes of the saved graph and the corpus, or nothing. */
  lemma DeployAloneIsRun(env: Env, s: State, w: nat, t: nat, id: nat)
    requires w !in s.workers && t in s.trees && s.trees[t].saved.Some? && Unlocked(s, t) && FreshId(s, id)
    ensures var tree, g, corpus := s.trees[t], s.trees[t].saved.value, if t in s.corpora then s.corpora[t] else "";
      var z := Apply(env, Run(env, s, [Prepare(w, t), LockForDeploy(w), Write(w, id)]), Commit(w));
      match env.compile(g, corpus)
      case None => z == s
      case Some(c) =>
        var content := Content(c.ir, env.digests.ofGraph(g), c.compilerVersion, c.irFormat, c.contract, c.contractHash, c.corpusHash);
        match Publish(env.digests, s.artifacts, t, tree, content, id)
        case Err(_) => z == s
        case Ok(p) => z == s.(
          trees := s.trees[t := p.tree],
          artifacts := s.artifacts + Inserted(p.inserted),
          log := s.log + [Entry(t, tree, p.tree, ByDeploy(g, corpus, p.artifact))])
  {
    hide Publish, Run, Unlocked, FreshId, Inserted;
    RunOfThree(env, s, Prepare(w, t), LockForDeploy(w), Write(w, id));
    var g, corpus := s.trees[t].saved.value, CorpusOf(s, t);
    var job := DeployJob(g, corpus);
    var locked := s.(workers := s.workers[w := Locked(t, job)]);
    assert s.workers - {w} == s.workers && locked.workers - {w} == s.workers;
    if ContentFor(env, g, corpus).Some? {
      PreparedLocks(env, s, w, t, job);
      assert s.workers[w := Prepared(t, job)][w := Locked(t, job)] == locked.workers;
      assert Apply(env, Apply(env, s, Prepare(w, t)), LockForDeploy(w)) == locked;
      assert FreshId(locked, id) by {
        SameFreshIds(s, locked, id);
      }
      var r := Publish(env.digests, s.artifacts, t, s.trees[t], ContentFor(env, g, corpus).value, id);
      if r.Ok? {
        var change := Change(r.value.tree, r.value.inserted, Some(r.value.artifact));
        assert locked.workers[w := Written(t, job, id, change)] - {w} == s.workers;
      }
    }
  }

  lemma PreparedLocks(env: Env, s: State, w: nat, t: nat, job: Job)
    requires w !in s.workers && Unlocked(s, t)
    ensures Unlocked(s.(workers := s.workers[w := Prepared(t, job)]), t)
  {
  }

  lemma SameFreshIds(s: State, s': State, id: nat)
    requires FreshId(s, id) && s'.artifacts == s.artifacts
    requires forall w :: w in s'.workers && s'.workers[w].Written? ==> w in s.workers && s'.workers[w] == s.workers[w]
    ensures FreshId(s', id)
  {
  }

  /** A transaction stands until its own worker goes on with it: neither the others nor a new start disturb it. */
  lemma TransactionsStand(env: Env, s: State, e: Event, w: nat)
    requires w in s.workers && !((e.LockForDeploy? || e.Write? || e.Commit? || e.Abort?) && e.worker == w)
    ensures w in Apply(env, s, e).workers && Apply(env, s, e).workers[w] == s.workers[w]
  {
    hide RunJob, ContentFor, Unlocked, FreshId;
  }

  /** Giving a transaction up frees its row and changes no table, whatever it had written. */
  lemma AbortFreesRow(env: Env, s: State, w: nat)
    requires Inv(env, s) && w in s.workers
    ensures var s' := Apply(env, s, Abort(w));
      && w !in s'.workers && SameTables(s, s')
      && (!s.workers[w].Prepared? ==> Unlocked(s', s.workers[w].tree))
  {
    hide PendingOk, RowsOk, KeysDistinct;
  }

  /** A tree whose owner has archived it, or has made it public, takes no draft update. */
  lemma ClosedTreesRefuseUpdates(env: Env, s: State, t: nat, archived: bool, public: bool, q: Request)
    requires t in s.trees && Unlocked(s, t)
    ensures var z := Apply(env, s, OwnerFlags(t, archived, public));
      && z.trees == s.trees[t := s.trees[t].(archived := archived, publicNowOrBefore := public)]
      && (archived || public ==> UpdateDraft(env, Some(z.trees[t]), q).Err?)
      && (!archived && !public && q.user == s.trees[t].author && q.live && !q.pickRequired ==> MayEdit(z.trees[t], q))
  {
    hide Unlocked, Strip, IsHex64, ResolveTitle;
  }

  /** What the owner saved last, graph and corpus, is what the next undisturbed deploy publishes, and the row is live then. */
  lemma EditThenDeploy(env: Env, s: State, w: nat, t: nat, g: Graph, text: string, id: nat)
    requires Inv(env, s) && Faithful(env.digests) && w !in s.workers && t in s.trees && Unlocked(s, t) && FreshId(s, id)
    requires ContentFor(env, g, text).Some? && Stampable(env.digests, ContentFor(env, g, text).value)
    ensures var edited := Apply(env, Apply(env, s, EditorSave(t, g)), SaveCorpus(t, text));
      var z := Apply(env, Run(env, edited, [Prepare(w, t), LockForDeploy(w), Write(w, id)]), Commit(w));
      && t in z.trees && z.trees[t].saved == Some(g) && z.trees[t].compiled
      && |z.log| == |s.log| + 2 && z.log[|s.log|].cause == ByEditor && z.log[|s.log| + 1].cause.ByDeploy?
      && var a := z.log[|s.log| + 1].cause.artifact;
      && ContentOf(a) == ContentFor(env, g, text).value
      && LoadCurrent(z.artifacts, t, z.trees[t].pointer) == Some(a)
      && ToolsRowState(env.digests, z.trees[t], Some(a)) == Live
  {
    hide Publish, Run, Unlocked, FreshId, Inserted, RowsOk, KeysDistinct, LoadCurrent, Stampable, Faithful, PendingOk, LocksOk, PendingFresh;
    var edited := Apply(env, Apply(env, s, EditorSave(t, g)), SaveCorpus(t, text));
    EditKeepsLocks(env, s, t, g, text, id);
    assert edited.trees[t] == s.trees[t].(saved := Some(g)) && edited.corpora[t] == text && edited.artifacts == s.artifacts;
    DeployAloneIsRun(env, edited, w, t, id);
    var content := ContentFor(env, g, text).value;
    PublishSucceedsIff(env.digests, s.artifacts, t, edited.trees[t], content, id);
    assert FreshId(s, id) ==> forall a :: a in s.artifacts ==> a.id != id by {
      FreshKeys(s, id);
    }
    PublishKeepsRows(env.digests, s.artifacts, t, edited.trees[t], content, id);
    PublishedKey(env.digests, s.artifacts, t, edited.trees[t], content, id);
    PublishReportsCandidate(env.digests, s.artifacts, t, edited.trees[t], content, id);
  }

  lemma FreshKeys(s: State, id: nat)
    requires FreshId(s, id)
    ensures forall a :: a in s.artifacts ==> a.id != id
  {
  }

  lemma EditKeepsLocks(env: Env, s: State, t: nat, g: Graph, text: string, id: nat)
    requires t in s.trees && Unlocked(s, t) && FreshId(s, id)
    ensures var edited := Apply(env, Apply(env, s, EditorSave(t, g)), SaveCorpus(t, text));
      Unlocked(edited, t) && FreshId(edited, id) && edited.workers == s.workers
  {
  }

  // What refused work leaves behind.

  predicate SameTables(s: State, s': State) {
    s'.trees == s.trees && s'.artifacts == s.artifacts && s'.log == s.log && s'.corpora == s.corpora
  }

  /**
   A deploy whose graph no longer matches the locked row, and an update whose expected hash does
   not, end without a trace; so does a transaction that is given up. Only a commit changes the tables.
   */
  lemma RefusalsLeaveNoTrace(env: Env, s: State, w: nat, id: nat)
    requires w in s.workers && s.workers[w].Locked? && s.workers[w].tree in s.trees && FreshId(s, id)
    ensures var tree, job := s.trees[s.workers[w].tree], s.workers[w].job;
      var s' := Apply(env, s, Write(w, id));
      && SameTables(s, s') && SameTables(s', Apply(env, s', Abort(w)))
      && ((tree.saved.None?
           || (job.DeployJob? && env.digests.ofGraph(tree.saved.value) != env.digests.ofGraph(job.graph))
           || (job.UpdateJob? && env.digests.ofGraph(tree.saved.value) != Expected(env, job.request))) ==>
            w !in s'.workers && Apply(env, s', Commit(w)) == s')
  {
  }
}
