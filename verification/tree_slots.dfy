/**
 Decision-tree slots of one Free account: draft creation and the two fixture loaders. Every creator
 takes the account's advisory lock, which blocks, before it counts, and holds it until it commits
 or rolls back; versioning, archiving and deleting trees do not take it.
 */
module TreeSlots {
  import opened Results

  datatype Fixture = Sample | Acme

  /** `active` is current and not archived; `root` has no parent version. */
  datatype Row = Row(key: Option<Fixture>, active: bool, root: bool, dormant: bool, listed: bool)

  type Rows = map<nat, Row>

  predicate IsLiveRoot(r: Row) {
    r.active && r.root && !r.dormant
  }

  function LiveRoots(rows: Rows): nat {
    |LiveRootIds(rows)|
  }

  function LiveRootIds(rows: Rows): set<nat> {
    set x | x in rows && IsLiveRoot(rows[x])
  }

  predicate HasRoom(rows: Rows, cap: nat) {
    LiveRoots(rows) + 1 <= cap
  }

  predicate OnePerKey(rows: Rows) {
    forall x, y :: x in rows && y in rows && rows[x].key.Some? && rows[x].key == rows[y].key ==> x == y
  }

  predicate KeyFree(rows: Rows, key: Fixture) {
    forall x :: x in rows ==> rows[x].key != Some(key)
  }

  function NewRow(key: Option<Fixture>): Row {
    Row(key, true, true, false, key.Some?)
  }

  function Restored(r: Row): Row {
    r.(active := true, listed := true)
  }

  // One call alone.

  datatype LoadError = QuotaExceeded | DeployFailed

  datatype Loaded = Loaded(rows: Rows, result: Result<nat, LoadError>)

  /**
   What a loader does to the rows when it finds `existing` under the lock: `id` is the key drawn for
   a new row, and `deployable` says whether the compile it needs, if any, succeeds.
   */
  function Load(rows: Rows, cap: nat, key: Fixture, existing: Option<nat>, deployable: bool, id: nat): Loaded
    requires existing.Some? ==> existing.value in rows
  {
    if existing.Some? then
      if key == Acme && !rows[existing.value].active && !HasRoom(rows, cap) then Loaded(rows, Err(QuotaExceeded))
      else if !deployable then Loaded(rows, Err(DeployFailed))
      else Loaded(rows[existing.value := Restored(rows[existing.value])], Ok(existing.value))
    else if !HasRoom(rows, cap) then Loaded(rows, Err(QuotaExceeded))
    else if !deployable then Loaded(rows, Err(DeployFailed))
    else Loaded(rows[id := NewRow(Some(key))], Ok(id))
  }

  predicate FoundUnder(rows: Rows, key: Fixture, existing: Option<nat>) {
    if existing.Some? then existing.value in rows && rows[existing.value].key == Some(key) else KeyFree(rows, key)
  }

  class Account {
    const cap: nat
    var rows: Rows

    method Find(key: Fixture) returns (existing: Option<nat>)
      ensures FoundUnder(rows, key, existing)
    {
      var matches := set x | x in rows && rows[x].key == Some(key);
      if matches == {} {
        assert forall x :: x in rows && rows[x].key == Some(key) ==> x in matches;
        return None;
      }
      var x :| x in matches;
      return Some(x);
    }

    method EnsureAcmeExampleTree(deployable: bool, id: nat) returns (r: Result<nat, LoadError>, ghost found: Option<nat>)
      requires id !in rows && OnePerKey(rows)
      modifies this
      ensures FoundUnder(old(rows), Acme, found) && Loaded(rows, r) == Load(old(rows), cap, Acme, found, deployable, id)
    {
      var allowed := HasRoom(rows, cap);
      var existing := Find(Acme);
      if existing.Some? {
        var tree := rows[existing.value];
        if !tree.active && !allowed {
          return Err(QuotaExceeded), existing;
        }
        if !deployable {
          return Err(DeployFailed), existing;
        }
        EnsureLiveAndListed(existing.value);
        return Ok(existing.value), existing;
      }
      if !allowed {
        return Err(QuotaExceeded), existing;
      }
      if !deployable {
        return Err(DeployFailed), existing;
      }
      rows := rows[id := NewRow(Some(Acme))];
      return Ok(id), existing;
    }

    method EnsureSampleTree(deployable: bool, id: nat) returns (r: Result<nat, LoadError>, ghost found: Option<nat>)
      requires id !in rows && OnePerKey(rows)
      modifies this
      ensures FoundUnder(old(rows), Sample, found) && Loaded(rows, r) == Load(old(rows), cap, Sample, found, deployable, id)
    {
      var allowed := HasRoom(rows, cap);
      var existing := Find(Sample);
      if existing.Some? {
        if !deployable {
          return Err(DeployFailed), existing;
        }
        EnsureLiveAndListed(existing.value);
        return Ok(existing.value), existing;
      }
      if !allowed {
        return Err(QuotaExceeded), existing;
      }
      if !deployable {
        return Err(DeployFailed), existing;
      }
      rows := rows[id := NewRow(Some(Sample))];
      return Ok(id), existing;
    }

    method EnsureLiveAndListed(tree: nat)
      requires tree in rows
      modifies this
      ensures rows == old(rows)[tree := Restored(old(rows)[tree])]
    {
      if !rows[tree].active {
        rows := rows[tree := rows[tree].(active := true)];
      }
      if !rows[tree].listed {
        rows := rows[tree := rows[tree].(listed := true)];
      }
    }
  }

  lemma OneMoreRow(rows: Rows, x: nat, r: Row)
    ensures LiveRoots(rows[x := r])
      == LiveRoots(rows) + (if IsLiveRoot(r) && !(x in rows && IsLiveRoot(rows[x])) then 1 else 0)
         - (if !IsLiveRoot(r) && x in rows && IsLiveRoot(rows[x]) then 1 else 0)
  {
    var ids := LiveRootIds(rows);
    assert LiveRootIds(rows[x := r]) == if IsLiveRoot(r) then ids + {x} else ids - {x};
  }

  /** The one way a loader passes the cap: restoring an inactive sample at a full account. */
  predicate UncheckedRestore(rows: Rows, cap: nat, key: Fixture, existing: Option<nat>)
    requires existing.Some? ==> existing.value in rows
  {
    && key == Sample && existing.Some? && !HasRoom(rows, cap)
    && var r := rows[existing.value]; !r.active && r.root && !r.dormant
  }

  /** A load exceeds the cap, and the count it found, if and only if it is an unchecked restore that goes through. */
  lemma LoadExceedsCapIff(rows: Rows, cap: nat, key: Fixture, existing: Option<nat>, deployable: bool, id: nat)
    requires FoundUnder(rows, key, existing) && id !in rows
    ensures var after := LiveRoots(Load(rows, cap, key, existing, deployable, id).rows);
      (after > cap && after > LiveRoots(rows)) <==> (deployable && UncheckedRestore(rows, cap, key, existing))
  {
    if existing.Some? {
      OneMoreRow(rows, existing.value, Restored(rows[existing.value]));
    }
    OneMoreRow(rows, id, NewRow(Some(key)));
  }

  /** Loading again after a successful load changes nothing and gives the same tree. */
  lemma LoadIsIdempotent(rows: Rows, cap: nat, key: Fixture, existing: Option<nat>, id: nat, again: Option<nat>, id2: nat)
    requires OnePerKey(rows) && FoundUnder(rows, key, existing) && id !in rows
    requires Load(rows, cap, key, existing, true, id).result.Ok?
    requires FoundUnder(Load(rows, cap, key, existing, true, id).rows, key, again)
    ensures var once := Load(rows, cap, key, existing, true, id);
      && OnePerKey(once.rows) && Load(once.rows, cap, key, again, true, id2) == once
      && IsActiveAndListed(once.rows, once.result.value)
  {
    var once := Load(rows, cap, key, existing, true, id);
    var tree := once.result.value;
    assert once.rows[tree].key == Some(key);
    assert again == Some(tree);
    assert once.rows[tree := Restored(once.rows[tree])] == once.rows;
  }

  predicate IsActiveAndListed(rows: Rows, x: nat) {
    x in rows && rows[x].active && rows[x].listed
  }

  // Interleaved calls.

  datatype Call = CreateDraft | LoadFixture(key: Fixture)

  /** A restore activates the row only when it was found inactive. */
  datatype Change = Insert(id: nat, row: Row) | Restore(id: nat, activates: bool)

  /** `Recovering` is the branch that handles an IntegrityError on insert. */
  datatype Phase =
    | Reserved(call: Call, allowed: bool)
    | Found(call: Call, allowed: bool, existing: Option<nat>, wasActive: bool)
    | Written(call: Call, change: Change)
    | Recovering(call: Call)

  datatype State = State(rows: Rows, holder: Option<(nat, Phase)>)

  datatype Event =
    | Reserve(worker: nat, call: Call)
    | Find(worker: nat, existing: Option<nat>)
    | Write(worker: nat, id: nat)
    | Commit(worker: nat)
    | Abort(worker: nat)
    | Deactivate(tree: nat)
    | Delete(tree: nat)

  predicate Has(s: State, w: nat) {
    s.holder.Some? && s.holder.value.0 == w
  }

  function Enter(s: State, w: nat, p: Phase): State {
    s.(holder := Some((w, p)))
  }

  function Leave(s: State): State {
    s.(holder := None)
  }

  function InsertRow(s: State, w: nat, call: Call, key: Option<Fixture>, id: nat): State {
    if key.Some? && !KeyFree(s.rows, key.value) then Enter(s, w, Recovering(call))
    else Enter(s, w, Written(call, Insert(id, NewRow(key))))
  }

  function Apply(cap: nat, s: State, e: Event): State {
    match e
    case Reserve(w, call) => if s.holder.None? then Enter(s, w, Reserved(call, HasRoom(s.rows, cap))) else s
    case Find(w, existing) =>
      if Has(s, w) && s.holder.value.1.Reserved? && s.holder.value.1.call.LoadFixture?
         && FoundUnder(s.rows, s.holder.value.1.call.key, existing)
      then Enter(s, w, Found(s.holder.value.1.call, s.holder.value.1.allowed, existing, existing.Some? && s.rows[existing.value].active)) else s
    case Write(w, id) =>
      if !Has(s, w) || id in s.rows then s
      else
        (match s.holder.value.1
         case Reserved(call, allowed) =>
           if call.LoadFixture? then s
           else if allowed then InsertRow(s, w, call, None, id)
           else Leave(s)
         case Found(call, allowed, existing, wasActive) =>
           if call.CreateDraft? then s
           else if existing.Some? then
             if existing.value !in s.rows || (call.key == Acme && !wasActive && !allowed) then Leave(s)
             else Enter(s, w, Written(call, Restore(existing.value, !wasActive)))
           else if allowed then InsertRow(s, w, call, Some(call.key), id)
           else Leave(s)
         case _ => s)
    case Commit(w) =>
      if Has(s, w) && s.holder.value.1.Written? then
        match s.holder.value.1.change
        case Insert(id, row) => if id in s.rows then Leave(s) else Leave(s.(rows := s.rows[id := row]))
        case Restore(x, activates) =>
          if x in s.rows then Leave(s.(rows := s.rows[x := if activates then Restored(s.rows[x]) else s.rows[x].(listed := true)])) else Leave(s)
      else s
    case Abort(w) => if Has(s, w) then Leave(s) else s
    case Deactivate(x) => if x in s.rows then s.(rows := s.rows[x := s.rows[x].(active := false)]) else s
    case Delete(x) => s.(rows := s.rows - {x})
  }

  function Run(cap: nat, s: State, events: seq<Event>): State {
    if events == [] then s else Apply(cap, Run(cap, s, events[..|events| - 1]), events[|events| - 1])
  }

  /** The commit that goes past the cap: a sample restored while it is inactive and the account full. */
  predicate CommitsUncheckedRestore(cap: nat, s: State, e: Event) {
    && e.Commit? && Has(s, e.worker) && s.holder.value.1.Written?
    && s.holder.value.1.call == LoadFixture(Sample)
    && s.holder.value.1.change.Restore? && s.holder.value.1.change.activates
    && s.holder.value.1.change.id in s.rows
    && FillsSlot(s.rows[s.holder.value.1.change.id]) && !HasRoom(s.rows, cap)
  }

  predicate FillsSlot(r: Row) {
    !r.active && r.root && !r.dormant
  }

  /** What the holder of the lock may still rely on, whatever the others did meanwhile. */
  predicate HolderOk(cap: nat, rows: Rows, p: Phase) {
    match p
    case Reserved(_, allowed) => allowed ==> HasRoom(rows, cap)
    case Found(call, allowed, existing, wasActive) =>
      && call.LoadFixture? && (allowed ==> HasRoom(rows, cap))
      && (if existing.Some? then existing.value in rows ==> rows[existing.value].key == Some(call.key) else KeyFree(rows, call.key))
    case Written(call, Insert(_, row)) =>
      && row == NewRow(if call.LoadFixture? then Some(call.key) else None)
      && HasRoom(rows, cap) && (call.LoadFixture? ==> KeyFree(rows, call.key))
    case Written(call, Restore(x, activates)) =>
      call.LoadFixture? && (call.key == Acme && activates ==> HasRoom(rows, cap))
    case Recovering(_) => false
  }

  predicate Inv(cap: nat, s: State) {
    OnePerKey(s.rows) && (s.holder.Some? ==> HolderOk(cap, s.rows, s.holder.value.1))
  }

  lemma FewerRows(rows: Rows, x: nat, cap: nat)
    ensures LiveRoots(rows - {x}) <= LiveRoots(rows) && (HasRoom(rows, cap) ==> HasRoom(rows - {x}, cap))
  {
    var less := LiveRootIds(rows) - {x};
    assert LiveRootIds(rows - {x}) == less;
  }

  /** Trees that go, or stop being current, take nothing from the holder of the lock. */
  lemma OthersKeepInv(cap: nat, s: State, e: Event)
    requires Inv(cap, s) && (e.Deactivate? || e.Delete?)
    ensures Inv(cap, Apply(cap, s, e)) && LiveRoots(Apply(cap, s, e).rows) <= LiveRoots(s.rows)
  {
    hide LiveRoots;
    match e
    case Deactivate(x) =>
      if x in s.rows {
        OneMoreRow(s.rows, x, s.rows[x].(active := false));
      }
    case Delete(x) => FewerRows(s.rows, x, cap);
    case _ =>
  }

  /**
   One step keeps the invariant. It takes the count past the cap, and past where it was, if and only
   if it commits an unchecked restore.
   */
  lemma StepKeepsInv(cap: nat, s: State, e: Event)
    requires Inv(cap, s)
    ensures Inv(cap, Apply(cap, s, e))
    ensures var before, after := LiveRoots(s.rows), LiveRoots(Apply(cap, s, e).rows);
      (after > cap && after > before) <==> CommitsUncheckedRestore(cap, s, e)
  {
    hide LiveRoots, OnePerKey;
    if e.Deactivate? || e.Delete? {
      OthersKeepInv(cap, s, e);
    } else if e.Commit? && Has(s, e.worker) && s.holder.value.1.Written? {
      CommitKeepsInv(cap, s, e.worker);
    }
  }

  lemma CommitKeepsInv(cap: nat, s: State, w: nat)
    requires Inv(cap, s) && Has(s, w) && s.holder.value.1.Written?
    ensures Inv(cap, Apply(cap, s, Commit(w)))
    ensures var before, after := LiveRoots(s.rows), LiveRoots(Apply(cap, s, Commit(w)).rows);
      (after > cap && after > before) <==> CommitsUncheckedRestore(cap, s, Commit(w))
  {
    hide LiveRoots;
    match s.holder.value.1.change
    case Insert(id, row) => OneMoreRow(s.rows, id, row);
    case Restore(x, activates) =>
      if x in s.rows {
        OneMoreRow(s.rows, x, if activates then Restored(s.rows[x]) else s.rows[x].(listed := true));
      }
  }

  /** While one creator holds the lock the others wait: nothing they do moves it, and each step of the holder is its own. */
  lemma OthersWait(cap: nat, s: State, e: Event)
    requires s.holder.Some?
    requires e.Deactivate? || e.Delete? || e.Reserve? || e.worker != s.holder.value.0
    ensures Apply(cap, s, e).holder == s.holder
    ensures !e.Deactivate? && !e.Delete? ==> Apply(cap, s, e) == s
  {
  }

  /** Deactivating or deleting a tree changes no other row, and frees a slot exactly when the tree was a live root. */
  lemma OwnersFreeSlots(cap: nat, s: State, e: Event, x: nat)
    requires e == Deactivate(x) || e == Delete(x)
    ensures var z := Apply(cap, s, e);
      && z.rows - {x} == s.rows - {x} && z.holder == s.holder
      && (x in z.rows <==> x in s.rows && e.Deactivate?)
      && (x in z.rows ==> z.rows[x] == s.rows[x].(active := false))
      && LiveRoots(z.rows) == LiveRoots(s.rows) - (if x in s.rows && IsLiveRoot(s.rows[x]) then 1 else 0)
  {
    var ids := LiveRootIds(s.rows);
    assert LiveRootIds(Apply(cap, s, e).rows) == ids - {x};
  }

  function Larger(a: nat, b: nat): nat {
    if a < b then b else a
  }

  predicate NoUncheckedRestore(cap: nat, s: State, events: seq<Event>) {
    forall n :: 0 <= n < |events| ==> !CommitsUncheckedRestore(cap, Run(cap, s, events[..n]), events[n])
  }

  /**
   Over every interleaving of draft creation and fixture loading in which no inactive sample is
   restored at a full account: the live roots never exceed the cap, or the higher number there was.
   There is at most one tree for each fixture, and the recovery branch is never entered.
   */
  lemma {:induction false} SlotsAreCapped(cap: nat, s: State, events: seq<Event>)
    requires OnePerKey(s.rows) && s.holder.None?
    ensures var z := Run(cap, s, events);
      && OnePerKey(z.rows) && !(z.holder.Some? && z.holder.value.1.Recovering?)
      && (NoUncheckedRestore(cap, s, events) ==> LiveRoots(z.rows) <= Larger(cap, LiveRoots(s.rows)))
      && Inv(cap, z)
  {
    hide Apply, LiveRoots, CommitsUncheckedRestore, OnePerKey;
    if events != [] {
      var n := |events| - 1;
      var before := events[..n];
      SlotsAreCapped(cap, s, before);
      StepKeepsInv(cap, Run(cap, s, before), events[n]);
      if NoUncheckedRestore(cap, s, events) {
        forall k | 0 <= k < n ensures !CommitsUncheckedRestore(cap, Run(cap, s, before[..k]), before[k]) {
          assert before[..k] == events[..k];
        }
      }
    }
  }

  /** Such a restore at a full account: the sample's tree was versioned, three drafts filled the cap, the sample is loaded again. */
  lemma RestoreExceedsCap()
    ensures var full := map[
        0 := Row(Some(Sample), false, true, false, true),
        1 := NewRow(None), 2 := NewRow(None), 3 := NewRow(None)];
      && LiveRoots(full) == 3
      && LiveRoots(Load(full, 3, Sample, Some(0), true, 4).rows) == 4
  {
    var full := map[
      0 := Row(Some(Sample), false, true, false, true),
      1 := NewRow(None), 2 := NewRow(None), 3 := NewRow(None)];
    assert LiveRootIds(full) == {1, 2, 3};
    OneMoreRow(full, 0, Restored(full[0]));
  }

  /** A loader that runs undisturbed does what `Load` says; one whose deploy fails gives up before it commits. */
  lemma LoadAloneIsRun(cap: nat, s: State, key: Fixture, existing: Option<nat>, deployable: bool, w: nat, id: nat)
    requires s.holder.None? && FoundUnder(s.rows, key, existing) && id !in s.rows
    ensures var s1 := Apply(cap, s, Reserve(w, LoadFixture(key)));
      var s2 := Apply(cap, s1, Find(w, existing));
      var s3 := Apply(cap, s2, Write(w, id));
      Apply(cap, s3, if deployable then Commit(w) else Abort(w)) == State(Load(s.rows, cap, key, existing, deployable, id).rows, None)
  {
    if existing.Some? && s.rows[existing.value].active {
      assert s.rows[existing.value].(listed := true) == Restored(s.rows[existing.value]);
    }
  }

  /** A draft created undisturbed is inserted, live and under no fixture's name, exactly when there is room. */
  lemma CreateAloneIsRun(cap: nat, s: State, w: nat, id: nat)
    requires s.holder.None? && id !in s.rows
    ensures var z := Apply(cap, Apply(cap, Apply(cap, s, Reserve(w, CreateDraft)), Write(w, id)), Commit(w));
      && z.holder.None?
      && (id in z.rows <==> LiveRoots(s.rows) < cap)
      && z.rows - {id} == s.rows
      && (id in z.rows ==> IsLiveRoot(z.rows[id]) && z.rows[id].key.None? && !z.rows[id].listed && LiveRoots(z.rows) == LiveRoots(s.rows) + 1)
  {
    hide LiveRoots;
    OneMoreRow(s.rows, id, NewRow(None));
    assert s.rows[id := NewRow(None)] - {id} == s.rows;
    assert s.rows - {id} == s.rows;
  }
}
