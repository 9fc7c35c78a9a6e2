/**
 Deleting version families and accounts, statement by statement. Every statement is checked against
 the foreign keys without an ON DELETE action; the tables that cascade or are set to null follow
 their rows and are not shown.
 */
module AccountPurge {
  import opened Collections
  import opened Results
  import opened VersionFamily

  datatype Session = Session(user: nat, tree: nat)

  datatype Memo = Memo(session: nat, user: nat)

  datatype Tables = Tables(
    users: set<nat>,
    trees: Table,
    sessions: map<nat, Session>,
    memos: map<nat, Memo>,
    generations: map<nat, nat>)

  /** The non-cascading foreign keys. */
  predicate KeysHold(db: Tables) {
    && (forall t :: t in db.trees && db.trees[t].author.Some? ==> db.trees[t].author.value in db.users)
    && (forall t :: t in db.trees && db.trees[t].parent.Some? ==> db.trees[t].parent.value in db.trees)
    && (forall s :: s in db.sessions ==> db.sessions[s].user in db.users && db.sessions[s].tree in db.trees)
    && (forall m :: m in db.memos ==> db.memos[m].session in db.sessions && db.memos[m].user in db.users)
    && (forall g :: g in db.generations ==> db.generations[g] in db.users)
  }

  datatype Statement =
    | DeleteMemosOf(sessions: set<nat>)
    | DeleteSessions(sessions: set<nat>)
    | ClearParents(trees: set<nat>)
    | DeleteTrees(trees: set<nat>)
    | DeleteGenerationsOf(user: nat)
    | DeleteUser(user: nat)

  function Effect(db: Tables, st: Statement): Tables {
    match st
    case DeleteMemosOf(sessions) => db.(memos := map m | m in db.memos && db.memos[m].session !in sessions :: db.memos[m])
    case DeleteSessions(sessions) => db.(sessions := db.sessions - sessions)
    case ClearParents(trees) =>
      db.(trees := map t | t in db.trees :: if t in trees then db.trees[t].(parent := None) else db.trees[t])
    case DeleteTrees(trees) => db.(trees := db.trees - trees)
    case DeleteGenerationsOf(user) => db.(generations := map g | g in db.generations && db.generations[g] != user :: db.generations[g])
    case DeleteUser(user) => db.(users := db.users - {user})
  }

  function SessionsOfTrees(db: Tables, trees: set<nat>): set<nat> {
    set s | s in db.sessions && db.sessions[s].tree in trees
  }

  function SessionsOfUser(db: Tables, user: nat): set<nat> {
    set s | s in db.sessions && db.sessions[s].user == user
  }

  /** The tables without some trees, their sessions and those sessions' memos. */
  function WithoutTrees(db: Tables, trees: set<nat>): Tables {
    WithoutSessions(db, SessionsOfTrees(db, trees)).(trees := db.trees - trees)
  }

  function WithoutSessions(db: Tables, sessions: set<nat>): Tables {
    db.(
      sessions := db.sessions - sessions,
      memos := map m | m in db.memos && db.memos[m].session !in sessions :: db.memos[m])
  }

  // Whole families.

  /** A union of version families. */
  predicate WholeFamilies(t: Table, trees: set<nat>)
    requires TableOk(t)
  {
    trees <= t.Keys && forall x, y :: x in t && y in t && Root(t, x) == Root(t, y) && x in trees ==> y in trees
  }

  lemma RemovalKeepsTable(t: Table, trees: set<nat>)
    requires TableOk(t) && WholeFamilies(t, trees)
    ensures TableOk(t - trees)
  {
  }

  lemma {:induction false} RemovalKeepsRoots(t: Table, trees: set<nat>, x: nat)
    requires TableOk(t) && WholeFamilies(t, trees) && TableOk(t - trees) && x in t && x !in trees
    ensures Root(t - trees, x) == Root(t, x)
    decreases t[x].number
  {
    if t[x].parent.Some? {
      ChildSharesRoot(t, x);
      RemovalKeepsRoots(t, trees, t[x].parent.value);
    }
  }

  lemma WithoutTreesKeepsKeys(db: Tables, trees: set<nat>)
    requires KeysHold(db) && TableOk(db.trees) && WholeFamilies(db.trees, trees)
    ensures KeysHold(WithoutTrees(db, trees))
  {
  }

  lemma WithoutTreesTwice(db: Tables, a: set<nat>, b: set<nat>)
    ensures WithoutTrees(WithoutTrees(db, a), b) == WithoutTrees(db, a + b)
  {
  }

  // The statements of one family.

  lemma FamilyIsRootClass(t: Table, a: nat, r: seq<nat>)
    requires TableOk(t) && a in t && IsFamily(t, a, r)
    ensures forall b :: b in Elements(r) <==> b in t && Root(t, b) == Root(t, a)
    ensures WholeFamilies(t, Elements(r))
  {
    hide Root, Connected, Ordered, Distinct;
    forall b ensures b in Elements(r) <==> b in t && Root(t, b) == Root(t, a) {
      assert b in r <==> b in Elements(r);
      if b in t {
        ConnectedIffSameRoot(t, a, b);
      }
    }
  }

  lemma MemosGo(db: Tables, sessions: set<nat>)
    requires KeysHold(db)
    ensures var after := Effect(db, DeleteMemosOf(sessions));
      KeysHold(after) && (sessions == {} ==> after == db) && forall m :: m in after.memos ==> after.memos[m].session !in sessions
  {
  }

  /** Sessions can go exactly when no memo hangs on them. */
  lemma SessionsGo(db: Tables, sessions: set<nat>)
    requires KeysHold(db)
    ensures KeysHold(Effect(db, DeleteSessions(sessions))) <==> forall m :: m in db.memos ==> db.memos[m].session !in sessions
  {
  }

  lemma ParentsGo(db: Tables, trees: set<nat>)
    requires KeysHold(db)
    ensures KeysHold(Effect(db, ClearParents(trees)))
  {
  }

  /** Trees can go exactly when no session runs on them and no version outside them has its parent among them. */
  lemma TreesGo(db: Tables, trees: set<nat>)
    requires KeysHold(db)
    ensures KeysHold(Effect(db, DeleteTrees(trees))) <==>
      && SessionsOfTrees(db, trees) == {}
      && forall t :: t in db.trees && db.trees[t].parent.Some? && db.trees[t].parent.value in trees ==> t in trees
  {
    var after := Effect(db, DeleteTrees(trees));
    if KeysHold(after) {
      forall t | t in db.trees && t !in trees && db.trees[t].parent.Some? ensures db.trees[t].parent.value !in trees {
        assert t in after.trees;
      }
    } else if SessionsOfTrees(db, trees) == {} {
      forall s | s in db.sessions ensures db.sessions[s].tree !in trees {
        assert s !in SessionsOfTrees(db, trees);
      }
    }
  }

  /** The four statements, in their order, and what they add up to. */
  lemma FamilyStatementsPass(db: Tables, family: set<nat>)
    requires KeysHold(db) && TableOk(db.trees) && WholeFamilies(db.trees, family)
    ensures var sessions := SessionsOfTrees(db, family);
      var d1 := Effect(db, DeleteMemosOf(sessions));
      var d2 := Effect(d1, DeleteSessions(sessions));
      var d3 := Effect(d2, ClearParents(family));
      var d4 := Effect(d3, DeleteTrees(family));
      && (sessions == {} ==> d1 == db)
      && KeysHold(d1) && KeysHold(d2) && KeysHold(d3) && KeysHold(d4)
      && d4 == WithoutTrees(db, family)
  {
    hide WholeFamilies, Root, KeysHold;
    var sessions := SessionsOfTrees(db, family);
    MemosGo(db, sessions);
    var d1 := Effect(db, DeleteMemosOf(sessions));
    SessionsGo(d1, sessions);
    var d2 := Effect(d1, DeleteSessions(sessions));
    ParentsGo(d2, family);
    var d3 := Effect(d2, ClearParents(family));
    assert SessionsOfTrees(d3, family) == {};
    OutsideParents(db.trees, family);
    forall x | x in d3.trees && d3.trees[x].parent.Some? ensures d3.trees[x].parent.value !in family {
      assert d3.trees[x].parent == db.trees[x].parent;
    }
    TreesGo(d3, family);
    assert Effect(d3, DeleteTrees(family)).trees == db.trees - family;
  }

  lemma OutsideParents(t: Table, family: set<nat>)
    requires TableOk(t) && WholeFamilies(t, family)
    ensures forall x :: x in t && t[x].parent.Some? && t[x].parent.value in family ==> x in family
  {
  }

  datatype DeleteError = NotAuthorized | Violation

  class Database {
    var db: Tables

    constructor (tables: Tables)
      ensures db == tables
    {
      db := tables;
    }

    /** One statement; the constraints are checked when it ends. */
    method Execute(st: Statement) returns (ok: bool)
      modifies this
      ensures ok <==> KeysHold(Effect(old(db), st))
      ensures db == if ok then Effect(old(db), st) else old(db)
    {
      var after := Effect(db, st);
      ok := KeysHold(after);
      if ok {
        db := after;
      }
    }

    /** Deletes the whole family of a tree; no statement on the way breaks a foreign key. */
    method DeleteWorkflowFamily(tree: nat, author: nat) returns (r: Result<set<nat>, DeleteError>)
      requires KeysHold(db) && TableOk(db.trees) && tree in db.trees
      modifies this
      ensures db.trees.Keys <= old(db).trees.Keys
      ensures if old(db).trees[tree].author != Some(author) then r == Err(NotAuthorized) && db == old(db)
        else
          && r.Ok? && (forall b :: b in r.value <==> b in old(db).trees && Root(old(db).trees, b) == Root(old(db).trees, tree))
          && db == WithoutTrees(old(db), r.value) && KeysHold(db)
    {
      hide Root, KeysHold, Effect, Connected;
      if db.trees[tree].author != Some(author) {
        return Err(NotAuthorized);
      }
      var versions := GetVersionFamilyFromDb(db.trees, tree);
      var family := Elements(versions);
      FamilyIsRootClass(db.trees, tree, versions);
      var sessions := SessionsOfTrees(db, family);
      FamilyStatementsPass(db, family);
      if sessions != {} {
        var ok := Execute(DeleteMemosOf(sessions));
        if !ok {
          return Err(Violation);
        }
      }
      var ok := Execute(DeleteSessions(sessions));
      if !ok {
        return Err(Violation);
      }
      ok := Execute(ClearParents(family));
      if !ok {
        return Err(Violation);
      }
      ok := Execute(DeleteTrees(family));
      if !ok {
        return Err(Violation);
      }
      return Ok(family);
    }

    /** Deletes the family of every root the user authored. */
    method PurgeWorkflows(user: nat)
      requires KeysHold(db) && TableOk(db.trees)
      modifies this
      ensures db == WithoutTrees(old(db), OwnedFamilies(old(db), user)) && KeysHold(db)
    {
      hide KeysHold, Root, WithoutTrees, Effect, OwnedFamilies, FamiliesOf;
      ghost var start := db;
      var roots := OwnedRoots(db, user);
      var todo := roots;
      WithoutNone(start);
      assert roots - todo == {};
      while todo != {}
        invariant todo <= roots
        invariant db == WithoutTrees(start, FamiliesOf(start, roots - todo)) && KeysHold(db)
        decreases todo
      {
        var root :| root in todo;
        FamiliesLeave(start, roots - todo, root);
        var r := DeleteWorkflowFamily(root, user);
        OneFamilyMore(start, roots - todo, root, r.value);
        assert roots - todo + {root} == roots - (todo - {root});
        todo := todo - {root};
      }
      OwnedAreFamilies(start, user);
      assert roots - todo == roots;
    }

    /** The user's sessions on trees that stay, with their memos. */
    method PurgeOrphanSessions(user: nat) returns (ok: bool)
      requires KeysHold(db)
      modifies this
      ensures ok && db == WithoutSessions(old(db), SessionsOfUser(old(db), user)) && KeysHold(db)
    {
      hide KeysHold;
      var sessions := SessionsOfUser(db, user);
      SessionStatementsPass(db, sessions);
      if sessions == {} {
        return true;
      }
      ok := Execute(DeleteMemosOf(sessions));
      if !ok {
        return false;
      }
      ok := Execute(DeleteSessions(sessions));
    }

    /**
     The purge of one account, under the account's lock and inside one transaction. It completes
     exactly when nothing of the user's is left outside what it deletes, and otherwise it is undone.
     */
    method PhaseBPurge(user: nat, lockFree: bool) returns (r: Outcome)
      requires KeysHold(db) && TableOk(db.trees)
      modifies this
      ensures r == if !lockFree then LockBusy else if user !in old(db).users then AlreadyDeleted
                   else if Purgeable(old(db), user) then Deleted else Failed
      ensures db == if r == Deleted then Purged(old(db), user) else old(db)
    {
      hide KeysHold, WithoutTrees, WithoutSessions, OwnedFamilies, Purgeable, Effect;
      if !lockFree {
        return LockBusy;
      }
      if user !in db.users {
        return AlreadyDeleted;
      }
      var savepoint := db;
      PurgePasses(db, user);
      var ok := Execute(DeleteGenerationsOf(user));
      PurgeWorkflows(user);
      ok := PurgeOrphanSessions(user);
      ok := Execute(DeleteUser(user));
      if !ok {
        db := savepoint;
        return Failed;
      }
      return Deleted;
    }
  }

  datatype Outcome = LockBusy | AlreadyDeleted | Deleted | Failed

  // The purge as a whole.

  /** The trees whose root is one of `roots`. */
  function FamiliesOf(db: Tables, roots: set<nat>): set<nat>
    requires TableOk(db.trees)
  {
    set t | t in db.trees && Root(db.trees, t) in roots
  }

  function OwnedRoots(db: Tables, user: nat): set<nat> {
    set t | t in db.trees && db.trees[t].author == Some(user) && db.trees[t].parent.None?
  }

  function OwnedFamilies(db: Tables, user: nat): set<nat>
    requires TableOk(db.trees)
  {
    set t | t in db.trees && db.trees[Root(db.trees, t)].author == Some(user)
  }

  /** Nothing of the user's lies outside the user's families and sessions. */
  predicate Purgeable(db: Tables, user: nat)
    requires KeysHold(db) && TableOk(db.trees)
  {
    && (forall t :: t in db.trees && db.trees[t].author == Some(user) ==> t in OwnedFamilies(db, user))
    && (forall m :: m in db.memos && db.memos[m].user == user ==> Goes(db, user, db.memos[m].session))
  }

  /** A session that the purge deletes. */
  predicate Goes(db: Tables, user: nat, session: nat)
    requires KeysHold(db) && TableOk(db.trees) && session in db.sessions
  {
    db.sessions[session].user == user || db.sessions[session].tree in OwnedFamilies(db, user)
  }

  function Purged(db: Tables, user: nat): Tables
    requires TableOk(db.trees)
  {
    Effect(BeforeUser(db, user), DeleteUser(user))
  }

  function BeforeUser(db: Tables, user: nat): Tables
    requires TableOk(db.trees)
  {
    var d := WithoutTrees(Effect(db, DeleteGenerationsOf(user)), OwnedFamilies(db, user));
    WithoutSessions(d, SessionsOfUser(d, user))
  }

  lemma WithoutNone(db: Tables)
    requires TableOk(db.trees)
    ensures WithoutTrees(db, FamiliesOf(db, {})) == db
  {
  }

  lemma FamiliesAreWhole(db: Tables, roots: set<nat>)
    requires TableOk(db.trees)
    ensures WholeFamilies(db.trees, FamiliesOf(db, roots))
  {
  }

  /** After some families are gone, a root not among them still stands and still has its whole family. */
  lemma FamiliesLeave(db: Tables, gone: set<nat>, root: nat)
    requires TableOk(db.trees) && root in db.trees && db.trees[root].parent.None? && root !in gone
    ensures var left := WithoutTrees(db, FamiliesOf(db, gone)).trees;
      && TableOk(left) && root in left && left[root] == db.trees[root]
      && forall b :: b in left && Root(left, b) == Root(left, root) <==> b in FamiliesOf(db, {root})
  {
    hide WholeFamilies;
    var trees := FamiliesOf(db, gone);
    FamiliesAreWhole(db, gone);
    RemovalKeepsTable(db.trees, trees);
    var left := db.trees - trees;
    assert Root(db.trees, root) == root;
    forall b | b in left ensures Root(left, b) == Root(db.trees, b) {
      RemovalKeepsRoots(db.trees, trees, b);
    }
  }

  lemma OneFamilyMore(db: Tables, gone: set<nat>, root: nat, family: set<nat>)
    requires TableOk(db.trees) && root in db.trees && db.trees[root].parent.None? && root !in gone
    requires var left := WithoutTrees(db, FamiliesOf(db, gone)).trees;
      && TableOk(left) && root in left
      && forall b :: b in family <==> b in left && Root(left, b) == Root(left, root)
    ensures WithoutTrees(WithoutTrees(db, FamiliesOf(db, gone)), family) == WithoutTrees(db, FamiliesOf(db, gone + {root}))
  {
    hide WithoutTrees, Root;
    FamiliesLeave(db, gone, root);
    assert WithoutTrees(db, FamiliesOf(db, gone)).trees == db.trees - FamiliesOf(db, gone) by {
      RemainingTrees(db, FamiliesOf(db, gone));
    }
    assert Root(db.trees, root) == root by {
      RootOfRoot(db, root);
    }
    assert FamiliesOf(db, gone) + family == FamiliesOf(db, gone + {root});
    WithoutTreesTwice(db, FamiliesOf(db, gone), family);
  }

  lemma RemainingTrees(db: Tables, trees: set<nat>)
    ensures WithoutTrees(db, trees).trees == db.trees - trees
  {
  }

  lemma RootOfRoot(db: Tables, root: nat)
    requires TableOk(db.trees) && root in db.trees && db.trees[root].parent.None?
    ensures Root(db.trees, root) == root
  {
  }

  lemma OwnedAreFamilies(db: Tables, user: nat)
    requires TableOk(db.trees)
    ensures OwnedFamilies(db, user)
      == FamiliesOf(db, OwnedRoots(db, user))
  {
  }

  lemma SessionStatementsPass(db: Tables, sessions: set<nat>)
    requires KeysHold(db)
    ensures var d1 := Effect(db, DeleteMemosOf(sessions));
      var d2 := Effect(d1, DeleteSessions(sessions));
      KeysHold(d1) && KeysHold(d2) && d2 == WithoutSessions(db, sessions) && (sessions == {} ==> d2 == db)
  {
    hide KeysHold;
    MemosGo(db, sessions);
    SessionsGo(Effect(db, DeleteMemosOf(sessions)), sessions);
  }

  lemma GenerationsGo(db: Tables, user: nat)
    requires KeysHold(db)
    ensures KeysHold(Effect(db, DeleteGenerationsOf(user)))
  {
  }

  /** The user's row can go exactly when no row left refers to it. */
  lemma UserGoes(db: Tables, user: nat)
    requires KeysHold(db)
    ensures KeysHold(Effect(db, DeleteUser(user))) <==>
      && (forall t :: t in db.trees ==> db.trees[t].author != Some(user))
      && (forall s :: s in db.sessions ==> db.sessions[s].user != user)
      && (forall m :: m in db.memos ==> db.memos[m].user != user)
      && (forall g :: g in db.generations ==> db.generations[g] != user)
  {
  }

  lemma PurgePasses(db: Tables, user: nat)
    requires KeysHold(db) && TableOk(db.trees)
    ensures KeysHold(Effect(db, DeleteGenerationsOf(user)))
    ensures Effect(db, DeleteGenerationsOf(user)).trees == db.trees
    ensures OwnedFamilies(Effect(db, DeleteGenerationsOf(user)), user) == OwnedFamilies(db, user)
    ensures KeysHold(Effect(BeforeUser(db, user), DeleteUser(user))) <==> Purgeable(db, user)
  {
    hide KeysHold, Purgeable, BeforeUser, Root;
    GenerationsGo(db, user);
    BeforeUserLeaves(db, user);
    PurgeableIff(db, user);
    UserGoes(BeforeUser(db, user), user);
  }

  lemma BeforeUserLeaves(db: Tables, user: nat)
    requires KeysHold(db) && TableOk(db.trees)
    ensures var d := BeforeUser(db, user);
      && KeysHold(d)
      && (forall s :: s in d.sessions ==> d.sessions[s].user != user)
      && (forall g :: g in d.generations ==> d.generations[g] != user)
  {
    hide Root, WholeFamilies, OwnedFamilies, KeysHold;
    var db1 := Effect(db, DeleteGenerationsOf(user));
    GenerationsGo(db, user);
    OwnedAreFamilies(db, user);
    FamiliesAreWhole(db, OwnedRoots(db, user));
    WithoutTreesKeepsKeys(db1, OwnedFamilies(db, user));
    var db2 := WithoutTrees(db1, OwnedFamilies(db, user));
    SessionStatementsPass(db2, SessionsOfUser(db2, user));
  }

  /** The rows left before the user's own row goes. */
  lemma RowsLeft(db: Tables, user: nat)
    requires KeysHold(db) && TableOk(db.trees)
    ensures var d := BeforeUser(db, user);
      && (forall t :: t in d.trees <==> t in db.trees && t !in OwnedFamilies(db, user))
      && (forall t :: t in d.trees ==> d.trees[t] == db.trees[t])
      && (forall m :: m in d.memos <==> m in db.memos && !Goes(db, user, db.memos[m].session))
      && (forall m :: m in d.memos ==> d.memos[m] == db.memos[m])
  {
    hide OwnedFamilies, KeysHold;
    MemosHaveSessions(db);
    var db2 := WithoutTrees(Effect(db, DeleteGenerationsOf(user)), OwnedFamilies(db, user));
    forall m | m in db.memos
      ensures m in BeforeUser(db, user).memos <==> !Goes(db, user, db.memos[m].session)
    {
      assert m in db2.memos <==> db.sessions[db.memos[m].session].tree !in OwnedFamilies(db, user);
    }
  }

  lemma PurgeableIff(db: Tables, user: nat)
    requires KeysHold(db) && TableOk(db.trees)
    ensures var d := BeforeUser(db, user);
      (forall t :: t in d.trees ==> d.trees[t].author != Some(user)) && (forall m :: m in d.memos ==> d.memos[m].user != user)
      <==> Purgeable(db, user)
  {
    hide BeforeUser, OwnedFamilies, Goes, KeysHold;
    RowsLeft(db, user);
    MemosHaveSessions(db);
    var d := BeforeUser(db, user);
    if Purgeable(db, user) {
      forall m | m in d.memos ensures d.memos[m].user != user {
        assert !Goes(db, user, db.memos[m].session);
      }
    }
  }

  lemma MemosHaveSessions(db: Tables)
    requires KeysHold(db)
    ensures forall m :: m in db.memos ==> db.memos[m].session in db.sessions
  {
  }

  /** A completed purge leaves no reference to the user or to a deleted tree, and keeps everything else. */
  lemma PurgeLeavesNoTrace(db: Tables, user: nat)
    requires KeysHold(db) && TableOk(db.trees) && Purgeable(db, user)
    ensures var d, gone := Purged(db, user), OwnedFamilies(db, user);
      && KeysHold(d) && user !in d.users
      && (forall t :: t in d.trees ==> d.trees[t].author != Some(user) && !(d.trees[t].parent.Some? && d.trees[t].parent.value in gone))
      && (forall s :: s in d.sessions ==> d.sessions[s].user != user && d.sessions[s].tree !in gone)
      && (forall m :: m in d.memos ==> d.memos[m].user != user)
      && (forall g :: g in d.generations ==> d.generations[g] != user)
      && (forall t :: t in db.trees && t !in gone ==> t in d.trees && d.trees[t] == db.trees[t])
      && (forall s :: s in db.sessions && !Goes(db, user, s) ==> s in d.sessions && d.sessions[s] == db.sessions[s])
      && (forall m :: m in db.memos && !Goes(db, user, db.memos[m].session) ==> m in d.memos && d.memos[m] == db.memos[m])
  {
    PurgePasses(db, user);
    BeforeUserLeaves(db, user);
    PurgeableIff(db, user);
    RowsLeft(db, user);
    hide OwnedFamilies;
  }

  /** A purge removes the user, the user's families and generations, and the sessions and memos that go with them; every other row stays. */
  lemma PurgedExactly(db: Tables, user: nat)
    requires KeysHold(db) && TableOk(db.trees)
    ensures Purged(db, user) == Tables(
      db.users - {user},
      db.trees - OwnedFamilies(db, user),
      map s | s in db.sessions && !Goes(db, user, s) :: db.sessions[s],
      map m | m in db.memos && !Goes(db, user, db.memos[m].session) :: db.memos[m],
      map g | g in db.generations && db.generations[g] != user :: db.generations[g])
  {
    hide OwnedFamilies, KeysHold, BeforeUser, Goes;
    MemosHaveSessions(db);
    RowsLeft(db, user);
    OtherRowsLeft(db, user);
    var d := Purged(db, user);
    assert d.trees == db.trees - OwnedFamilies(db, user);
    assert d.memos == map m | m in db.memos && !Goes(db, user, db.memos[m].session) :: db.memos[m];
  }

  lemma OtherRowsLeft(db: Tables, user: nat)
    requires KeysHold(db) && TableOk(db.trees)
    ensures var d := BeforeUser(db, user);
      && d.users == db.users
      && d.sessions == (map s | s in db.sessions && !Goes(db, user, s) :: db.sessions[s])
      && d.generations == map g | g in db.generations && db.generations[g] != user :: db.generations[g]
  {
    hide OwnedFamilies, KeysHold;
  }

  /** Families with one author, and memos of their session's user, can always be purged. */
  lemma OneAuthorIsPurgeable(db: Tables, user: nat)
    requires KeysHold(db) && TableOk(db.trees)
    requires forall t :: t in db.trees ==> db.trees[Root(db.trees, t)].author == db.trees[t].author
    requires forall m :: m in db.memos ==> db.memos[m].user == db.sessions[db.memos[m].session].user
    ensures Purgeable(db, user)
  {
  }
}
