/** What happens to an account's decision trees when its subscription starts and ends, with hosted enforcement on. */
module Downgrade {
  import opened Collections
  import opened Results

  const FREE_MAX_WORKFLOWS := 3
  const PRO_MAX_WORKFLOWS := 20

  /** A tree of the account's author; `active` is current and not archived. */
  datatype Tree = Tree(active: bool, root: bool, dormant: bool)

  datatype Account = Account(
    premium: bool,
    pickRequired: bool,
    liveRoot: Option<nat>,
    usageEpoch: Option<int>,
    cancelAtPeriodEnd: bool,
    explainerPending: bool,
    explainerAcknowledgedAt: Option<int>,
    periodStart: Option<int>,
    periodEnd: Option<int>,
    trees: map<nat, Tree>)

  function ActiveRoots(trees: map<nat, Tree>): set<nat> {
    set x | x in trees && trees[x].active && trees[x].root
  }

  function AwakeRoots(trees: map<nat, Tree>): set<nat> {
    set x | x in ActiveRoots(trees) && !trees[x].dormant
  }

  predicate IsDecisionTreeLive(a: Account, x: nat)
    requires x in a.trees
  {
    if a.premium then true
    else if a.pickRequired then false
    else if a.trees[x].dormant then false
    else if a.liveRoot.Some? then x == a.liveRoot.value
    else true
  }

  function LiveRoots(a: Account): set<nat> {
    set x | x in ActiveRoots(a.trees) && IsDecisionTreeLive(a, x)
  }

  // The three transitions.

  function Asleep(trees: map<nat, Tree>, among: set<nat>, awake: set<nat>): map<nat, Tree> {
    map x | x in trees :: if x in among then trees[x].(dormant := x !in awake) else trees[x]
  }

  function Upgraded(a: Account): Account {
    a.(
      cancelAtPeriodEnd := false, explainerPending := false, explainerAcknowledgedAt := None,
      pickRequired := false, liveRoot := None, usageEpoch := None,
      trees := Asleep(a.trees, a.trees.Keys, a.trees.Keys))
  }

  function Ended(a: Account, now: int): Account {
    var roots := ActiveRoots(a.trees);
    var b := a.(cancelAtPeriodEnd := false, explainerPending := false, periodStart := None, periodEnd := None);
    if |roots| <= FREE_MAX_WORKFLOWS then
      b.(pickRequired := false, usageEpoch := Some(now), trees := Asleep(a.trees, roots, roots),
         liveRoot := TheOnly(roots))
    else b.(pickRequired := true, liveRoot := None)
  }

  /** The element of a one-element set. */
  function TheOnly(s: set<nat>): Option<nat> {
    if |s| == 1 then
      OnlyIsUnique(s);
      var x :| x in s; Some(x)
    else None
  }

  lemma OnlyIsUnique(s: set<nat>)
    requires |s| == 1
    ensures exists x :: x in s && forall y :: y in s ==> y == x
  {
    var x :| x in s;
    assert |s - {x}| == 0;
    assert forall y :: y in s ==> y == x by {
      forall y | y in s ensures y == x {
        assert y in s - {x} || y == x;
      }
    }
  }

  datatype PickError = NotFound | WrongNumber

  function Pick(a: Account, ids: seq<nat>, now: int): Result<Account, PickError> {
    var roots, chosen := ActiveRoots(a.trees), Elements(ids);
    if chosen == {} || !(chosen <= roots) then Err(NotFound)
    else if |chosen| != FREE_MAX_WORKFLOWS then Err(WrongNumber)
    else Ok(a.(
      trees := Asleep(a.trees, roots, chosen),
      liveRoot := TheOnly(chosen),
      pickRequired := false, usageEpoch := Some(now)))
  }

  /** The user's row and its trees, updated in place. */
  class UserAccount {
    var premium: bool
    var pickRequired: bool
    var liveRoot: Option<nat>
    var usageEpoch: Option<int>
    var cancelAtPeriodEnd: bool
    var explainerPending: bool
    var explainerAcknowledgedAt: Option<int>
    var periodStart: Option<int>
    var periodEnd: Option<int>
    var trees: map<nat, Tree>

    ghost function View(): Account
      reads this
    {
      Account(premium, pickRequired, liveRoot, usageEpoch, cancelAtPeriodEnd, explainerPending, explainerAcknowledgedAt,
              periodStart, periodEnd, trees)
    }

    method SetDormant(roots: set<nat>, awake: set<nat>)
      requires roots <= trees.Keys
      modifies `trees
      ensures trees == Asleep(old(trees), roots, awake)
    {
      var todo := roots;
      while todo != {}
        invariant todo <= roots && trees.Keys == old(trees).Keys
        invariant forall x :: x in trees ==>
          trees[x] == if x in roots - todo then old(trees)[x].(dormant := x !in awake) else old(trees)[x]
        decreases todo
      {
        var x :| x in todo;
        trees := trees[x := trees[x].(dormant := x !in awake)];
        todo := todo - {x};
      }
    }

    method ClearDowngradeStateOnUpgrade()
      modifies this
      ensures View() == Upgraded(old(View()))
    {
      cancelAtPeriodEnd := false;
      explainerPending := false;
      explainerAcknowledgedAt := None;
      pickRequired := false;
      liveRoot := None;
      usageEpoch := None;
      trees := map x | x in trees :: trees[x].(dormant := false);
    }

    method ResolveSubscriptionEnded(now: int)
      modifies this
      ensures View() == Ended(old(View()), now)
    {
      cancelAtPeriodEnd := false;
      explainerPending := false;
      periodStart, periodEnd := None, None;
      var roots := ActiveRoots(trees);
      if |roots| == 0 {
        assert Asleep(trees, roots, roots) == trees;
        pickRequired := false;
        liveRoot := None;
        usageEpoch := Some(now);
        return;
      }
      if |roots| <= FREE_MAX_WORKFLOWS {
        SetDormant(roots, roots);
        pickRequired := false;
        liveRoot := TheOnly(roots);
        usageEpoch := Some(now);
        return;
      }
      pickRequired := true;
      liveRoot := None;
    }

    method ApplyWorkflowPick(ids: seq<nat>, now: int) returns (error: Option<PickError>)
      modifies this
      ensures match Pick(old(View()), ids, now)
        case Ok(picked) => error.None? && View() == picked
        case Err(e) => error == Some(e) && View() == old(View())
    {
      var roots := ActiveRoots(trees);
      var chosen := Elements(ids);
      if chosen == {} || !(chosen <= roots) {
        return Some(NotFound);
      }
      if |chosen| != FREE_MAX_WORKFLOWS {
        return Some(WrongNumber);
      }
      SetDormant(roots, chosen);
      liveRoot := TheOnly(chosen);
      pickRequired := false;
      usageEpoch := Some(now);
      return None;
    }
  }

  // Whole runs.

  datatype Event =
    | Upgrade
    | SubscriptionEnds(now: int)
    | PickTrees(ids: seq<nat>, now: int)
    | Create(id: nat)
    | Reactivate(id: nat)
    | RestoreSample(id: nat)    // by the sample loader, which does not look at the quota
    | SaveWizardTree(id: nat)   // by the generation wizard, which looked when it started
    | Deactivate(id: nat)
    | Delete(id: nat)

  /** The slot check, for the tier the account has. */
  predicate HasSlot(a: Account) {
    if a.premium then |ActiveRoots(a.trees)| + 1 <= PRO_MAX_WORKFLOWS else |AwakeRoots(a.trees)| + 1 <= FREE_MAX_WORKFLOWS
  }

  function Step(a: Account, e: Event): Account {
    match e
    case Upgrade => Upgraded(a).(premium := true)
    case SubscriptionEnds(now) => Ended(a.(premium := false), now)
    case PickTrees(ids, now) => var r := Pick(a, ids, now); if r.Ok? then r.value else a
    case Create(id) => if id !in a.trees && HasSlot(a) then a.(trees := a.trees[id := Tree(true, true, false)]) else a
    case Reactivate(id) =>
      if id in a.trees && HasSlot(a) then a.(trees := a.trees[id := a.trees[id].(active := true)]) else a
    case RestoreSample(id) => if id in a.trees then a.(trees := a.trees[id := a.trees[id].(active := true)]) else a
    case SaveWizardTree(id) => if id !in a.trees then a.(trees := a.trees[id := Tree(true, true, false)]) else a
    case Deactivate(id) => if id in a.trees then a.(trees := a.trees[id := a.trees[id].(active := false)]) else a
    case Delete(id) => a.(trees := a.trees - {id}, liveRoot := if a.liveRoot == Some(id) then None else a.liveRoot)
  }

  function Run(a: Account, events: seq<Event>): Account {
    if events == [] then a else Step(Run(a, events[..|events| - 1]), events[|events| - 1])
  }

  predicate Inv(a: Account) {
    !a.premium && !a.pickRequired ==> |AwakeRoots(a.trees)| <= FREE_MAX_WORKFLOWS
  }

  lemma AwakeAmong(trees: map<nat, Tree>, awake: set<nat>)
    ensures AwakeRoots(Asleep(trees, ActiveRoots(trees), awake)) == ActiveRoots(trees) * awake
    ensures ActiveRoots(Asleep(trees, ActiveRoots(trees), awake)) == ActiveRoots(trees)
  {
  }

  /** A full Free account gains an awake root without a check: by restoring an inactive one, or by saving a new one. */
  predicate TakesUncheckedSlot(a: Account, e: Event) {
    && !a.premium && !a.pickRequired && !HasSlot(a)
    && match e
       case RestoreSample(id) => id in a.trees && !a.trees[id].active && a.trees[id].root && !a.trees[id].dormant
       case SaveWizardTree(id) => id !in a.trees
       case _ => false
  }

  /** One step loses the cap if and only if it takes an unchecked slot. */
  lemma StepKeepsInvIff(a: Account, e: Event)
    requires Inv(a)
    ensures Inv(Step(a, e)) <==> !TakesUncheckedSlot(a, e)
  {
    match e
    case Upgrade =>
    case SubscriptionEnds(now) =>
      AwakeAmong(a.trees, ActiveRoots(a.trees));
      assert ActiveRoots(a.trees) * ActiveRoots(a.trees) == ActiveRoots(a.trees);
    case PickTrees(ids, now) =>
      AwakeAmong(a.trees, Elements(ids));
      assert Elements(ids) <= ActiveRoots(a.trees) ==> ActiveRoots(a.trees) * Elements(ids) == Elements(ids);
    case _ => TreesKeepInvIff(a, e);
  }

  /** What one tree's row does to the awake roots. */
  lemma AwakeRootsAfter(trees: map<nat, Tree>, id: nat, t: Tree)
    ensures AwakeRoots(trees[id := t]) == if t.active && t.root && !t.dormant then AwakeRoots(trees) + {id} else AwakeRoots(trees) - {id}
    ensures AwakeRoots(trees - {id}) == AwakeRoots(trees) - {id}
  {
  }

  lemma AwakeMember(trees: map<nat, Tree>, x: nat)
    ensures x in AwakeRoots(trees) <==> x in trees && trees[x].active && trees[x].root && !trees[x].dormant
  {
  }

  lemma TreesKeepInvIff(a: Account, e: Event)
    requires Inv(a) && !e.Upgrade? && !e.SubscriptionEnds? && !e.PickTrees?
    ensures Inv(Step(a, e)) <==> !TakesUncheckedSlot(a, e)
  {
    hide ActiveRoots, AwakeRoots;
    var awake := AwakeRoots(a.trees);
    AwakeMember(a.trees, e.id);
    SubsetSize(awake - {e.id}, awake);
    if e.Create? || e.SaveWizardTree? {
      AwakeRootsAfter(a.trees, e.id, Tree(true, true, false));
    } else if e.Delete? {
      AwakeRootsAfter(a.trees, e.id, Tree(false, false, false));
    } else if e.id in a.trees {
      AwakeRootsAfter(a.trees, e.id, a.trees[e.id].(active := !e.Deactivate?));
    }
  }

  predicate NoUncheckedSlots(a: Account, events: seq<Event>) {
    forall n :: 0 <= n < |events| ==> !TakesUncheckedSlot(Run(a, events[..n]), events[n])
  }

  lemma {:induction false} RunKeepsInv(a: Account, events: seq<Event>)
    requires Inv(a) && NoUncheckedSlots(a, events)
    ensures Inv(Run(a, events))
  {
    hide Inv, Step, TakesUncheckedSlot;
    if events != [] {
      var n := |events| - 1;
      var before := events[..n];
      forall k | 0 <= k < n ensures !TakesUncheckedSlot(Run(a, before[..k]), before[k]) {
        assert before[..k] == events[..k];
      }
      RunKeepsInv(a, before);
      StepKeepsInvIff(Run(a, before), events[n]);
    }
  }

  /**
   Over every sequence of upgrades, subscription ends, picks, creations, restores and deletions: on
   Free an account with a pick pending has no live active root, and one without at most three as
   long as no unchecked slot was taken.
   */
  lemma LiveRootsAreCapped(a: Account, events: seq<Event>)
    requires Inv(a) && !Run(a, events).premium
    ensures var z := Run(a, events);
      if z.pickRequired then LiveRoots(z) == {} else NoUncheckedSlots(a, events) ==> |LiveRoots(z)| <= FREE_MAX_WORKFLOWS
  {
    hide Run, NoUncheckedSlots;
    var z := Run(a, events);
    if NoUncheckedSlots(a, events) {
      RunKeepsInv(a, events);
    }
    assert LiveRoots(z) <= AwakeRoots(z.trees);
    SubsetSize(LiveRoots(z), AwakeRoots(z.trees));
  }

  /** A pick succeeds exactly for three active roots, and on Free leaves exactly them live. */
  lemma PickKeepsExactlyChosen(a: Account, ids: seq<nat>, now: int)
    ensures Pick(a, ids, now).Ok? <==> Elements(ids) <= ActiveRoots(a.trees) && |Elements(ids)| == FREE_MAX_WORKFLOWS
    ensures Pick(a, ids, now) == Err(NotFound) <==> ids == [] || !(Elements(ids) <= ActiveRoots(a.trees))
    ensures Pick(a, ids, now).Ok? ==>
      var z := Pick(a, ids, now).value;
      && !z.pickRequired && ActiveRoots(z.trees) == ActiveRoots(a.trees)
      && (!a.premium ==> LiveRoots(z) == Elements(ids))
  {
    assert ids != [] ==> ids[0] in Elements(ids);
    if Pick(a, ids, now).Ok? {
      AwakeAmong(a.trees, Elements(ids));
      var z := Pick(a, ids, now).value;
      assert ActiveRoots(z.trees) * Elements(ids) == Elements(ids);
      assert a.premium || LiveRoots(z) == AwakeRoots(z.trees);
    }
  }

  /** With fewer than three active roots left, no pick can end the wait. */
  lemma PickPossibleIff(a: Account)
    ensures (exists ids, now :: Pick(a, ids, now).Ok?) <==> |ActiveRoots(a.trees)| >= FREE_MAX_WORKFLOWS
  {
    var roots := ActiveRoots(a.trees);
    forall ids, now | Pick(a, ids, now).Ok? ensures |roots| >= FREE_MAX_WORKFLOWS {
      SubsetSize(Elements(ids), roots);
    }
    if |roots| >= FREE_MAX_WORKFLOWS {
      var x :| x in roots;
      assert |roots - {x}| >= 2;
      var y :| y in roots - {x};
      assert |roots - {x} - {y}| >= 1;
      var z :| z in roots - {x} - {y};
      assert Elements([x, y, z]) == {x, y, z} by {
        assert [x, y, z][0] == x && [x, y, z][1] == y && [x, y, z][2] == z;
      }
      assert Pick(a, [x, y, z], 0).Ok?;
    }
  }

  /** An upgrade wakes every tree, and a subscription that ends with at most three active roots leaves them all live. */
  lemma UpgradeThenEnd(a: Account, now: int)
    requires |ActiveRoots(a.trees)| <= FREE_MAX_WORKFLOWS
    ensures var up := Step(a, Upgrade);
      var z := Step(up, SubscriptionEnds(now));
      && LiveRoots(up) == ActiveRoots(a.trees) && ActiveRoots(up.trees) == ActiveRoots(a.trees)
      && !z.pickRequired && LiveRoots(z) == ActiveRoots(a.trees)
  {
    var up := Step(a, Upgrade);
    assert ActiveRoots(up.trees) == ActiveRoots(a.trees);
    AwakeAmong(up.trees, ActiveRoots(up.trees));
    var z := Step(up, SubscriptionEnds(now));
    assert ActiveRoots(z.trees) == ActiveRoots(a.trees);
    if |ActiveRoots(a.trees)| == 1 {
      OnlyIsUnique(ActiveRoots(a.trees));
    }
  }

  /**
   Free usage is metered from the moment the account last settled on its trees: an upgrade clears
   that moment, a downgrade that needs no pick and a pick that succeeds set it to their own time,
   and nothing else moves it. The paid period ends with the subscription.
   */
  lemma EpochMarksSettlement(a: Account, e: Event)
    ensures Step(a, e).usageEpoch ==
      if e.Upgrade? then None
      else if (e.SubscriptionEnds? && |ActiveRoots(a.trees)| <= FREE_MAX_WORKFLOWS) || (e.PickTrees? && Pick(a, e.ids, e.now).Ok?) then Some(e.now)
      else a.usageEpoch
    ensures e.SubscriptionEnds? ==>
      var z := Step(a, e);
      z.periodStart.None? && z.periodEnd.None? && !z.premium && (z.pickRequired <==> |ActiveRoots(a.trees)| > FREE_MAX_WORKFLOWS)
  {
  }

  // What each transition leaves of the row and its trees.

  /** Nothing on the row or its trees is left of a downgrade. */
  predicate NoDowngradeState(a: Account) {
    && !a.cancelAtPeriodEnd && !a.explainerPending && a.explainerAcknowledgedAt.None?
    && !a.pickRequired && a.liveRoot.None? && a.usageEpoch.None?
    && forall x :: x in a.trees ==> !a.trees[x].dormant
  }

  /** The same trees, but for which of some are dormant. */
  predicate SameTreesBut(trees: map<nat, Tree>, trees': map<nat, Tree>, some: set<nat>) {
    && trees'.Keys == trees.Keys
    && forall x :: x in trees ==> trees'[x] == trees[x] || (x in some && trees'[x] == trees[x].(dormant := trees'[x].dormant))
  }

  /** An upgrade erases a downgrade: nothing of it is left, the trees and the paid period stay, and where nothing was left it changes nothing else. */
  lemma UpgradeErasesDowngrade(a: Account)
    ensures var z := Step(a, Upgrade);
      && z.premium && NoDowngradeState(z) && SameTreesBut(a.trees, z.trees, a.trees.Keys)
      && z.periodStart == a.periodStart && z.periodEnd == a.periodEnd
      && (NoDowngradeState(a) ==> z == a.(premium := true))
  {
  }

  /**
   The end of a subscription clears the cancellation, the explainer and the paid period, and names a
   live root exactly when one active root is there; with at most three it wakes them, with more it
   leaves every tree as it was. Trees other than active roots keep their state in either case.
   */
  lemma EndSettlesTrees(a: Account, now: int)
    ensures var z, roots := Step(a, SubscriptionEnds(now)), ActiveRoots(a.trees);
      && !z.premium && !z.cancelAtPeriodEnd && !z.explainerPending && z.periodStart.None? && z.periodEnd.None?
      && z.explainerAcknowledgedAt == a.explainerAcknowledgedAt
      && (forall x :: z.liveRoot == Some(x) <==> roots == {x})
      && SameTreesBut(a.trees, z.trees, roots)
      && (if |roots| <= FREE_MAX_WORKFLOWS then !z.pickRequired && roots <= AwakeRoots(z.trees) else z.pickRequired && z.trees == a.trees)
  {
    var roots := ActiveRoots(a.trees);
    if |roots| == 1 {
      OnlyIsUnique(roots);
    }
    forall x ensures Step(a, SubscriptionEnds(now)).liveRoot == Some(x) <==> roots == {x} {
      if |roots| == 1 {
        assert roots == {TheOnly(roots).value};
      } else {
        assert roots != {x};
      }
    }
  }

  /** A pick decides about the active roots alone, and touches no other field than those it settles. */
  lemma PickSettlesTrees(a: Account, ids: seq<nat>, now: int)
    requires Pick(a, ids, now).Ok?
    ensures var z := Pick(a, ids, now).value;
      && SameTreesBut(a.trees, z.trees, ActiveRoots(a.trees))
      && z == a.(trees := z.trees, liveRoot := None, pickRequired := false, usageEpoch := Some(now))
  {
  }

  /** A paid account's roots are all live, whatever a downgrade has left behind. */
  lemma PaidRootsAreLive(a: Account)
    requires a.premium
    ensures LiveRoots(a) == ActiveRoots(a.trees)
  {
  }

  predicate IsOwnerStep(e: Event) {
    !e.Upgrade? && !e.SubscriptionEnds? && !e.PickTrees?
  }

  /** The step adds its tree to the active roots; where it looks at the quota, only with a slot free. */
  predicate AddsRoot(a: Account, e: Event) {
    match e
    case Create(id) => id !in a.trees && HasSlot(a)
    case SaveWizardTree(id) => id !in a.trees
    case Reactivate(id) => id in a.trees && a.trees[id].root && HasSlot(a)
    case RestoreSample(id) => id in a.trees && a.trees[id].root
    case _ => false
  }

  lemma ActiveRootsAfter(trees: map<nat, Tree>, id: nat, t: Tree)
    ensures ActiveRoots(trees[id := t]) == if t.active && t.root then ActiveRoots(trees) + {id} else ActiveRoots(trees) - {id}
    ensures ActiveRoots(trees - {id}) == ActiveRoots(trees) - {id}
    ensures id in ActiveRoots(trees) <==> id in trees && trees[id].active && trees[id].root
  {
  }

  /** An owner's step adds or removes its own tree among the active roots, and changes no other tree and nothing of its own but whether it is active. */
  lemma OwnerStepsMoveRoots(a: Account, e: Event)
    requires IsOwnerStep(e)
    ensures var z, roots := Step(a, e), ActiveRoots(a.trees);
      && ActiveRoots(z.trees) == (if AddsRoot(a, e) then roots + {e.id} else if e.Deactivate? || e.Delete? then roots - {e.id} else roots)
      && z.trees - {e.id} == a.trees - {e.id}
      && (e.id in a.trees && e.id in z.trees ==> z.trees[e.id] == a.trees[e.id].(active := z.trees[e.id].active))
  {
    hide ActiveRoots, HasSlot;
    if e.Create? || e.SaveWizardTree? {
      ActiveRootsAfter(a.trees, e.id, Tree(true, true, false));
    } else if e.Delete? {
      ActiveRootsAfter(a.trees, e.id, Tree(true, true, false));
    } else if e.id in a.trees {
      ActiveRootsAfter(a.trees, e.id, a.trees[e.id].(active := !e.Deactivate?));
    } else {
      ActiveRootsAfter(a.trees, e.id, Tree(true, true, false));
    }
  }

  /** A draft is created exactly while the account is below its tier's cap, of awake roots on Free and of all active roots when paid. */
  lemma CreateSucceedsIff(a: Account, id: nat)
    requires id !in a.trees
    ensures id in Step(a, Create(id)).trees <==>
      if a.premium then |ActiveRoots(a.trees)| < PRO_MAX_WORKFLOWS else |AwakeRoots(a.trees)| < FREE_MAX_WORKFLOWS
    ensures id in Step(a, Create(id)).trees ==> Step(a, Create(id)) == a.(trees := a.trees[id := Tree(true, true, false)])
  {
  }

  /** A paid account gains an active root without a check where it is full. */
  predicate TakesUncheckedPaidSlot(a: Account, e: Event) {
    && a.premium && |ActiveRoots(a.trees)| >= PRO_MAX_WORKFLOWS
    && match e
       case RestoreSample(id) => id in a.trees && !a.trees[id].active && a.trees[id].root
       case SaveWizardTree(id) => id !in a.trees
       case _ => false
  }

  /** One step takes a paid account past twenty active roots, and past where it was, if and only if it takes an unchecked slot. */
  lemma PaidStepKeepsCapIff(a: Account, e: Event)
    requires a.premium
    ensures var before, after := |ActiveRoots(a.trees)|, |ActiveRoots(Step(a, e).trees)|;
      after > PRO_MAX_WORKFLOWS && after > before <==> TakesUncheckedPaidSlot(a, e)
  {
    var roots := ActiveRoots(a.trees);
    if IsOwnerStep(e) {
      hide ActiveRoots, Step;
      OwnerStepsMoveRoots(a, e);
      SubsetSize(roots - {e.id}, roots);
      ActiveRootsAfter(a.trees, e.id, Tree(true, true, false));
    } else {
      assert ActiveRoots(Step(a, e).trees) == roots;
    }
  }

  /** Deleting the one tree left live clears the choice, and every awake root is live then; any other deletion leaves the choice. */
  lemma DeletingLiveRootFreesOthers(a: Account, id: nat)
    ensures var z := Step(a, Delete(id));
      && z.trees == a.trees - {id}
      && z.liveRoot == (if a.liveRoot == Some(id) then None else a.liveRoot)
      && (a.liveRoot == Some(id) && !a.premium && !a.pickRequired ==> LiveRoots(z) == AwakeRoots(z.trees))
  {
  }

  /** On Free, without a pick pending, every awake root is live exactly when none but the chosen live root is awake, or none was chosen. */
  lemma AwakeIsLiveIff(a: Account)
    requires !a.premium && !a.pickRequired
    ensures LiveRoots(a) == AwakeRoots(a.trees) <==> a.liveRoot.None? || AwakeRoots(a.trees) <= {a.liveRoot.value}
  {
    if a.liveRoot.Some? && LiveRoots(a) == AwakeRoots(a.trees) {
      forall x | x in AwakeRoots(a.trees) ensures x == a.liveRoot.value {
        assert x in LiveRoots(a);
      }
    }
  }

  /**
   A tree created after a downgrade that leaves a free slot is awake and takes the slot; it is live
   if and only if the downgrade did not find exactly one active root.
   */
  lemma NewTreeIsLiveIff(a: Account, now: int, id: nat)
    requires |ActiveRoots(a.trees)| < FREE_MAX_WORKFLOWS && id !in a.trees
    ensures var z := Step(Step(a, SubscriptionEnds(now)), Create(id));
      && AwakeRoots(z.trees) == ActiveRoots(a.trees) + {id} && ActiveRoots(a.trees) <= LiveRoots(z)
      && (id in LiveRoots(z) <==> |ActiveRoots(a.trees)| != 1)
  {
    var ended := Step(a, SubscriptionEnds(now));
    AwakeAmong(a.trees, ActiveRoots(a.trees));
    assert AwakeRoots(ended.trees) == ActiveRoots(a.trees) by {
      assert ActiveRoots(a.trees) * ActiveRoots(a.trees) == ActiveRoots(a.trees);
    }
    AwakeRootsAfter(ended.trees, id, Tree(true, true, false));
    if |ActiveRoots(a.trees)| == 1 {
      OnlyIsUnique(ActiveRoots(a.trees));
    }
  }

  /** Deleting trees while a pick is pending leads there: with four active roots at the end and two deleted since, no pick succeeds. */
  lemma DeletionsBlockPick(a: Account, now: int, x: nat, y: nat)
    requires |ActiveRoots(a.trees)| == 4 && x != y && x in ActiveRoots(a.trees) && y in ActiveRoots(a.trees)
    ensures var z := Run(a, [SubscriptionEnds(now), Delete(x), Delete(y)]);
      z.pickRequired && !z.premium && forall ids, at :: Pick(z, ids, at).Err?
  {
    hide Run, Pick;
    var ended := Step(a, SubscriptionEnds(now));
    assert ended.pickRequired && ended.trees == a.trees;
    var z := Step(Step(ended, Delete(x)), Delete(y));
    assert ActiveRoots(z.trees) == ActiveRoots(a.trees) - {x} - {y};
    PickPossibleIff(z);
    RunOfThree(a, SubscriptionEnds(now), Delete(x), Delete(y));
  }

  lemma RunOfThree(a: Account, e0: Event, e1: Event, e2: Event)
    ensures Run(a, [e0, e1, e2]) == Step(Step(Step(a, e0), e1), e2)
  {
    hide Step;
    assert [e0, e1, e2][..2] == [e0, e1] && [e0, e1][..1] == [e0] && [e0][..0] == [];
    assert Run(a, [e0]) == Step(a, e0) && Run(a, [e0, e1]) == Step(Step(a, e0), e1);
  }
}
