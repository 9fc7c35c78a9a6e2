/** The versions of one decision tree: who belongs together, who is the root, who is current. */
module VersionFamily {
  import opened Collections
  import opened Results

  datatype Version = Version(author: Option<nat>, parent: Option<nat>, number: nat, isCurrent: bool)

  type Table = map<nat, Version>

  /** Parents exist, and a new version is numbered above the version it was made from. */
  predicate TableOk(t: Table) {
    forall id :: id in t && t[id].parent.Some? ==> t[id].parent.value in t && t[t[id].parent.value].number < t[id].number
  }

  function Children(t: Table, id: nat): set<nat> {
    set c | c in t && t[c].parent == Some(id)
  }

  // Connected components and roots.

  predicate Linked(t: Table, a: nat, b: nat) {
    a in t && b in t && (t[a].parent == Some(b) || t[b].parent == Some(a))
  }

  predicate IsPath(t: Table, p: seq<nat>) {
    && p != []
    && (forall i :: 0 <= i < |p| ==> p[i] in t)
    && (forall i, j :: 0 <= i < j < |p| && j <= i + 1 ==> Linked(t, p[i], p[j]))
  }

  ghost predicate Connected(t: Table, a: nat, b: nat) {
    exists p :: IsPath(t, p) && p[0] == a && p[|p| - 1] == b
  }

  function Root(t: Table, id: nat): (r: nat)
    requires TableOk(t) && id in t
    ensures r in t && t[r].parent.None?
    decreases t[id].number
  {
    if t[id].parent.None? then id else Root(t, t[id].parent.value)
  }

  lemma {:induction false} PathKeepsRoot(t: Table, p: seq<nat>)
    requires TableOk(t) && IsPath(t, p)
    ensures Root(t, p[0]) == Root(t, p[|p| - 1])
  {
    if |p| > 1 {
      PathKeepsRoot(t, p[..|p| - 1]);
      assert Linked(t, p[|p| - 2], p[|p| - 1]);
    }
  }

  lemma {:induction false} PathToRoot(t: Table, id: nat) returns (p: seq<nat>)
    requires TableOk(t) && id in t
    ensures IsPath(t, p) && p[0] == id && p[|p| - 1] == Root(t, id)
    decreases t[id].number
  {
    if t[id].parent.None? {
      p := [id];
    } else {
      var rest := PathToRoot(t, t[id].parent.value);
      p := [id] + rest;
    }
  }

  lemma LinkIsSymmetric(t: Table, p: seq<nat>)
    requires IsPath(t, p)
    ensures IsPath(t, Reversed(p))
  {
  }

  /** The connected component of the parent and child relation is the set of versions with one root. */
  lemma ConnectedIffSameRoot(t: Table, a: nat, b: nat)
    requires TableOk(t) && a in t && b in t
    ensures Connected(t, a, b) <==> Root(t, a) == Root(t, b)
  {
    if Connected(t, a, b) {
      var p :| IsPath(t, p) && p[0] == a && p[|p| - 1] == b;
      PathKeepsRoot(t, p);
    }
    if Root(t, a) == Root(t, b) {
      var up := PathToRoot(t, a);
      var down := PathToRoot(t, b);
      LinkIsSymmetric(t, down);
      JoinPaths(t, up, Reversed(down));
    }
  }

  lemma JoinPaths(t: Table, p: seq<nat>, q: seq<nat>)
    requires IsPath(t, p) && IsPath(t, q) && p[|p| - 1] == q[0]
    ensures Connected(t, p[0], q[|q| - 1])
  {
    var joined := p + q[1..];
    forall i, j | 0 <= i < j < |joined| && j <= i + 1 ensures Linked(t, joined[i], joined[j]) {
      if j < |p| {
        assert Linked(t, p[i], p[j]);
      } else {
        assert Linked(t, q[i - |p| + 1], q[j - |p| + 1]);
      }
    }
    assert IsPath(t, joined);
  }

  // The list of a family.

  predicate Distinct(s: seq<nat>) {
    forall i, j :: 0 <= i < j < |s| ==> s[i] != s[j]
  }

  predicate Ordered(t: Table, s: seq<nat>) {
    && (forall i :: 0 <= i < |s| ==> s[i] in t)
    && forall i, j :: 0 <= i < j < |s| ==> t[s[i]].number <= t[s[j]].number
  }

  /** Each version of the component once, by number. */
  ghost predicate IsFamily(t: Table, a: nat, s: seq<nat>) {
    Distinct(s) && Ordered(t, s) && forall b :: b in s <==> b in t && Connected(t, a, b)
  }

  /** Among versions of its own number, `a` comes first. */
  predicate FirstOfTies(t: Table, a: nat, s: seq<nat>) {
    forall i, j :: 0 <= i < j < |s| && s[i] in t && s[j] in t && a in t && s[j] == a ==> t[s[i]].number != t[a].number
  }

  predicate AllIn(t: Table, s: seq<nat>) {
    forall i :: 0 <= i < |s| ==> s[i] in t
  }

  /** Where a stable sort puts `x`: after everything numbered no higher. */
  function Position(t: Table, s: seq<nat>, x: nat): (k: nat)
    requires x in t && AllIn(t, s)
    ensures k <= |s| && (k > 0 ==> t[s[k - 1]].number <= t[x].number)
    ensures forall i :: k <= i < |s| ==> t[s[i]].number > t[x].number
  {
    if s == [] || t[s[|s| - 1]].number <= t[x].number then |s| else Position(t, s[..|s| - 1], x)
  }

  function SortByNumber(t: Table, s: seq<nat>): (r: seq<nat>)
    requires AllIn(t, s)
    ensures |r| == |s| && forall y :: y in r <==> y in s
  {
    if s == [] then []
    else
      assert s == s[..|s| - 1] + [s[|s| - 1]];
      var r, x := SortByNumber(t, s[..|s| - 1]), s[|s| - 1];
      assert AllIn(t, r) by {
        forall i | 0 <= i < |r| ensures r[i] in t {
          assert r[i] in s[..|s| - 1];
        }
      }
      var k := Position(t, r, x);
      assert r == r[..k] + r[k..];
      Insert(r, k, x)
  }

  function Insert(s: seq<nat>, k: nat, x: nat): seq<nat>
    requires k <= |s|
  {
    s[..k] + [x] + s[k..]
  }

  lemma InsertSorts(t: Table, s: seq<nat>, x: nat, a: nat)
    requires Ordered(t, s) && Distinct(s) && x in t && x !in s
    ensures var r := Insert(s, Position(t, s, x), x);
      Ordered(t, r) && Distinct(r) && (a in s && FirstOfTies(t, a, s) ==> FirstOfTies(t, a, r))
  {
    var k := Position(t, s, x);
    var r := Insert(s, k, x);
    forall i | 0 <= i < |r| ensures r[i] in t {
      InsertedAt(s, k, x, i);
    }
    forall i, j | 0 <= i < j < |r|
      ensures t[r[i]].number <= t[r[j]].number && r[i] != r[j]
      ensures a in s && FirstOfTies(t, a, s) && r[j] == a ==> t[r[i]].number != t[a].number
    {
      InsertedAt(s, k, x, i);
      InsertedAt(s, k, x, j);
      if j == k {
        assert t[s[i]].number <= t[s[k - 1]].number;
      }
    }
  }

  lemma InsertedAt(s: seq<nat>, k: nat, x: nat, i: nat)
    requires k <= |s| && i <= |s|
    ensures Insert(s, k, x)[i] == if i < k then s[i] else if i == k then x else s[i - 1]
  {
  }

  lemma {:induction false} SortSorts(t: Table, s: seq<nat>)
    requires Distinct(s) && AllIn(t, s)
    ensures Ordered(t, SortByNumber(t, s)) && Distinct(SortByNumber(t, s))
    ensures s != [] ==> FirstOfTies(t, s[0], SortByNumber(t, s))
  {
    hide Position, Insert;
    if s != [] {
      var before, last := s[..|s| - 1], s[|s| - 1];
      SortSorts(t, before);
      InsertSorts(t, SortByNumber(t, before), last, s[0]);
    }
  }

  // The worklist.

  /** A set closed under links contains the component of each of its members. */
  lemma {:induction false} ClosedHasRoot(t: Table, family: set<nat>, a: nat)
    requires TableOk(t) && a in family && a in t
    requires forall x, y :: x in family && Linked(t, x, y) ==> y in family
    ensures Root(t, a) in family
    decreases t[a].number
  {
    if t[a].parent.Some? {
      assert Linked(t, a, t[a].parent.value);
      ClosedHasRoot(t, family, t[a].parent.value);
    }
  }

  lemma {:induction false} ClosedHasBelow(t: Table, family: set<nat>, b: nat)
    requires TableOk(t) && b in t && Root(t, b) in family
    requires forall x, y :: x in family && Linked(t, x, y) ==> y in family
    ensures b in family
    decreases t[b].number
  {
    if t[b].parent.Some? {
      ClosedHasBelow(t, family, t[b].parent.value);
      assert Linked(t, t[b].parent.value, b);
    }
  }

  /** What the worklist knows: members share the root, and only `open` ones may have links that lead out. */
  ghost predicate WorklistOk(t: Table, a: nat, family: seq<nat>, open: set<nat>)
    requires TableOk(t) && a in t
  {
    && family != [] && family[0] == a && Distinct(family)
    && (forall x :: x in family ==> x in t && Root(t, x) == Root(t, a))
    && (forall x, y :: x in family && x !in open && Linked(t, x, y) ==> y in family)
  }

  lemma JoinKeepsWorklist(t: Table, a: nat, family: seq<nat>, open: set<nat>, current: nat, x: nat)
    requires TableOk(t) && a in t && WorklistOk(t, a, family, open)
    requires current in family && Linked(t, current, x) && x !in family
    ensures WorklistOk(t, a, family + [x], open + {x})
    ensures x in t.Keys && Elements(family + [x]) == Elements(family) + {x} && x !in Elements(family)
  {
    assert Root(t, x) == Root(t, current);
    forall y | y in Elements(family) + {x} ensures y in Elements(family + [x]) {
      if y != x {
        var i :| 0 <= i < |family| && family[i] == y;
        assert (family + [x])[i] == y;
      } else {
        assert (family + [x])[|family|] == x;
      }
    }
  }

  lemma CloseCurrent(t: Table, a: nat, family: seq<nat>, open: set<nat>, current: nat)
    requires TableOk(t) && a in t && WorklistOk(t, a, family, open + {current})
    requires forall y :: Linked(t, current, y) ==> y in family
    ensures WorklistOk(t, a, family, open)
  {
  }

  lemma ClosedIsComponent(t: Table, a: nat, family: seq<nat>)
    requires TableOk(t) && a in t && WorklistOk(t, a, family, {})
    ensures forall b :: b in family <==> b in t && Connected(t, a, b)
  {
    hide Root, Linked, Connected, IsPath;
    forall b | b in t ensures b in family <==> Connected(t, a, b) {
      ConnectedIffSameRoot(t, a, b);
      if Root(t, b) == Root(t, a) {
        var members := Elements(family);
        assert family[0] in members;
        ClosedHasRoot(t, members, a);
        ClosedHasBelow(t, members, b);
      }
    }
  }

  lemma LinksOf(t: Table, current: nat, y: nat)
    requires TableOk(t) && current in t
    ensures Linked(t, current, y) <==> t[current].parent == Some(y) || y in Children(t, current)
  {
  }

  lemma StartWorklist(t: Table, a: nat)
    requires TableOk(t) && a in t
    ensures WorklistOk(t, a, [a], Elements([a])) && Elements([a]) <= t.Keys
  {
  }

  lemma PopWaiting(waiting: seq<nat>)
    requires waiting != []
    ensures Elements(waiting) == Elements(waiting[..|waiting| - 1]) + {waiting[|waiting| - 1]}
  {
  }

  lemma PushWaiting(waiting: seq<nat>, x: nat)
    ensures Elements(waiting + [x]) == Elements(waiting) + {x}
  {
    assert (waiting + [x])[..|waiting|] == waiting;
    PopWaiting(waiting + [x]);
  }

  lemma WorklistDone(t: Table, a: nat, family: seq<nat>)
    requires TableOk(t) && a in t && WorklistOk(t, a, family, Elements([]))
    ensures WorklistOk(t, a, family, {}) && Distinct(family) && AllIn(t, family) && family != [] && family[0] == a
  {
  }

  method GetVersionFamily(t: Table, a: nat) returns (r: seq<nat>)
    requires TableOk(t) && a in t
    ensures IsFamily(t, a, r) && FirstOfTies(t, a, r)
  {
    hide Root, Linked, WorklistOk, SortByNumber, Elements, Connected, Children;
    var family, waiting := [a], [a];
    StartWorklist(t, a);
    while waiting != []
      invariant WorklistOk(t, a, family, Elements(waiting)) && Elements(family) <= t.Keys
      invariant forall x :: x in waiting ==> x in family && x in t
      decreases t.Keys - Elements(family), |waiting|
    {
      var current := waiting[|waiting| - 1];
      PopWaiting(waiting);
      waiting := waiting[..|waiting| - 1];
      ghost var members, rest := Elements(family), waiting;
      var parent := t[current].parent;
      if parent.Some? && parent.value !in family {
        LinksOf(t, current, parent.value);
        JoinKeepsWorklist(t, a, family, Elements(waiting) + {current}, current, parent.value);
        PushWaiting(waiting, parent.value);
        assert Elements(waiting) + {current} + {parent.value} == Elements(waiting + [parent.value]) + {current};
        family, waiting := family + [parent.value], waiting + [parent.value];
      }
      var todo := Children(t, current);
      while todo != {}
        invariant todo <= Children(t, current)
        invariant WorklistOk(t, a, family, Elements(waiting) + {current})
        invariant current in family && (parent.Some? ==> parent.value in family)
        invariant forall x :: x in waiting ==> x in family && x in t
        invariant forall y :: y in Children(t, current) && y !in todo ==> y in family
        invariant Elements(family) >= members && (Elements(family) == members ==> waiting == rest)
        invariant Elements(family) <= t.Keys
        decreases todo
      {
        var child :| child in todo;
        if child !in family {
          LinksOf(t, current, child);
          JoinKeepsWorklist(t, a, family, Elements(waiting) + {current}, current, child);
          PushWaiting(waiting, child);
          assert Elements(waiting) + {current} + {child} == Elements(waiting + [child]) + {current};
          family, waiting := family + [child], waiting + [child];
        }
        todo := todo - {child};
      }
      forall y | Linked(t, current, y) ensures y in family {
        LinksOf(t, current, y);
      }
      CloseCurrent(t, a, family, Elements(waiting), current);
    }
    WorklistDone(t, a, family);
    ClosedIsComponent(t, a, family);
    SortSorts(t, family);
    r := SortByNumber(t, family);
  }

  method GetRootVersion(t: Table, a: nat) returns (root: nat)
    requires TableOk(t) && a in t
    ensures root == Root(t, a)
  {
    root := a;
    while t[root].parent.Some?
      invariant root in t && Root(t, root) == Root(t, a)
      decreases t[root].number
    {
      root := t[root].parent.value;
    }
  }

  /** Whichever member one starts from: one family and one root. */
  lemma SameFromAnyMember(t: Table, a: nat, b: nat, r: seq<nat>, s: seq<nat>)
    requires TableOk(t) && a in t && b in t && Connected(t, a, b)
    requires IsFamily(t, a, r) && IsFamily(t, b, s)
    ensures Elements(r) == Elements(s) && Root(t, a) == Root(t, b)
  {
    hide Root, Connected;
    ConnectedIffSameRoot(t, a, b);
    forall x | x in t ensures x in r <==> x in s {
      ConnectedIffSameRoot(t, a, x);
      ConnectedIffSameRoot(t, b, x);
    }
  }

  // The family as the database queries collect it: up to the root, then down level by level.

  method GetVersionFamilyFromDb(t: Table, a: nat) returns (r: seq<nat>)
    requires TableOk(t) && a in t
    ensures IsFamily(t, a, r)
  {
    hide Root, Linked, Connected, IsFamily;
    var root := GetRootVersion(t, a);
    RootIsRoot(t, a);
    var family, toCheck := {root}, {root};
    while toCheck != {}
      invariant root in family && toCheck <= family && family <= t.Keys
      invariant forall x :: x in family ==> Root(t, x) == root
      invariant forall x, c :: x in family && x !in toCheck && c in Children(t, x) ==> c in family
      decreases t.Keys - family, toCheck
    {
      var found := set c | c in t && t[c].parent.Some? && t[c].parent.value in toCheck;
      forall c | c in found ensures Root(t, c) == root {
        ChildSharesRoot(t, c);
      }
      toCheck := found - family;
      family := family + toCheck;
    }
    r := InOrder(t, family);
    ElementsAreFamily(t, a, family, r);
  }

  /** `ORDER BY version_number`, ties in any order. */
  method InOrder(t: Table, ids: set<nat>) returns (r: seq<nat>)
    requires ids <= t.Keys
    ensures Distinct(r) && Ordered(t, r) && forall x :: x in r <==> x in ids
  {
    hide SortByNumber;
    var s, todo := [], ids;
    while todo != {}
      invariant todo <= ids && Distinct(s) && AllIn(t, s)
      invariant forall x :: x in s <==> x in ids - todo
      decreases todo
    {
      var x :| x in todo;
      assert x !in s;
      s, todo := s + [x], todo - {x};
    }
    SortSorts(t, s);
    r := SortByNumber(t, s);
  }

  lemma RootIsRoot(t: Table, a: nat)
    requires TableOk(t) && a in t
    ensures Root(t, Root(t, a)) == Root(t, a)
  {
  }

  lemma ChildSharesRoot(t: Table, c: nat)
    requires TableOk(t) && c in t && t[c].parent.Some?
    ensures Root(t, c) == Root(t, t[c].parent.value)
  {
  }

  lemma {:induction false} ClosedBelowRoot(t: Table, family: set<nat>, root: nat, b: nat)
    requires TableOk(t) && root in family && b in t && Root(t, b) == root
    requires forall x, c :: x in family && c in Children(t, x) ==> c in family
    ensures b in family
    decreases t[b].number
  {
    if t[b].parent.Some? {
      ClosedBelowRoot(t, family, root, t[b].parent.value);
      assert b in Children(t, t[b].parent.value);
    }
  }

  lemma ElementsAreFamily(t: Table, a: nat, family: set<nat>, r: seq<nat>)
    requires TableOk(t) && a in t && family <= t.Keys
    requires forall x :: x in family ==> x in t && Root(t, x) == Root(t, a)
    requires Root(t, a) in family && forall x, c :: x in family && c in Children(t, x) ==> c in family
    requires Distinct(r) && Ordered(t, r) && forall x :: x in r <==> x in family
    ensures IsFamily(t, a, r)
  {
    hide Connected, Root, Children;
    forall b | b in t ensures b in family <==> Connected(t, a, b) {
      ConnectedIffSameRoot(t, a, b);
      if Root(t, b) == Root(t, a) {
        ClosedBelowRoot(t, family, Root(t, a), b);
      }
    }
  }

  // The current version.

  function FirstCurrent(t: Table, r: seq<nat>): Option<nat>
    requires AllIn(t, r)
  {
    if r == [] then None
    else if t[r[0]].isCurrent then Some(r[0])
    else FirstCurrent(t, r[1..])
  }

  /** The first version with the highest number, as `max` picks it. */
  function FirstHighest(t: Table, r: seq<nat>): (highest: nat)
    requires AllIn(t, r) && r != []
    ensures highest in r
  {
    if |r| == 1 then r[0]
    else
      var rest := FirstHighest(t, r[1..]);
      if t[rest].number > t[r[0]].number then rest else r[0]
  }

  function CurrentOf(t: Table, r: seq<nat>): nat
    requires AllIn(t, r) && r != []
  {
    var flagged := FirstCurrent(t, r);
    if flagged.Some? then flagged.value else FirstHighest(t, r)
  }

  method GetCurrentVersion(t: Table, a: nat) returns (current: nat)
    requires TableOk(t) && a in t
    ensures exists r :: IsFamily(t, a, r) && FirstOfTies(t, a, r) && r != [] && AllIn(t, r) && current == CurrentOf(t, r)
  {
    hide Connected, FirstCurrent, FirstHighest;
    var family := GetVersionFamily(t, a);
    SelfConnected(t, a);
    var flagged := FirstCurrent(t, family);
    current := if flagged.Some? then flagged.value else FirstHighest(t, family);
    assert current == CurrentOf(t, family);
  }

  lemma SelfConnected(t: Table, a: nat)
    requires a in t
    ensures Connected(t, a, a)
  {
    assert IsPath(t, [a]) && [a][0] == a && [a][|[a]| - 1] == a;
  }

  /** The lowest-numbered versions flagged current, or without any the highest-numbered ones. */
  predicate IsCandidate(t: Table, family: set<nat>, c: nat)
    requires family <= t.Keys
  {
    && c in family
    && if exists x :: x in family && t[x].isCurrent
       then t[c].isCurrent && forall x :: x in family && t[x].isCurrent ==> t[c].number <= t[x].number
       else forall x :: x in family ==> t[x].number <= t[c].number
  }

  predicate IsFirstCurrent(t: Table, r: seq<nat>, i: nat)
    requires AllIn(t, r)
  {
    i < |r| && t[r[i]].isCurrent && forall j :: 0 <= j < i ==> !t[r[j]].isCurrent
  }

  predicate IsFirstHighest(t: Table, r: seq<nat>, i: nat)
    requires AllIn(t, r)
  {
    && i < |r|
    && (forall j :: 0 <= j < i ==> t[r[j]].number < t[r[i]].number)
    && (forall j :: 0 <= j < |r| ==> t[r[j]].number <= t[r[i]].number)
  }

  lemma {:induction false} FirstCurrentIs(t: Table, r: seq<nat>) returns (i: nat)
    requires AllIn(t, r)
    ensures FirstCurrent(t, r).None? ==> forall i :: 0 <= i < |r| ==> !t[r[i]].isCurrent
    ensures FirstCurrent(t, r).Some? ==> IsFirstCurrent(t, r, i) && r[i] == FirstCurrent(t, r).value
  {
    i := 0;
    if r != [] && !t[r[0]].isCurrent {
      var k := FirstCurrentIs(t, r[1..]);
      i := k + 1;
      forall j | 1 <= j < |r| ensures r[j] == r[1..][j - 1] {
      }
    }
  }

  lemma {:induction false} FirstHighestIs(t: Table, r: seq<nat>) returns (i: nat)
    requires AllIn(t, r) && r != []
    ensures IsFirstHighest(t, r, i) && r[i] == FirstHighest(t, r)
  {
    i := 0;
    if |r| > 1 {
      var k := FirstHighestIs(t, r[1..]);
      i := if t[r[k + 1]].number > t[r[0]].number then k + 1 else 0;
      forall j | 1 <= j < |r| ensures r[j] == r[1..][j - 1] {
      }
    }
  }

  /** The choice is always a candidate, and the version one starts from if that is one. */
  lemma CurrentIsCandidate(t: Table, a: nat, r: seq<nat>, family: set<nat>)
    requires Distinct(r) && Ordered(t, r) && FirstOfTies(t, a, r) && r != [] && AllIn(t, r)
    requires family <= t.Keys && forall x :: x in r <==> x in family
    ensures IsCandidate(t, family, CurrentOf(t, r))
    ensures IsCandidate(t, family, a) ==> CurrentOf(t, r) == a
  {
    hide FirstCurrent, FirstHighest;
    var i := FirstCurrentIs(t, r);
    if FirstCurrent(t, r).None? {
      i := FirstHighestIs(t, r);
      assert !exists x :: x in family && t[x].isCurrent;
    }
    assert r[i] in r;
    forall x | x in family ensures x in r {
    }
    if IsCandidate(t, family, a) {
      var k :| 0 <= k < |r| && r[k] == a;
      assert i <= k;
    }
  }

  /**
   The current version is the same whichever member one asks if and only if the family has one
   candidate: each candidate answers with itself.
   */
  lemma SameCurrentIff(t: Table, a: nat, family: set<nat>, lists: nat -> seq<nat>)
    requires TableOk(t) && a in family && family <= t.Keys
    requires forall b :: b in family ==>
        && Distinct(lists(b)) && Ordered(t, lists(b)) && FirstOfTies(t, b, lists(b)) && lists(b) != [] && AllIn(t, lists(b))
        && forall x :: x in lists(b) <==> x in family
    ensures (forall b, c :: b in family && c in family ==> CurrentOf(t, lists(b)) == CurrentOf(t, lists(c)))
      <==> (forall b, c :: IsCandidate(t, family, b) && IsCandidate(t, family, c) ==> b == c)
  {
    hide CurrentOf, IsCandidate;
    forall b | b in family
      ensures IsCandidate(t, family, CurrentOf(t, lists(b))) && (IsCandidate(t, family, b) ==> CurrentOf(t, lists(b)) == b)
    {
      CurrentIsCandidate(t, b, lists(b), family);
    }
    forall b | IsCandidate(t, family, b) ensures b in family {
      CandidateIsMember(t, family, b);
    }
  }

  lemma CandidateIsMember(t: Table, family: set<nat>, c: nat)
    requires family <= t.Keys && IsCandidate(t, family, c)
    ensures c in family
  {
  }

  /** Two versions made from one original, as creating a version twice leaves them: both are candidates. */
  lemma TwoVersionsOfOneOriginal()
    ensures var t := map[0 := Version(Some(7), None, 1, false), 1 := Version(Some(7), Some(0), 2, true), 2 := Version(Some(7), Some(0), 2, true)];
      && TableOk(t) && Connected(t, 1, 2)
      && IsCandidate(t, {0, 1, 2}, 1) && IsCandidate(t, {0, 1, 2}, 2)
  {
    var t := map[0 := Version(Some(7), None, 1, false), 1 := Version(Some(7), Some(0), 2, true), 2 := Version(Some(7), Some(0), 2, true)];
    assert IsPath(t, [1, 0, 2]) && [1, 0, 2][0] == 1 && [1, 0, 2][|[1, 0, 2]| - 1] == 2;
  }
}
