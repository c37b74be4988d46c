/**
  The scene's action manager: the list of running actions plus the list of
  removals requested while an update pass is running. An action is an
  abstract handle that carries its tag and its target node; two handles are
  the same action exactly when they are equal values (object identity in the source).
  What an action does when updated, and whether it is done afterwards, are
  left abstract: an update pass takes them as parameters.
 */
module ActionManager {
  import opened Common

  /** An action handle; `id` tells apart actions that share a tag and a target. */
  datatype Action = Action(id: nat, tag: nat, target: nat)

  /**
    The manager's state: the managed actions in insertion order, the
    removals deferred while a pass runs, and whether a pass is running.
   */
  datatype Manager = Manager(actions: seq<Action>, removeList: seq<Action>, updating: bool)

  /** A freshly constructed manager. */
  const NewManager := Manager([], [], false)

  predicate NoDuplicates(xs: seq<Action>) {
    forall i, j :: 0 <= i < j < |xs| ==> xs[i] != xs[j]
  }

  /** The filter of the tag/target queries; `tag == None` asks for any tag. */
  predicate Selects(a: Action, target: nat, tag: Option<nat>) {
    a.target == target && (tag.None? || a.tag == tag.value)
  }

  // ---------------------------------------------------------------------
  // Order-preserving selections (defined from the back, so that a loop
  // over a prefix extends them one element at a time)
  // ---------------------------------------------------------------------

  /** The elements of `xs` that are not in `drop`, in their order. */
  function Without(xs: seq<Action>, drop: set<Action>): (r: seq<Action>)
    ensures forall a :: a in r <==> a in xs && a !in drop
    ensures |r| <= |xs|
  {
    if xs == [] then []
    else
      var rest := Without(xs[..|xs| - 1], drop);
      assert forall a :: a in xs <==> a in xs[..|xs| - 1] || a == xs[|xs| - 1];
      if xs[|xs| - 1] in drop then rest else rest + [xs[|xs| - 1]]
  }

  /** The elements of `xs` that the query selects, in their order. */
  function Selection(xs: seq<Action>, target: nat, tag: Option<nat>): (r: seq<Action>)
    ensures forall a :: a in r <==> a in xs && Selects(a, target, tag)
    ensures |r| <= |xs|
  {
    if xs == [] then []
    else
      var rest := Selection(xs[..|xs| - 1], target, tag);
      assert forall a :: a in xs <==> a in xs[..|xs| - 1] || a == xs[|xs| - 1];
      if Selects(xs[|xs| - 1], target, tag) then rest + [xs[|xs| - 1]] else rest
  }

  /** The elements of `xs` that are in `done`, in their order. */
  function DoneOf(xs: seq<Action>, done: set<Action>): (r: seq<Action>)
    ensures forall a :: a in r <==> a in xs && a in done
  {
    if xs == [] then []
    else
      var rest := DoneOf(xs[..|xs| - 1], done);
      assert forall a :: a in xs <==> a in xs[..|xs| - 1] || a == xs[|xs| - 1];
      if xs[|xs| - 1] in done then rest + [xs[|xs| - 1]] else rest
  }

  /** Dropping two sets one after the other drops their union. */
  lemma {:induction false} WithoutTwice(xs: seq<Action>, a: set<Action>, b: set<Action>)
    ensures Without(Without(xs, a), b) == Without(xs, a + b)
  {
    if xs != [] {
      var init := xs[..|xs| - 1];
      WithoutTwice(init, a, b);
    }
  }

  /** Only the dropped elements that occur in the list matter. */
  lemma {:induction false} WithoutSameOnList(xs: seq<Action>, a: set<Action>, b: set<Action>)
    requires forall x :: x in xs ==> (x in a <==> x in b)
    ensures Without(xs, a) == Without(xs, b)
  {
    if xs != [] {
      var init := xs[..|xs| - 1];
      assert forall x :: x in init ==> x in xs;
      WithoutSameOnList(init, a, b);
    }
  }

  /** Dropping elements keeps a duplicate-free list duplicate-free. */
  lemma {:induction false} WithoutKeepsNoDuplicates(xs: seq<Action>, drop: set<Action>)
    requires NoDuplicates(xs)
    ensures NoDuplicates(Without(xs, drop))
  {
    if xs != [] {
      var init := xs[..|xs| - 1];
      var last := xs[|xs| - 1];
      assert NoDuplicates(init) by {
        forall i, j | 0 <= i < j < |init| ensures init[i] != init[j] {
          assert init[i] == xs[i] && init[j] == xs[j];
        }
      }
      WithoutKeepsNoDuplicates(init, drop);
      assert last !in init by {
        forall i | 0 <= i < |init| ensures init[i] != last {
          assert init[i] == xs[i];
        }
      }
      var rest := Without(init, drop);
      if last !in drop {
        assert last !in rest;
        var r := rest + [last];
        forall i, j | 0 <= i < j < |r| ensures r[i] != r[j] {
          if j == |rest| {
            assert r[i] == rest[i] && rest[i] in rest;
          } else {
            assert r[i] == rest[i] && r[j] == rest[j];
          }
        }
      }
    }
  }

  /** Dropping one element that occurs once shortens the list by exactly one. */
  lemma {:induction false} WithoutOneOccurrence(xs: seq<Action>, x: Action)
    requires NoDuplicates(xs) && x in xs
    ensures |Without(xs, {x})| == |xs| - 1
  {
    var init := xs[..|xs| - 1];
    var last := xs[|xs| - 1];
    assert NoDuplicates(init) by {
      forall i, j | 0 <= i < j < |init| ensures init[i] != init[j] {
        assert init[i] == xs[i] && init[j] == xs[j];
      }
    }
    if last == x {
      assert x !in init by {
        forall i | 0 <= i < |init| ensures init[i] != x {
          assert init[i] == xs[i];
        }
      }
      WithoutNothing(init, {x});
    } else {
      assert x in init by {
        var k :| 0 <= k < |xs| && xs[k] == x;
        assert k < |init| && init[k] == x;
      }
      WithoutOneOccurrence(init, x);
    }
  }

  /** A list none of whose elements is dropped is kept whole. */
  lemma {:induction false} WithoutNothing(xs: seq<Action>, drop: set<Action>)
    requires forall x :: x in xs ==> x !in drop
    ensures Without(xs, drop) == xs
  {
    if xs != [] {
      var init := xs[..|xs| - 1];
      assert forall x :: x in init ==> x in xs;
      WithoutNothing(init, drop);
      assert init + [xs[|xs| - 1]] == xs;
    }
  }

  // ---------------------------------------------------------------------
  // Adding, counting, clearing
  // ---------------------------------------------------------------------

  /** addAction: appends the action unless the manager already holds it. */
  function AddAction(m: Manager, a: Action): (r: Manager)
    ensures r.removeList == m.removeList && r.updating == m.updating
    ensures a in r.actions
    ensures forall b :: b in r.actions <==> b in m.actions || b == a
    ensures a in m.actions ==> r == m
    ensures a !in m.actions ==> r.actions == m.actions + [a]
    ensures NoDuplicates(m.actions) ==> NoDuplicates(r.actions)
  {
    if a in m.actions then m
    else
      var r := m.(actions := m.actions + [a]);
      assert NoDuplicates(m.actions) ==> NoDuplicates(r.actions) by {
        if NoDuplicates(m.actions) {
          forall i, j | 0 <= i < j < |r.actions| ensures r.actions[i] != r.actions[j] {
            assert r.actions[i] == m.actions[i] && m.actions[i] in m.actions;
          }
        }
      }
      r
  }

  function Count(m: Manager): nat {
    |m.actions|
  }

  function IsEmpty(m: Manager): (b: bool)
    ensures b <==> Count(m) == 0
  {
    m.actions == []
  }

  /** clear: drops every action (deleting them is not modelled). */
  function Clear(m: Manager): (r: Manager)
    ensures IsEmpty(r) && Count(r) == 0
    ensures r.removeList == m.removeList && r.updating == m.updating
  {
    m.(actions := [])
  }

  /** Adding an action grows the count by one exactly when the action is new. */
  lemma CountAfterAdd(m: Manager, a: Action)
    ensures Count(AddAction(m, a)) == Count(m) + (if a in m.actions then 0 else 1)
    ensures !IsEmpty(AddAction(m, a))
  {
  }

  // ---------------------------------------------------------------------
  // Queries
  // ---------------------------------------------------------------------

  /** Index of the first action at or after `from` with the tag, or `|xs|`. */
  function FirstWithTag(xs: seq<Action>, tag: nat, from: nat): (i: nat)
    requires from <= |xs|
    ensures from <= i <= |xs|
    ensures i < |xs| ==> xs[i].tag == tag
    ensures forall j :: from <= j < i ==> xs[j].tag != tag
    decreases |xs| - from
  {
    if from == |xs| then from
    else if xs[from].tag == tag then from
    else FirstWithTag(xs, tag, from + 1)
  }

  /** getActionByTag: the first action with the tag, or None (the null handle). */
  function GetActionByTag(m: Manager, tag: nat): (r: Option<Action>)
    ensures r.None? <==> forall a :: a in m.actions ==> a.tag != tag
    ensures r.Some? ==> exists i :: 0 <= i < |m.actions| && m.actions[i] == r.value && r.value.tag == tag
                                    && forall j :: 0 <= j < i ==> m.actions[j].tag != tag
  {
    var i := FirstWithTag(m.actions, tag, 0);
    if i < |m.actions| then Some(m.actions[i]) else None
  }

  /** getActionsFromTarget (tag None) and getActionsByTagFromTarget (tag Some): a scan collecting the selected actions. */
  method GetActions(m: Manager, target: nat, tag: Option<nat>) returns (r: seq<Action>)
    ensures r == Selection(m.actions, target, tag)
    ensures forall a :: a in r <==> a in m.actions && Selects(a, target, tag)
  {
    r := [];
    for i := 0 to |m.actions|
      invariant r == Selection(m.actions[..i], target, tag)
    {
      var action := m.actions[i];
      assert m.actions[..i + 1][..i] == m.actions[..i];
      if Selects(action, target, tag) {
        r := r + [action];
      }
    }
    assert m.actions[..|m.actions|] == m.actions;
  }

  method GetActionsFromTarget(m: Manager, target: nat) returns (r: seq<Action>)
    ensures forall a :: a in r <==> a in m.actions && a.target == target
    ensures r == Selection(m.actions, target, None)
  {
    r := GetActions(m, target, None);
  }

  method GetActionsByTagFromTarget(m: Manager, target: nat, tag: nat) returns (r: seq<Action>)
    ensures forall a :: a in r <==> a in m.actions && a.target == target && a.tag == tag
    ensures r == Selection(m.actions, target, Some(tag))
  {
    r := GetActions(m, target, Some(tag));
  }

  // ---------------------------------------------------------------------
  // Removal
  // ---------------------------------------------------------------------

  /**
    removeAction: a null handle is ignored; while a pass runs the removal is
    only deferred; otherwise every occurrence of the action is erased.
   */
  function RemoveAction(m: Manager, a: Option<Action>): (r: Manager)
    ensures r.updating == m.updating
    ensures a.None? ==> r == m
    ensures a.Some? && m.updating ==> r.actions == m.actions && r.removeList == m.removeList + [a.value]
    ensures a.Some? && !m.updating ==> r.removeList == m.removeList
    ensures a.Some? && !m.updating ==> forall b :: b in r.actions <==> b in m.actions && b != a.value
    ensures a.Some? && !m.updating && a.value !in m.actions ==> r == m
  {
    match a
    case None => m
    case Some(x) =>
      if m.updating then m.(removeList := m.removeList + [x])
      else if x in m.actions then m.(actions := Without(m.actions, {x}))
      else m
  }

  /** Outside a pass, removing a held action of a duplicate-free list lowers the count by one. */
  lemma RemoveLowersCount(m: Manager, a: Action)
    requires !m.updating && NoDuplicates(m.actions) && a in m.actions
    ensures Count(RemoveAction(m, Some(a))) == Count(m) - 1
    ensures NoDuplicates(RemoveAction(m, Some(a)).actions)
  {
    WithoutOneOccurrence(m.actions, a);
    WithoutKeepsNoDuplicates(m.actions, {a});
  }

  /** removeActions: removeAction on each handle of the list in turn. */
  function RemoveActions(m: Manager, xs: seq<Action>): (r: Manager)
    ensures r.updating == m.updating
    ensures m.updating ==> r.actions == m.actions && r.removeList == m.removeList + xs
    ensures !m.updating ==> r.removeList == m.removeList && r.actions == Without(m.actions, set a | a in xs)
  {
    if xs == [] then
      WithoutNothing(m.actions, {});
      assert (set a | a in xs) == {};
      m
    else
      var init := xs[..|xs| - 1];
      var last := xs[|xs| - 1];
      var before := RemoveActions(m, init);
      RemoveOneMore(m, xs, init, last, before);
      RemoveAction(before, Some(last))
  }

  /** The step of removeActions: removing one more handle after the first ones. */
  lemma RemoveOneMore(m: Manager, xs: seq<Action>, init: seq<Action>, last: Action, before: Manager)
    requires xs != [] && init == xs[..|xs| - 1] && last == xs[|xs| - 1]
    requires before.updating == m.updating
    requires m.updating ==> before.actions == m.actions && before.removeList == m.removeList + init
    requires !m.updating ==> before.removeList == m.removeList && before.actions == Without(m.actions, set a | a in init)
    ensures m.updating ==> RemoveAction(before, Some(last)).removeList == m.removeList + xs
    ensures !m.updating ==> RemoveAction(before, Some(last)).actions == Without(m.actions, set a | a in xs)
  {
    assert xs == init + [last];
    if !m.updating {
      WithoutTwice(m.actions, set a | a in init, {last});
      assert (set a | a in init) + {last} == set a | a in xs;
      if last !in before.actions {
        WithoutNothing(before.actions, {last});
      }
    }
  }

  /**
    removeActionByTag: removes the first action carrying the tag, if any;
    while a pass runs, that action is only queued for removal.
   */
  function RemoveActionByTag(m: Manager, tag: nat): (r: Manager)
    ensures r.updating == m.updating
    ensures GetActionByTag(m, tag).None? ==> r == m
    ensures !m.updating ==> r.removeList == m.removeList
    ensures !m.updating && GetActionByTag(m, tag).Some? ==>
              r.actions == Without(m.actions, {GetActionByTag(m, tag).value})
    ensures m.updating && GetActionByTag(m, tag).Some? ==>
              r.actions == m.actions && r.removeList == m.removeList + [GetActionByTag(m, tag).value]
  {
    var a := GetActionByTag(m, tag);
    if a.Some? && !m.updating && a.value in m.actions then
      assert RemoveAction(m, a) == m.(actions := Without(m.actions, {a.value}));
      RemoveAction(m, a)
    else
      RemoveAction(m, a)
  }

  /**
    removeActionsByTagFromTarget (tag Some) and removeAllActionsFromTarget
    (tag None): first collect the selected actions, then remove each.
   */
  method RemoveSelected(m: Manager, target: nat, tag: Option<nat>) returns (r: Manager)
    ensures r.updating == m.updating
    ensures !m.updating ==> r.removeList == m.removeList
    ensures !m.updating ==> forall a :: a in r.actions <==> a in m.actions && !Selects(a, target, tag)
    ensures !m.updating ==> r.actions == Without(m.actions, set a | a in m.actions && Selects(a, target, tag))
    ensures m.updating ==> r.actions == m.actions
    ensures m.updating ==> r.removeList == m.removeList + Selection(m.actions, target, tag)
  {
    var removeList := GetActions(m, target, tag);
    r := RemoveEach(m, removeList);
    SelectedRemoved(m, target, tag, removeList);
  }

  /** The loop of removeActions and of the two bulk removals: removeAction on each handle. */
  method RemoveEach(m: Manager, xs: seq<Action>) returns (r: Manager)
    ensures r == RemoveActions(m, xs)
  {
    r := m;
    for i := 0 to |xs|
      invariant r == RemoveActions(m, xs[..i])
    {
      assert xs[..i + 1][..i] == xs[..i];
      r := RemoveAction(r, Some(xs[i]));
    }
    assert xs[..|xs|] == xs;
  }

  /** Removing the selection of a query removes exactly the selected actions. */
  lemma SelectedRemoved(m: Manager, target: nat, tag: Option<nat>, removeList: seq<Action>)
    requires removeList == Selection(m.actions, target, tag)
    ensures !m.updating ==> RemoveActions(m, removeList).actions
                              == Without(m.actions, set a | a in m.actions && Selects(a, target, tag))
  {
    if !m.updating {
      WithoutSameOnList(m.actions, set a | a in removeList, set a | a in m.actions && Selects(a, target, tag));
    }
  }

  method RemoveAllActionsFromTarget(m: Manager, target: nat) returns (r: Manager)
    ensures r.updating == m.updating
    ensures !m.updating ==> r.removeList == m.removeList
    ensures !m.updating ==> forall a :: a in r.actions <==> a in m.actions && a.target != target
    ensures !m.updating ==> r.actions == Without(m.actions, set a | a in m.actions && a.target == target)
    ensures m.updating ==> r.actions == m.actions && r.removeList == m.removeList + Selection(m.actions, target, None)
  {
    r := RemoveSelected(m, target, None);
    assert (set a | a in m.actions && a.target == target) == (set a | a in m.actions && Selects(a, target, None));
  }

  method RemoveActionsByTagFromTarget(m: Manager, target: nat, tag: nat) returns (r: Manager)
    ensures r.updating == m.updating
    ensures !m.updating ==> r.removeList == m.removeList
    ensures !m.updating ==> forall a :: a in r.actions <==> a in m.actions && !(a.target == target && a.tag == tag)
    ensures !m.updating ==> r.actions == Without(m.actions, set a | a in m.actions && a.target == target && a.tag == tag)
    ensures m.updating ==> r.actions == m.actions && r.removeList == m.removeList + Selection(m.actions, target, Some(tag))
  {
    r := RemoveSelected(m, target, Some(tag));
    assert (set a | a in m.actions && a.target == target && a.tag == tag)
        == (set a | a in m.actions && Selects(a, target, Some(tag)));
  }

  // ---------------------------------------------------------------------
  // The update pass
  // ---------------------------------------------------------------------

  /**
    update: one pass over the actions. `requests` are the removeAction calls
    the actions make while they are updated (they are deferred), and `done`
    holds the actions that report being done after their update. After the
    pass the deferred removals are carried out and the list cleared, then
    the done actions are removed.
   */
  function Update(m: Manager, requests: seq<Action>, done: set<Action>): (r: Manager)
    ensures IsEmpty(m) ==> r == m
    ensures !IsEmpty(m) ==> !r.updating && r.removeList == []
    ensures !IsEmpty(m) ==> forall a :: a in r.actions <==>
              a in m.actions && a !in m.removeList && a !in requests && a !in done
    ensures !IsEmpty(m) ==> r.actions == Without(m.actions, (set a | a in m.removeList + requests) + done)
  {
    if IsEmpty(m) then m
    else
      var doneList := DoneOf(m.actions, done);
      var during := RemoveActions(m.(updating := true), requests);
      var after := during.(updating := false);
      var flushed := RemoveActions(after, after.removeList).(removeList := []);
      var deferred := set a | a in m.removeList + requests;
      assert flushed.actions == Without(m.actions, deferred);
      UpdateRemovesDone(m.actions, deferred, done, doneList);
      RemoveActions(flushed, doneList)
  }

  /** The done actions removed at the end of a pass are those of the list that are done. */
  lemma UpdateRemovesDone(xs: seq<Action>, deferred: set<Action>, done: set<Action>, doneList: seq<Action>)
    requires forall a :: a in doneList <==> a in xs && a in done
    ensures Without(Without(xs, deferred), set a | a in doneList) == Without(xs, deferred + done)
  {
    WithoutTwice(xs, deferred, set a | a in doneList);
    WithoutSameOnList(xs, deferred + (set a | a in doneList), deferred + done);
  }

  /** An update pass keeps the list free of duplicates. */
  lemma UpdateKeepsNoDuplicates(m: Manager, requests: seq<Action>, done: set<Action>)
    requires NoDuplicates(m.actions)
    ensures NoDuplicates(Update(m, requests, done).actions)
  {
    if !IsEmpty(m) {
      WithoutKeepsNoDuplicates(m.actions, (set a | a in m.removeList + requests) + done);
    }
  }
}
