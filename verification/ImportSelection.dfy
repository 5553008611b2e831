/** The checkboxes of the import preview: what one click decides, and the trees it can be made in. */
module ImportSelection {
  import opened Forest
  import opened Wrappers
  import opened ImportTree
  import opened ImportPlacement

  /** Committing the plan makes this folder only if it is selected, and nothing beneath it otherwise. */
  predicate MissingFolder(i: Item) {
    i.model == Folder && (i.action == Create || i.action == Ignored)
  }

  predicate Togglable(i: Item) {
    i.action != Unchanged && i.action != Conflict
  }

  function TogglableItem(row: Row): Option<Item> {
    if row.ItemRow? && Togglable(row.item) then Some(row.item) else None
  }

  function TogglablesOn(rows: seq<Row>): seq<Item> {
    if rows == [] then []
    else (match TogglableItem(rows[0]) case Some(i) => [i] case None => []) + TogglablesOn(rows[1..])
  }

  function TogglableItems(n: Node): seq<Item> {
    TogglablesOn(CollectRows(n))
  }

  function Selected(items: seq<Item>): seq<Item> {
    if items == [] then [] else (if items[0].selected then [items[0]] else []) + Selected(items[1..])
  }

  function NodeStatus(n: Node): Status {
    var covered := TogglableItems(n);
    var selected := |Selected(covered)|;
    if covered == [] then Hidden
    else if selected == |covered| then Checked(true)
    else if selected == 0 then Checked(false)
    else Indeterminate
  }

  function Choose(i: Item, targets: set<string>, checked: bool): Item {
    if i.modelId in targets then i.(selected := checked) else i
  }

  function Reselect(items: seq<Item>, targets: set<string>, checked: bool): (r: seq<Item>)
    ensures |r| == |items| && forall k :: 0 <= k < |items| ==> r[k] == Choose(items[k], targets, checked)
  {
    if items == [] then []
    else Reselect(items[..|items| - 1], targets, checked) + [Choose(items[|items| - 1], targets, checked)]
  }

  /** The missing folders among a list of plan items. */
  function MissingAmong(items: seq<Item>): set<string> {
    set i <- items | MissingFolder(i) :: i.modelId
  }

  function CoveredIds(n: Node): set<string> {
    set i <- TogglableItems(n) :: i.modelId
  }

  /** What a click on a row changes. */
  function Targets(items: seq<Item>, n: Node, checked: bool): set<string> {
    CoveredIds(n) +
    if checked && n.data.ItemRow? && n.data.item.modelId in ById(items)
    then MissingAmong(AncestorItems(ById(items), n.data.item.modelId, {}))
    else {}
  }

  class ImportPreview {
    var items: seq<Item>

    constructor (plan: seq<Item>)
      ensures items == plan
    {
      items := plan;
    }

    method ToggleNode(n: Node, checked: bool)
      requires Unique(items) && (n.data.ItemRow? ==> n.data.item in items)
      modifies this
      ensures items == Reselect(old(items), Targets(old(items), n, checked), checked)
    {
      hide ById, CoveredIds, TogglablesOn, CollectRows, AncestorItems, Unique, Reselect, MissingAmong;
      var targets := CoveredIds(n);
      if checked && n.data.ItemRow? {
        var byId := ById(items);
        ByIdLookup(items);
        var ancestors := AncestorsOf(n.data.item, byId);
        ghost var covered := targets;
        NoneMissing();
        for k := 0 to |ancestors|
          invariant items == old(items)
          invariant targets == covered + MissingAmong(ancestors[..k])
        {
          MissingPush(ancestors, k);
          if MissingFolder(ancestors[k]) {
            targets := targets + {ancestors[k].modelId};
          }
        }
        assert ancestors[..|ancestors|] == ancestors;
        assert targets == Targets(items, n, checked);
      } else {
        assert targets == Targets(items, n, checked);
      }
      items := Reselect(items, targets, checked);
    }

    method ResolveConflict(modelId: string, resolution: Resolution)
      modifies this
      ensures items == Resolved(old(items), modelId, resolution)
    {
      items := Resolved(items, modelId, resolution);
    }

    /** The deletions that a selected deletion above them settles already. */
    method DisabledIds() returns (disabled: set<string>)
      requires Unique(items)
      ensures disabled == set i <- items | UnderDeleted(items, i) :: i.modelId
    {
      hide ById, AncestorItems, Ancestors, UnderDeleted;
      disabled := {};
      var byId := ById(items);
      ByIdLookup(items);
      for k := 0 to |items|
        invariant disabled == set i <- items[..k] | UnderDeleted(items, i) :: i.modelId
      {
        var item := items[k];
        ghost var before := disabled;
        assert items[..k + 1] == items[..k] + [item];
        UnderDeletedSpelled(items, item);
        if item.action == Delete {
          var ancestors := AncestorsOf(item, byId);
          for m := 0 to |ancestors|
            invariant disabled == before + if AnyDeleted(ancestors[..m]) then {item.modelId} else {}
          {
            AnyDeletedPush(ancestors, m);
            if ancestors[m].action == Delete && ancestors[m].selected {
              disabled := disabled + {item.modelId};
            }
          }
          assert ancestors[..|ancestors|] == ancestors;
        }
      }
      assert items[..|items|] == items;
    }
  }

  lemma NoneMissing()
    ensures MissingAmong([]) == {}
  {
  }

  lemma MissingPush(items: seq<Item>, k: nat)
    requires k < |items|
    ensures MissingAmong(items[..k + 1]) ==
            MissingAmong(items[..k]) + if MissingFolder(items[k]) then {items[k].modelId} else {}
  {
    assert items[..k + 1] == items[..k] + [items[k]];
  }

  predicate AnyDeleted(items: seq<Item>) {
    exists a :: a in items && a.action == Delete && a.selected
  }

  lemma AnyDeletedPush(items: seq<Item>, k: nat)
    requires k < |items|
    ensures AnyDeleted(items[..k + 1]) <==> AnyDeleted(items[..k]) || (items[k].action == Delete && items[k].selected)
  {
    assert items[..k + 1] == items[..k] + [items[k]];
  }

  /** A deletion inside a folder whose deletion is selected. */
  predicate UnderDeleted(items: seq<Item>, i: Item) {
    i.action == Delete &&
    exists p :: p in items && p.modelId in Ancestors(ParentsOf(items), i.modelId, {}) &&
                p.action == Delete && p.selected
  }

  lemma UnderDeletedSpelled(items: seq<Item>, i: Item)
    requires Unique(items) && i in items && i.modelId in ById(items)
    ensures UnderDeleted(items, i) <==> i.action == Delete && AnyDeleted(AncestorItems(ById(items), i.modelId, {}))
  {
    AncestorsFound(items, i.modelId);
  }

  function Resolved(items: seq<Item>, modelId: string, resolution: Resolution): seq<Item> {
    seq(|items|, k requires 0 <= k < |items| =>
      if items[k].modelId == modelId then items[k].(resolution := Some(resolution)) else items[k])
  }

  /** The walk over plan items finds the items whose ids the walk over ids finds. */
  lemma AncestorsFound(items: seq<Item>, id: string)
    requires Unique(items) && id in Ids(items)
    ensures id in ById(items)
    ensures forall a :: a in AncestorItems(ById(items), id, {}) <==>
                        a in items && a.modelId in Ancestors(ParentsOf(items), id, {})
  {
    ByIdLookup(items);
    var byId := ById(items);
    var found, ids := AncestorItems(byId, id, {}), Ancestors(ParentsOf(items), id, {});
    AncestorItemsAreAncestors(byId, id, {});
    forall a
      ensures a in found <==> a in items && a.modelId in ids
    {
      if a in found {
        var k :| 0 <= k < |found| && found[k] == a;
        assert byId[ids[k]] == a;
      }
      if a in items && a.modelId in ids {
        var k :| 0 <= k < |ids| && ids[k] == a.modelId;
        assert found[k] == byId[a.modelId] == a;
      }
    }
  }

  // ---------------------------------------------------------------- what a click leaves alone

  /** Same items, up to what the preview lets the user decide. */
  predicate SameSkeleton(a: seq<Item>, b: seq<Item>) {
    |a| == |b| &&
    forall k :: 0 <= k < |a| ==>
      b[k] == a[k].(selected := b[k].selected, resolution := b[k].resolution)
  }

  lemma {:induction false} SkeletonParents(a: seq<Item>, b: seq<Item>)
    requires SameSkeleton(a, b)
    ensures ParentsOf(a) == ParentsOf(b)
  {
    if a != [] {
      var n := |a| - 1;
      SkeletonParents(a[..n], b[..n]);
      assert a[..n][..0] == b[..n][..0];
      forall id
        ensures id in ParentsOf(a) <==> id in ParentsOf(b)
        ensures id in ParentsOf(a) ==> ParentsOf(a)[id] == ParentsOf(b)[id]
      {
        assert id in ParentsOf(a[..n]) <==> id in ParentsOf(b[..n]);
        if id in ParentsOf(a[..n]) { assert ParentsOf(a[..n])[id] == ParentsOf(b[..n])[id]; }
      }
    }
  }

  lemma SkeletonIds(a: seq<Item>, b: seq<Item>)
    requires SameSkeleton(a, b)
    ensures Ids(a) == Ids(b) && (Unique(a) <==> Unique(b))
  {
    forall x
      ensures x in Ids(a) <==> x in Ids(b)
    {
      if x in Ids(a) {
        var k :| 0 <= k < |a| && a[k].modelId == x;
        assert b[k] in b;
      }
      if x in Ids(b) {
        var k :| 0 <= k < |b| && b[k].modelId == x;
        assert a[k] in a;
      }
    }
  }

  lemma {:induction false} ReselectLookup(items: seq<Item>, targets: set<string>, checked: bool)
    ensures SameSkeleton(items, Reselect(items, targets, checked))
    ensures ById(Reselect(items, targets, checked)).Keys == ById(items).Keys
    ensures forall id :: id in ById(items) ==>
              ById(Reselect(items, targets, checked))[id] == Choose(ById(items)[id], targets, checked)
  {
    if items != [] {
      var n := |items| - 1;
      ReselectLookup(items[..n], targets, checked);
      assert Reselect(items, targets, checked)[..n] == Reselect(items[..n], targets, checked);
    }
  }

  // ---------------------------------------------------------------- the part of the plan one tree shows

  /** The items of one workspace. */
  function InWorkspace(items: seq<Item>, workspaceOf: map<string, string>, id: string): seq<Item> {
    Where(items, (i: Item) => i.modelId in workspaceOf && workspaceOf[i.modelId] == id)
  }

  /** The destination: one workspace that takes every item, or several that each take their own. */
  datatype Destinations = One(id: string) | Several(ids: seq<string>, workspaceOf: map<string, string>)

  function Part(items: seq<Item>, dest: Destinations, k: nat): seq<Item> {
    match dest
    case One(_) => items
    case Several(ids, workspaceOf) => if k < |ids| then InWorkspace(items, workspaceOf, ids[k]) else []
  }

  /** Parent and child are planned for the same workspace. */
  predicate FamiliesTogether(items: seq<Item>, dest: Destinations) {
    dest.Several? ==>
      forall c, p :: c in items && p in items && c.parentId == Some(p.modelId) ==>
        (c.modelId in dest.workspaceOf <==> p.modelId in dest.workspaceOf) &&
        (c.modelId in dest.workspaceOf ==> dest.workspaceOf[c.modelId] == dest.workspaceOf[p.modelId])
  }

  /** part is cut out of items without separating a child from its parent. */
  ghost predicate WholeFamilies(items: seq<Item>, part: seq<Item>) {
    && Unique(part)
    && (forall i :: i in part ==> i in items)
    && (forall c, p :: c in items && p in items && c.parentId == Some(p.modelId) ==> (c in part <==> p in part))
  }

  lemma PartHasWholeFamilies(items: seq<Item>, dest: Destinations, k: nat)
    requires Unique(items) && FamiliesTogether(items, dest)
    ensures WholeFamilies(items, Part(items, dest, k))
  {
    match dest
    case One(_) =>
    case Several(ids, workspaceOf) =>
      if k < |ids| { WhereUnique(items, (i: Item) => i.modelId in workspaceOf && workspaceOf[i.modelId] == ids[k]); }
  }

  lemma PartUp(items: seq<Item>, part: seq<Item>, id: string)
    requires Unique(items) && WholeFamilies(items, part)
    ensures id in Ids(part) ==>
              id in Ids(items) && Up(ParentsOf(part), id) == Up(ParentsOf(items), id)
    ensures id in Ids(items) && Up(ParentsOf(items), id).Some? ==>
              (id in Ids(part) <==> Up(ParentsOf(items), id).value in Ids(part))
  {
    ParentsKeys(items);
    ParentsKeys(part);
    if id in Ids(items) {
      var i :| i in items && i.modelId == id;
      if j :| j in part && j.modelId == id { SameItem(items, i, j); }
      if HasParent(Ids(items), i) {
        var p :| p in items && p.modelId == i.parentId.value;
        if q :| q in part && q.modelId == p.modelId { SameItem(items, p, q); }
      }
    }
  }

  /** Inside a part the walk up is the walk up in the whole plan. */
  lemma {:induction false} PartAncestors(items: seq<Item>, part: seq<Item>, id: string, seen: set<string>)
    requires Unique(items) && WholeFamilies(items, part) && id in Ids(part)
    ensures Ancestors(ParentsOf(part), id, seen) == Ancestors(ParentsOf(items), id, seen)
    ensures forall a :: a in Ancestors(ParentsOf(items), id, seen) ==> a in Ids(part)
    decreases |ParentsOf(items).Keys - seen|
  {
    PartUp(items, part, id);
    var up := Up(ParentsOf(items), id);
    if up.Some? && up.value !in seen {
      var keys := ParentsOf(items).Keys;
      assert keys - (seen + {up.value}) == (keys - seen) - {up.value};
      PartAncestors(items, part, up.value, seen + {up.value});
    }
  }

  /** What has an ancestor in a part is in the part. */
  lemma {:induction false} PartDescendants(items: seq<Item>, part: seq<Item>, id: string, a: string, seen: set<string>)
    requires Unique(items) && WholeFamilies(items, part) && a in Ids(part)
    requires a in Ancestors(ParentsOf(items), id, seen)
    ensures id in Ids(part)
    decreases |ParentsOf(items).Keys - seen|
  {
    PartUp(items, part, id);
    ParentsKeys(items);
    var up := Up(ParentsOf(items), id);
    if up.value != a {
      var keys := ParentsOf(items).Keys;
      assert keys - (seen + {up.value}) == (keys - seen) - {up.value};
      PartDescendants(items, part, up.value, a, seen + {up.value});
    }
  }
}
