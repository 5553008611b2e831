/** The import preview: a tree of plan items built from parent pointers. */
module ImportTree {
  import opened Forest
  import opened Wrappers

  datatype Kind = Environment | Folder | Request
  datatype Action = Create | Update | Delete | KeepLocal | Unchanged | Conflict | Ignored
  datatype Resolution = KeepMine | TakeSource

  datatype Item = Item(
    modelId: string, parentId: Option<string>, model: Kind, action: Action, selected: bool,
    resolution: Option<Resolution>)

  datatype Row = Destination | Group | ItemRow(item: Item)
  datatype Node = Node(key: string, data: Row, children: seq<Node>)
  datatype Status = Hidden | Checked(value: bool) | Indeterminate

  // ---------------------------------------------------------------- plan items

  function Ids(items: seq<Item>): set<string> {
    set i <- items :: i.modelId
  }

  ghost predicate Unique(items: seq<Item>) {
    forall j, k :: 0 <= j < k < |items| ==> items[j].modelId != items[k].modelId
  }

  /** new Map over [modelId, item] pairs: a later item replaces an earlier one with its id. */
  function ById(items: seq<Item>): map<string, Item> {
    if items == [] then map[]
    else ById(items[..|items| - 1])[items[|items| - 1].modelId := items[|items| - 1]]
  }

  function ParentsIn(byId: map<string, Item>): Parents {
    map id | id in byId :: byId[id].parentId
  }

  function ParentsOf(items: seq<Item>): Parents {
    ParentsIn(ById(items))
  }

  lemma {:induction false} ByIdLookup(items: seq<Item>)
    ensures ById(items).Keys == Ids(items)
    ensures forall id :: id in ById(items) ==> ById(items)[id] in items && ById(items)[id].modelId == id
    ensures Unique(items) ==> forall i :: i in items ==> ById(items)[i.modelId] == i
  {
    if items != [] {
      var n := |items| - 1;
      ByIdLookup(items[..n]);
      assert items == items[..n] + [items[n]];
      forall i | Unique(items) && i in items
        ensures ById(items)[i.modelId] == i
      {
        var k :| 0 <= k < |items| && items[k] == i;
        if k < n { assert items[..n][k] == i; }
      }
    }
  }

  /** list.filter(keep). */
  function Where(items: seq<Item>, keep: Item -> bool): (r: seq<Item>)
    ensures forall i :: i in r <==> i in items && keep(i)
  {
    if items == [] then []
    else
      var n := |items| - 1;
      assert items == items[..n] + [items[n]];
      Where(items[..n], keep) + if keep(items[n]) then [items[n]] else []
  }

  lemma WherePush(items: seq<Item>, i: Item, keep: Item -> bool)
    ensures Where(items + [i], keep) == Where(items, keep) + if keep(i) then [i] else []
  {
    assert (items + [i])[..|items|] == items;
  }

  function ChildrenIn(items: seq<Item>, id: string): (r: seq<Item>)
    ensures forall i :: i in r <==> i in items && i.parentId == Some(id)
  {
    Where(items, (i: Item) => i.parentId == Some(id))
  }

  predicate HasParent(ids: set<string>, i: Item) {
    i.parentId.Some? && i.parentId.value in ids
  }

  function RootsIn(items: seq<Item>, ids: set<string>): (r: seq<Item>)
    ensures forall i :: i in r <==> i in items && !HasParent(ids, i)
  {
    Where(items, (i: Item) => !HasParent(ids, i))
  }

  function OfKind(items: seq<Item>, kind: Kind): (r: seq<Item>)
    ensures forall i :: i in r <==> i in items && i.model == kind
  {
    Where(items, (i: Item) => i.model == kind)
  }

  function NotEnvironments(items: seq<Item>): (r: seq<Item>)
    ensures forall i :: i in r <==> i in items && i.model != Environment
  {
    Where(items, (i: Item) => i.model != Environment)
  }

  function ByKind(items: seq<Item>): (r: seq<Item>)
    ensures forall i :: i in r <==> i in items
  {
    OfKind(items, Environment) + OfKind(items, Folder) + OfKind(items, Request)
  }

  // ---------------------------------------------------------------- building the tree

  function Get(childrenOf: map<string, seq<Item>>, id: string): seq<Item> {
    if id in childrenOf then childrenOf[id] else []
  }

  /** Every listed child is a plan item. */
  predicate ChildrenKnown(childrenOf: map<string, seq<Item>>, ids: set<string>) {
    forall id <- childrenOf, c <- childrenOf[id] :: c.modelId in ids
  }

  function ToNode(childrenOf: map<string, seq<Item>>, ids: set<string>, item: Item, seen: set<string>): Node
    requires item.modelId in ids && ChildrenKnown(childrenOf, ids)
    decreases |ids - seen|, 1
  {
    Node(item.modelId, ItemRow(item),
         if item.modelId in seen then []
         else
           assert ids - (seen + {item.modelId}) == (ids - seen) - {item.modelId};
           ToNodes(childrenOf, ids, ByKind(Get(childrenOf, item.modelId)), seen + {item.modelId}))
  }

  function ToNodes(
    childrenOf: map<string, seq<Item>>, ids: set<string>, items: seq<Item>, seen: set<string>): (r: seq<Node>)
    requires (forall i :: i in items ==> i.modelId in ids) && ChildrenKnown(childrenOf, ids)
    ensures |r| == |items|
    decreases |ids - seen|, 2, |items|
  {
    if items == [] then [] else [ToNode(childrenOf, ids, items[0], seen)] + ToNodes(childrenOf, ids, items[1..], seen)
  }

  /** The children lists that the loop of buildItemTree leaves behind. */
  function ChildrenMap(items: seq<Item>, ids: set<string>): map<string, seq<Item>> {
    map id | id in ids && ChildrenIn(items, id) != [] :: ChildrenIn(items, id)
  }

  /** The rows above which nothing sits: the other items by kind, and the environments under a heading. */
  function ItemTree(items: seq<Item>): seq<Node> {
    var ids := Ids(items);
    var childrenOf := ChildrenMap(items, ids);
    var roots := RootsIn(items, ids);
    var environments := OfKind(roots, Environment);
    var nodes := ToNodes(childrenOf, ids, ByKind(NotEnvironments(roots)), {});
    if environments == [] then nodes
    else [Node("group:environments", Group, ToNodes(childrenOf, ids, environments, {}))] + nodes
  }

  lemma ChildrenMapStep(items: seq<Item>, k: nat, ids: set<string>)
    requires k < |items|
    ensures var item := items[k]; var before := ChildrenMap(items[..k], ids);
            ChildrenMap(items[..k + 1], ids) ==
            if HasParent(ids, item)
            then before[item.parentId.value := Get(before, item.parentId.value) + [item]]
            else before
    ensures RootsIn(items[..k + 1], ids) ==
            RootsIn(items[..k], ids) + if HasParent(ids, items[k]) then [] else [items[k]]
  {
    assert items[..k + 1] == items[..k] + [items[k]];
    WherePush(items[..k], items[k], (i: Item) => !HasParent(ids, i));
    var item, before, after := items[k], ChildrenMap(items[..k], ids), ChildrenMap(items[..k + 1], ids);
    var expected := if HasParent(ids, item)
                    then before[item.parentId.value := Get(before, item.parentId.value) + [item]]
                    else before;
    forall id
      ensures id in after <==> id in expected
      ensures id in after ==> after[id] == expected[id]
    {
      WherePush(items[..k], item, (i: Item) => i.parentId == Some(id));
    }
    assert after == expected;
  }

  method BuildItemTree(items: seq<Item>) returns (nodes: seq<Node>)
    ensures nodes == ItemTree(items)
  {
    var byId := ById(items);
    ByIdLookup(items);
    var childrenOf: map<string, seq<Item>> := map[];
    var roots: seq<Item> := [];
    for k := 0 to |items|
      invariant childrenOf == ChildrenMap(items[..k], byId.Keys)
      invariant roots == RootsIn(items[..k], byId.Keys)
    {
      hide Where, ChildrenMap;
      var item := items[k];
      ChildrenMapStep(items, k, byId.Keys);
      if item.parentId.Some? && item.parentId.value in byId {
        var siblings := Get(childrenOf, item.parentId.value) + [item];
        childrenOf := childrenOf[item.parentId.value := siblings];
      } else {
        roots := roots + [item];
      }
    }
    assert items[..|items|] == items;
    var environments := OfKind(roots, Environment);
    var others := ByKind(NotEnvironments(roots));
    nodes := ToNodes(childrenOf, byId.Keys, others, {});
    if environments == [] { return; }
    nodes := [Node("group:environments", Group, ToNodes(childrenOf, byId.Keys, environments, {}))] + nodes;
  }

  /** The walk up from item, which stops at an id it has been to or does not know. */
  method AncestorsOf(item: Item, byId: map<string, Item>) returns (ancestors: seq<Item>)
    requires item.modelId in byId && byId[item.modelId] == item
    requires forall id :: id in byId ==> byId[id].modelId == id
    ensures ancestors == AncestorItems(byId, item.modelId, {})
  {
    ancestors := [];
    var seen: set<string> := {};
    var parentId := item.parentId;
    ghost var at := item;
    while parentId.Some? && parentId.value !in seen
      invariant parentId == at.parentId && at.modelId in byId && byId[at.modelId] == at
      invariant AncestorItems(byId, item.modelId, {}) == ancestors + AncestorItems(byId, at.modelId, seen)
      decreases |byId.Keys - seen|
    {
      seen := seen + {parentId.value};
      if parentId.value !in byId {
        break;
      }
      assert byId.Keys - seen == (byId.Keys - (seen - {parentId.value})) - {parentId.value};
      var parent := byId[parentId.value];
      ancestors := ancestors + [parent];
      at := parent;
      parentId := parent.parentId;
    }
  }

  /** The plan items on the walk up from id. */
  function AncestorItems(byId: map<string, Item>, id: string, seen: set<string>): seq<Item>
    requires id in byId
    decreases |byId.Keys - seen|
  {
    var up := byId[id].parentId;
    if up.None? || up.value in seen || up.value !in byId then []
    else
      assert byId.Keys - (seen + {up.value}) == (byId.Keys - seen) - {up.value};
      [byId[up.value]] + AncestorItems(byId, up.value, seen + {up.value})
  }

  lemma {:induction false} AncestorItemsAreAncestors(byId: map<string, Item>, id: string, seen: set<string>)
    requires id in byId
    ensures var ids := Ancestors(ParentsIn(byId), id, seen);
            && |AncestorItems(byId, id, seen)| == |ids|
            && forall k :: 0 <= k < |ids| ==> ids[k] in byId && AncestorItems(byId, id, seen)[k] == byId[ids[k]]
    decreases |byId.Keys - seen|
  {
    var up := byId[id].parentId;
    if !(up.None? || up.value in seen || up.value !in byId) {
      assert byId.Keys - (seen + {up.value}) == (byId.Keys - seen) - {up.value};
      assert ParentsIn(byId).Keys == byId.Keys;
      AncestorItemsAreAncestors(byId, up.value, seen + {up.value});
    }
  }
}
