/** What the import preview shows, said of the fields of plan items and rows alone. */
module ImportRows {
  import opened Wrappers
  import opened Forest
  import opened ImportTree
  import opened ImportPlacement
  import opened ImportSelection
  import opened ImportRuns

  // ---------------------------------------------------------------- the order of the rows

  /** The plan lists a before b. */
  ghost predicate Before(plan: seq<Item>, a: Item, b: Item) {
    exists p, q :: 0 <= p < q < |plan| && plan[p] == a && plan[q] == b
  }

  /** Environments, then folders, then the rest, each in the order of the plan. */
  ghost predicate InOrder(plan: seq<Item>, list: seq<Item>) {
    forall j, k :: 0 <= j < k < |list| ==>
      && (list[j].model == Request ==> list[k].model == Request)
      && (list[j].model == Folder ==> list[k].model != Environment)
      && (list[j].model == list[k].model ==> Before(plan, list[j], list[k]))
  }

  ghost predicate InPlanOrder(plan: seq<Item>, list: seq<Item>) {
    forall j, k :: 0 <= j < k < |list| ==> Before(plan, list[j], list[k])
  }

  lemma {:induction false} WhereInPlanOrder(items: seq<Item>, keep: Item -> bool)
    ensures InPlanOrder(items, Where(items, keep))
  {
    if items != [] {
      var n := |items| - 1;
      var front := items[..n];
      WhereInPlanOrder(front, keep);
      assert items == front + [items[n]];
      forall j, k | 0 <= j < k < |Where(items, keep)|
        ensures Before(items, Where(items, keep)[j], Where(items, keep)[k])
      {
        var a := Where(items, keep)[j];
        assert a == Where(front, keep)[j] && a in front;
        var p :| 0 <= p < |front| && front[p] == a;
        if k < |Where(front, keep)| {
          assert Before(front, a, Where(front, keep)[k]);
          var x, y :| 0 <= x < y < |front| && front[x] == a && front[y] == Where(front, keep)[k];
          assert items[x] == a && items[y] == Where(items, keep)[k];
        } else {
          assert items[p] == a && items[n] == Where(items, keep)[k];
        }
      }
    }
  }

  lemma PlanOrderInside(plan: seq<Item>, list: seq<Item>, part: seq<Item>)
    requires InPlanOrder(plan, list) && InPlanOrder(list, part)
    ensures InPlanOrder(plan, part)
  {
    forall j, k | 0 <= j < k < |part|
      ensures Before(plan, part[j], part[k])
    {
      assert Before(list, part[j], part[k]);
    }
  }

  lemma ByKindInOrder(plan: seq<Item>, list: seq<Item>)
    requires InPlanOrder(plan, list)
    ensures InOrder(plan, ByKind(list))
  {
    KindInPlanOrder(plan, list, Environment);
    KindInPlanOrder(plan, list, Folder);
    KindInPlanOrder(plan, list, Request);
    KindsInOrder(plan, OfKind(list, Environment), OfKind(list, Folder), OfKind(list, Request));
  }

  lemma KindInPlanOrder(plan: seq<Item>, list: seq<Item>, kind: Kind)
    requires InPlanOrder(plan, list)
    ensures InPlanOrder(plan, OfKind(list, kind))
  {
    hide Where, Before;
    WhereInPlanOrder(list, (i: Item) => i.model == kind);
    PlanOrderInside(plan, list, OfKind(list, kind));
  }

  lemma KindsInOrder(plan: seq<Item>, environments: seq<Item>, folders: seq<Item>, rest: seq<Item>)
    requires InPlanOrder(plan, environments) && InPlanOrder(plan, folders) && InPlanOrder(plan, rest)
    requires forall i <- environments :: i.model == Environment
    requires forall i <- folders :: i.model == Folder
    requires forall i <- rest :: i.model == Request
    ensures InOrder(plan, environments + folders + rest)
  {
    hide Before;
  }

  /** Exactly the items that belong, in order. */
  ghost predicate Lists(plan: seq<Item>, nodes: seq<Node>, belongs: Item -> bool) {
    && (forall k :: 0 <= k < |nodes| ==> nodes[k].data.ItemRow?)
    && (forall i :: i in plan && belongs(i) <==> exists k :: 0 <= k < |nodes| && nodes[k].data == ItemRow(i))
    && forall j, k :: 0 <= j < k < |nodes| && nodes[j].data.ItemRow? && nodes[k].data.ItemRow? ==>
         var a, b := nodes[j].data.item, nodes[k].data.item;
         && (a.model == Request ==> b.model == Request)
         && (a.model == Folder ==> b.model != Environment)
         && (a.model == b.model ==> Before(plan, a, b))
  }

  lemma NodesList(items: seq<Item>, list: seq<Item>, seen: set<string>, belongs: Item -> bool)
    requires InOrder(items, list) && forall i :: i in list <==> i in items && belongs(i)
    requires forall i :: i in list ==> i.modelId in Ids(items)
    ensures Lists(items, NodesFor(items, list, seen), belongs)
  {
    hide NodesFor, Before;
    NodesShow(items, list, seen);
    var nodes := NodesFor(items, list, seen);
    forall i
      ensures i in items && belongs(i) <==> exists k :: 0 <= k < |nodes| && nodes[k].data == ItemRow(i)
    {
      if i in list {
        var k :| 0 <= k < |list| && list[k] == i;
        assert nodes[k].data == ItemRow(i);
      }
    }
  }

  /** Beneath a row: the items that name it as their parent. */
  lemma ChildrenInOrder(items: seq<Item>, n: Node)
    requires Unique(items) && InTree(items, n)
    ensures Lists(items, n.children, (i: Item) => i.parentId == Some(n.key))
  {
    hide ByKind, Where, InTree, InOrder, NodesFor, ParentsOf, Before;
    var s, d := ItemNodeOfTree(items, n);
    ChildrenUnderParent(items, n);
    RowOrderInOrder(items, n.key);
    NodesList(items, RowOrder(items, n.key), s + {n.key}, (i: Item) => i.parentId == Some(n.key));
  }

  lemma RowOrderInOrder(items: seq<Item>, id: string)
    ensures InOrder(items, RowOrder(items, id))
  {
    hide ByKind, Where;
    WhereInPlanOrder(items, (i: Item) => i.parentId == Some(id));
    ByKindInOrder(items, if id in Ids(items) then ChildrenIn(items, id) else []);
  }

  /** The plan holds no parent for the item. */
  predicate Topmost(plan: seq<Item>, i: Item) {
    i.parentId.None? || forall p <- plan :: p.modelId != i.parentId.value
  }

  /** At the top: a heading over the environments, if there are any, then the other items. */
  lemma TopInOrder(items: seq<Item>)
    ensures var nodes := ItemTree(items);
            var heading := nodes != [] && nodes[0].data == Group;
            && (heading <==> exists i :: i in items && Topmost(items, i) && i.model == Environment)
            && (heading ==> Lists(items, nodes[0].children, (i: Item) => Topmost(items, i) && i.model == Environment))
            && Lists(items, if heading then nodes[1..] else nodes,
                     (i: Item) => Topmost(items, i) && i.model != Environment)
  {
    hide ByKind, Where, ItemTree, NodesFor, InOrder, Before;
    var e, o := NodesFor(items, Environments(items), {}), NodesFor(items, OtherRoots(items), {});
    assert forall i :: i in items ==> (HasParent(Ids(items), i) <==> !Topmost(items, i));
    ItemTreeSpelled(items);
    RootsInOrder(items);
    NodesList(items, Environments(items), {}, (i: Item) => Topmost(items, i) && i.model == Environment);
    NodesList(items, OtherRoots(items), {}, (i: Item) => Topmost(items, i) && i.model != Environment);
    NodesShow(items, OtherRoots(items), {});
    if Environments(items) != [] {
      assert Environments(items)[0] in Environments(items);
      assert ItemTree(items)[1..] == o;
    }
  }

  lemma RootsInOrder(items: seq<Item>)
    ensures InOrder(items, Environments(items)) && InOrder(items, OtherRoots(items))
  {
    hide ByKind, Where, InPlanOrder;
    var roots := RootsIn(items, Ids(items));
    WhereInPlanOrder(items, (i: Item) => !HasParent(Ids(items), i));
    KindInPlanOrder(items, roots, Environment);
    OneKindInOrder(items, OfKind(roots, Environment));
    WhereInPlanOrder(roots, (i: Item) => i.model != Environment);
    PlanOrderInside(items, roots, NotEnvironments(roots));
    ByKindInOrder(items, NotEnvironments(roots));
  }

  lemma OneKindInOrder(plan: seq<Item>, environments: seq<Item>)
    requires InPlanOrder(plan, environments) && forall i <- environments :: i.model == Environment
    ensures InOrder(plan, environments)
  {
    hide Before;
  }

  /** The tree of one of several destinations is over its workspace's items, in plan order. */
  lemma PartSpelled(items: seq<Item>, ids: seq<string>, workspaceOf: map<string, string>, k: nat)
    requires k < |ids|
    ensures var part := Part(items, Several(ids, workspaceOf), k);
            && (forall i :: i in part <==>
                  i in items && i.modelId in workspaceOf && workspaceOf[i.modelId] == ids[k])
            && InPlanOrder(items, part)
  {
    WhereInPlanOrder(items, (i: Item) => i.modelId in workspaceOf && workspaceOf[i.modelId] == ids[k]);
  }

  // ---------------------------------------------------------------- checkboxes

  /** The plan items on the row and beneath it that a checkbox decides. */
  ghost function Boxes(n: Node): set<Item> {
    set r <- CollectRows(n) | r.ItemRow? && r.item.action != Unchanged && r.item.action != Conflict :: r.item
  }

  /** A row's checkbox is hidden without such items, checked or unchecked if they agree, and
      indeterminate if they do not. */
  lemma StatusSpelled(n: Node)
    ensures NodeStatus(n) == Hidden <==> Boxes(n) == {}
    ensures NodeStatus(n) == Checked(true) <==> Boxes(n) != {} && forall i <- Boxes(n) :: i.selected
    ensures NodeStatus(n) == Checked(false) <==> Boxes(n) != {} && forall i <- Boxes(n) :: !i.selected
    ensures NodeStatus(n) == Indeterminate <==>
            (exists i :: i in Boxes(n) && i.selected) && (exists i :: i in Boxes(n) && !i.selected)
  {
    hide TogglablesOn, CollectRows, Selected;
    var covered := TogglableItems(n);
    TogglablesAreItems(CollectRows(n));
    forall i
      ensures i in covered <==> i in Boxes(n)
    {
      if i in covered { assert ItemRow(i).item == i; }
    }
    SelectedCounts(covered);
    if covered != [] { assert covered[0] in covered; }
    assert covered == [] <==> Boxes(n) == {} by { if x :| x in Boxes(n) { assert x in covered; } }
  }

  lemma {:induction false} SelectedCounts(items: seq<Item>)
    ensures |Selected(items)| <= |items|
    ensures |Selected(items)| == |items| <==> forall i <- items :: i.selected
    ensures |Selected(items)| == 0 <==> forall i <- items :: !i.selected
  {
    if items != [] {
      SelectedCounts(items[1..]);
      assert items == [items[0]] + items[1..];
    }
  }

  /** What one click leaves of each plan item: the items beneath the row that have a checkbox get the
      requested value, and so do the folders above it that are yet to be made, if it is checked.
      Nothing else changes. */
  lemma ClickDecides(items: seq<Item>, part: seq<Item>, n: Node, checked: bool, k: nat)
    requires Unique(items) && WholeFamilies(items, part) && Displayed(part, n) && k < |items|
    ensures var i := items[k];
            var beneath := ItemRow(i) in CollectRows(n) && i.action != Unchanged && i.action != Conflict;
            var above := && checked && n.data.ItemRow? && i.modelId in Ancestors(ParentsOf(items), n.key, {})
                         && i.model == Folder && (i.action == Create || i.action == Ignored);
            Reselect(items, Targets(items, n, checked), checked)[k] ==
            Item(i.modelId, i.parentId, i.model, i.action, if beneath || above then checked else i.selected,
                 i.resolution)
  {
    hide ParentsOf, Ancestors, CollectRows, Targets, Displayed, WholeFamilies, ById;
    var i := items[k];
    DisplayedIsCut(items, part, n);
    ByIdLookup(items);
    assert i in items;
    TargetsSpelled(items, n, checked, i.modelId);
    if i.modelId in CoveredRows(n) {
      var r :| r in CollectRows(n) && r.ItemRow? && r.item.modelId == i.modelId;
      SameItem(items, r.item, i);
    }
    if ItemRow(i) in CollectRows(n) { CoveredByRow(n, i); }
  }
}
